# Red-black tree rebalancing (`src/rbtree.c`) in Dafny

The C file keeps a red-black tree as `node_t` records linked by `parent`,
`left` and `right` pointers. One shared BLACK sentinel `t->nil` stands for
every missing child and for the parent of the root. The file implements three
things: construction (`new_rbtree`), the two rotations (`left_rotate`,
`right_rotate`) and the insertion rebalancing loop (`rbtree_insert_fixup`,
the algorithm of CLRS section 13.3). Every other entry point is a stub.

The model keeps the C form:

- `Rbtree.RbTree` is the `rbtree` record. It holds an arena `nodes` of
  `NodeRec(key, color, parent, left, right)` records indexed by `Ref`, where
  slot `Nil` (0) is the sentinel, and the `root` link. Its methods perform the
  C field writes, in the C order, as in-place updates of these fields.
- A ghost field `T` holds the algebraic tree (`Trees.Tree`) that the arena
  encodes. `Valid()` ties the two together (`Arena.Encodes`): every node of
  `T` is a slot whose record has its key, its colour, its parent and its
  children. It also requires the nodes to be distinct, the sentinel to be
  BLACK and `root` to be the root of `T`.
- The primitive writes (`LeftRotate`, `RightRotate`, `Paint`) state their
  effect twice. On the records they name the exact slots written
  (`Arena.LeftRotated`, `Arena.RightRotated`, one colour field). On `T` they
  give the abstract operation (`Rotations.RotateLeftAt`,
  `Rotations.RotateRightAt`, `Rotations.PaintAt`). The methods of the fixup
  loop state their effect on `T` as the composition of these operations that
  each case performs (`Fixup.Recolored`, `Fixup.RotatedRight`,
  `Fixup.RotatedLeft`), and on the records that every slot keeps its key.
- Local changes are reasoned about through paths (`Zippers`): a path from the
  root to a node plus the subtree there. The lemmas in `Fixup` prove what
  each case of the loop does to the abstract tree.
- `InsertFixup` is the C `while` loop. The bodies of its two mirror branches
  (parent is a right child / parent is a left child) are the methods
  `FixupParentRight` and `FixupParentLeft`. Inside each branch, the RED-uncle
  case is the method `Recolor` and the BLACK-uncle case is `RotateCaseRight` or
  `RotateCaseLeft`. This keeps each proof small; the statements are those of
  the C branches. The loop invariant is the CLRS one
  (`Fixup.FixupInvariant`), and the depth of `z` decreases on every pass.

The rotations never write the sentinel: they re-point the moved subtree's
parent only when that subtree is not `t->nil` (src/rbtree.c:24-26, 47-49).
`Arena.LeftRotated` and `Arena.RightRotated` state that slot `Nil` is left
unchanged. No modelled operation writes a key: `Arena.KeysKept` states that
every slot keeps its key, and each method that changes the tree ensures it.

## Model

| member | source | states |
|---|---|---|
| `Rbtree.RbTree.constructor` | src/rbtree.c:7-16 | the new tree is empty: the sentinel is a BLACK slot, the root link is the sentinel, and the empty tree satisfies the red-black invariants |
| `Rbtree.RbTree.LeftRotate` | src/rbtree.c:20-39 | requires x to be a node with a real right child y. The writes are exactly: x gets y's old left subtree as right child and y as parent; y gets x as left child and x's old parent as parent; the moved subtree's root is re-pointed to x only if it is not the sentinel; x's old parent links y on the side where it linked x, or `root` becomes y when x was the root. No other slot changes, every slot keeps its key (`KeysKept`), and the tree is now the old tree rotated left at x |
| `Rbtree.RbTree.RightRotate` | src/rbtree.c:43-62 | the exact mirror of `LeftRotate`, for y with a real left child x, also keeping every slot's key |
| `Arena.LeftRotateEncodes` | src/rbtree.c:20-39 | after the writes of `left_rotate`, the arena holds precisely the rotated tree, and its root is y exactly when x had the sentinel as parent |
| `Arena.RightRotateEncodes` | src/rbtree.c:43-62 | the same for `right_rotate`: the arena holds the tree rotated right, with root x exactly when y was the root |
| `Arena.PaintEncodes` | src/rbtree.c:70-72 | writing colour c into x's slot takes an arena encoding t to one encoding `PaintAt(t, x, c)`, with the same root |
| `Arena.RotationsKeepKeysAndColors` | src/rbtree.c:20-62 | a rotation writes links only: every slot keeps its key and its colour |
| `Rotations.RotateLeftAt` | src/rbtree.c:20-39 | rotating left keeps the in-order key sequence, the set of nodes and their distinctness |
| `Rotations.RotateRightAt` | src/rbtree.c:43-62 | rotating right keeps the in-order key sequence, the set of nodes and their distinctness |
| `Rotations.RotateLeftAtInverse` | src/rbtree.c:20-62 | after a left rotation at x, x is the left child of its old right child y, and rotating right at y gives back the original tree |
| `Rotations.RotateRightAtInverse` | src/rbtree.c:20-62 | after a right rotation at y, y is the right child of its old left child x, and rotating left at x gives back the original tree |
| `Rotations.RotationsKeepSearchTree` | src/rbtree.c:20-62 | both rotations keep binary-search-tree order |
| `Rotations.PaintAt` | src/rbtree.c:70-72 | a colour write leaves the in-order keys, the node set and their distinctness as they were, and the written node reads back the new colour |
| `Rbtree.RbTree.Paint` | src/rbtree.c:70-72 | `x->color = c` changes only the colour field of x's slot, so every slot keeps its key |
| `Arena.ParentColorView` | src/rbtree.c:66 | the loop guard reads the colour of z's abstract parent, which is BLACK when z is the root (the parent link is the BLACK sentinel) |
| `Fixup.Grandparent` | src/rbtree.c:66-68 | while z's parent is RED, the parent and the grandparent that the loop dereferences are real nodes of the tree |
| `Fixup.Family` | src/rbtree.c:66-68 | while z's parent is RED, the parent is not the root and the grandparent is BLACK. The uncle the loop reads is the grandparent's other child, with the colour the loop sees (BLACK for the sentinel) |
| `Fixup.RecolorCase` | src/rbtree.c:69-73 | uncle RED: painting parent and uncle BLACK and the grandparent RED keeps the loop invariant for z := grandparent, whose depth is smaller |
| `Fixup.InnerCaseRight` | src/rbtree.c:75-78 | uncle BLACK with z a left child of a right child: rotating right at the parent keeps the invariant for z := parent at the same depth. The new z is a right child of a right child, still with a BLACK uncle |
| `Fixup.InnerCaseLeft` | src/rbtree.c:91-94 | the mirror of `InnerCaseRight`, with a left rotation |
| `Fixup.OuterCaseRight` | src/rbtree.c:79-81 | uncle BLACK with z not a left child of a right child: painting the parent BLACK and the grandparent RED, then rotating left at the grandparent, keeps the invariant at a smaller depth. z's parent is then BLACK, so the loop exits |
| `Fixup.OuterCaseLeft` | src/rbtree.c:95-97 | the mirror of `OuterCaseRight`, with a right rotation |
| `Fixup.FixupDone` | src/rbtree.c:100-102 | when the guard fails, painting the root BLACK leaves a tree with a BLACK root, no RED node with a RED child and equal black height on every path |
| `Fixup.FreshRedLeaf` | src/rbtree.c:65-66 | a RED node with sentinel children, put in place of a leaf of a red-black tree, satisfies the loop's entry condition |
| `Rbtree.RbTree.FixupParentRight` | src/rbtree.c:67-82 | one pass of the branch where z's parent is a right child. If the uncle (the grandparent's left child) is RED, the new tree is the three colour writes and z becomes the grandparent (`Recolored`). Otherwise it is the optional right rotation at the parent, the two colour writes and the left rotation at the grandparent, and z is the old parent for an inner z and unchanged otherwise (`RotatedRight`). The invariant, the in-order keys, the node set and every slot's key are kept, and z's depth strictly drops |
| `Rbtree.RbTree.FixupParentLeft` | src/rbtree.c:83-99 | the mirror branch, where z's parent is a left child: the uncle is the grandparent's right child, and the BLACK-uncle case is `RotatedLeft` (optional left rotation at the parent, right rotation at the grandparent); the same invariant, key and depth facts |
| `Rbtree.RbTree.Recolor` | src/rbtree.c:69-73 | the RED-uncle case, the same on both sides (also src/rbtree.c:85-89): the new tree is the old one with parent and uncle painted BLACK and the grandparent RED, the root is unchanged (`Recolored`), and the invariant holds for z := grandparent at a smaller depth, with the same in-order keys, node set and per-slot keys |
| `Rbtree.RbTree.RotateCaseRight` | src/rbtree.c:74-81 | the BLACK-uncle case with a right-child parent: the new tree is the old one after a right rotation at the parent when z is a left child (z then becomes the old parent), the parent of z painted BLACK and the grandparent RED, and a left rotation at the grandparent (`RotatedRight`). The invariant holds at a smaller depth and z's parent is BLACK, so the loop ends; in-order keys, node set and per-slot keys are kept |
| `Rbtree.RbTree.RotateCaseLeft` | src/rbtree.c:90-97 | the mirror of `RotateCaseRight` (`RotatedLeft`): a left rotation at the parent when z is a right child, the two colour writes, and a right rotation at the grandparent |
| `Rbtree.RbTree.InsertFixup` | src/rbtree.c:65-103 | from a tree that is red-black except that the RED node z may have a RED parent, the loop ends. The tree is then red-black over the same nodes, with the same in-order key sequence, and the returned root is the real root. Every slot keeps its key, so z still holds the key it was given, and a binary search tree stays one |
| `Rbtree.RbTree.Insert` | src/rbtree.c:105-108 | the stub returns the current root and changes nothing |
| `Rbtree.RbTree.Find` | src/rbtree.c:115-118 | the stub returns the current root |
| `Rbtree.RbTree.Min` | src/rbtree.c:120-123 | the stub returns the current root |
| `Rbtree.RbTree.Max` | src/rbtree.c:125-128 | the stub returns the current root |
| `Rbtree.RbTree.Erase` | src/rbtree.c:130-133 | the stub removes nothing and returns 0 |
| `Rbtree.RbTree.ToArray` | src/rbtree.c:135-138 | the stub writes nothing and returns 0 |

## Left out

- `delete_rbtree` (src/rbtree.c:110-113) only frees the tree record and leaks every node. Memory release has no counterpart in Dafny, so it is not modelled.
- `calloc` and its unchecked failure (src/rbtree.c:8-9): a fresh tree is a one-slot arena. The sentinel's parent and child pointers, which `calloc` leaves NULL, are modelled as `Nil`. The modelled code never follows them.
- `rbtree.h` is not part of this model. `key_t` is modelled as an unbounded `int`, and the colour is the two-value datatype `Color`, not its numeric encoding.
- Pointers are arena indices, and pointer identity is index identity. Nodes that are allocated but not in the tree are not modelled.
- The stubs are modelled only by what they return. The insertion descent, search, minimum, maximum, erase and in-order export that they leave undone are not modelled.
- The unused `stdio.h` include: there is no I/O.
- Rbtree.RbTree.InsertFixup: requires the CLRS entry condition (a red-black tree except for the fresh RED z). On other inputs the C loop may dereference the sentinel's NULL links, and that behaviour is not modelled.
- Rbtree.RbTree.LeftRotate and Rbtree.RbTree.RightRotate: require the rotated node to be a node of the tree. A detached node is outside the model.
