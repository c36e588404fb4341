/** The `rbtree` object of `src/rbtree.c`: its arena of `node_t` records with
    the shared sentinel, its root link, and the operations that change them in
    place. A ghost field `T` holds the abstract tree the arena encodes; every
    operation states its effect both on the records and on `T`. */
module Rbtree {
  import opened Trees
  import opened Zippers
  import opened Rotations
  import opened Fixup
  import opened Arena

  class RbTree {
    /** Slot `Nil` is `t->nil`; every other slot is a `node_t`. */
    var nodes: seq<NodeRec>
    /** `t->root`. */
    var root: Ref
    ghost var T: Tree

    /** The arena holds `T` below the sentinel, the sentinel is BLACK and the
        root link designates the root of `T`. */
    ghost predicate Valid()
      reads this
    {
      && |nodes| > 0 && nodes[Nil].color == Black
      && Encodes(nodes, T, Nil) && Distinct(T)
      && root == Id(T)
    }

    /** `new_rbtree`: a fresh sentinel, BLACK with key 0 and no links, is both
        `t->nil` and `t->root`; the tree is empty. */
    constructor ()
      ensures Valid() && T == Leaf && IsRedBlack(T)
      ensures nodes == [NodeRec(0, Black, Nil, Nil, Nil)] && root == Nil
    {
      nodes := [NodeRec(0, Black, Nil, Nil, Nil)];
      root := Nil;
      T := Leaf;
    }

    /** `left_rotate(t, x)`: x's right child y takes x's place under x's
        parent (or as the root), y's left subtree becomes x's right subtree,
        and x becomes y's left child. */
    method LeftRotate(x: Ref)
      requires Valid() && x in Ids(T) && RightOf(T, x) != Nil
      modifies this
      ensures Valid()
      ensures T == RotateLeftAt(old(T), x)
      ensures LeftRotated(old(nodes), nodes, x, RightOf(old(T), x), LeftOf(old(T), RightOf(old(T), x)), ParentOf(old(T), x))
      ensures root == if ParentOf(old(T), x) == Nil then RightOf(old(T), x) else old(root)
      ensures KeysKept(old(nodes), nodes)
    {
      LeftRotateSlots(nodes, T, x);
      var y := nodes[x].right;
      var b := nodes[y].left;
      var xp := nodes[x].parent;
      nodes := nodes[x := nodes[x].(right := b)];
      if b != Nil {
        nodes := nodes[b := nodes[b].(parent := x)];
      }
      nodes := nodes[y := nodes[y].(parent := xp)];
      if xp == Nil {
        root := y;
      } else if x == nodes[xp].left {
        nodes := nodes[xp := nodes[xp].(left := y)];
      } else {
        nodes := nodes[xp := nodes[xp].(right := y)];
      }
      nodes := nodes[y := nodes[y].(left := x)];
      nodes := nodes[x := nodes[x].(parent := y)];
      assert LeftRotated(old(nodes), nodes, x, y, b, xp);
      LeftRotateEncodes(old(nodes), nodes, T, x);
      RotationsKeepKeysAndColors(old(nodes), nodes, x, y, b, xp);
      T := RotateLeftAt(T, x);
    }

    /** `right_rotate(t, y)`, the mirror image: y's left child x takes y's
        place, x's right subtree becomes y's left subtree, and y becomes x's
        right child. */
    method RightRotate(y: Ref)
      requires Valid() && y in Ids(T) && LeftOf(T, y) != Nil
      modifies this
      ensures Valid()
      ensures T == RotateRightAt(old(T), y)
      ensures RightRotated(old(nodes), nodes, y, LeftOf(old(T), y), RightOf(old(T), LeftOf(old(T), y)), ParentOf(old(T), y))
      ensures root == if ParentOf(old(T), y) == Nil then LeftOf(old(T), y) else old(root)
      ensures KeysKept(old(nodes), nodes)
    {
      RightRotateSlots(nodes, T, y);
      var x := nodes[y].left;
      var b := nodes[x].right;
      var yp := nodes[y].parent;
      nodes := nodes[y := nodes[y].(left := b)];
      if b != Nil {
        nodes := nodes[b := nodes[b].(parent := y)];
      }
      nodes := nodes[x := nodes[x].(parent := yp)];
      if yp == Nil {
        root := x;
      } else if y == nodes[yp].left {
        nodes := nodes[yp := nodes[yp].(left := x)];
      } else {
        nodes := nodes[yp := nodes[yp].(right := x)];
      }
      nodes := nodes[x := nodes[x].(right := y)];
      nodes := nodes[y := nodes[y].(parent := x)];
      assert RightRotated(old(nodes), nodes, y, x, b, yp);
      RightRotateEncodes(old(nodes), nodes, T, y);
      RotationsKeepKeysAndColors(old(nodes), nodes, y, x, b, yp);
      T := RotateRightAt(T, y);
    }

    /** The assignment `x->color = c` on a node of the tree. */
    method Paint(x: Ref, c: Color)
      requires Valid() && x in Ids(T)
      modifies this
      ensures Valid()
      ensures T == PaintAt(old(T), x, c)
      ensures x < |old(nodes)| && nodes == old(nodes)[x := old(nodes)[x].(color := c)]
      ensures root == old(root) && KeysKept(old(nodes), nodes)
    {
      PaintEncodes(nodes, T, x, c);
      nodes := nodes[x := nodes[x].(color := c)];
      T := PaintAt(T, x, c);
    }

    /** `rbtree_insert_fixup(t, z)`: starting from a tree that is red-black
        except that the RED node z may have a RED parent (as after attaching
        z in place of a leaf), it restores the red-black invariants, keeping
        the nodes and their in-order key sequence, and returns the root. */
    method InsertFixup(z0: Ref) returns (r: Ref)
      requires Valid() && FixupInvariant(T, z0)
      modifies this
      ensures Valid() && IsRedBlack(T)
      ensures Keys(T) == old(Keys(T)) && Ids(T) == old(Ids(T))
      ensures r == root == Id(T) != Nil
      ensures KeysKept(old(nodes), nodes)
      ensures SearchTree(old(T)) ==> SearchTree(T)
    {
      var z: Ref := z0;
      ParentColorView(nodes, T, z);
      while nodes[nodes[z].parent].color == Red
        invariant Valid() && FixupInvariant(T, z)
        invariant Keys(T) == old(Keys(T)) && Ids(T) == old(Ids(T))
        invariant z < |nodes| && nodes[z].parent == ParentOf(T, z) < |nodes|
        invariant nodes[nodes[z].parent].color == ColorAt(T, ParentOf(T, z))
        invariant KeysKept(old(nodes), nodes)
        decreases Depth(T, z)
      {
        ghost var depth := Depth(T, z);
        ghost var n := nodes;
        Grandparent(T, z);
        var p := nodes[z].parent;
        ArenaView(nodes, T, p);
        var g := nodes[p].parent;
        ArenaView(nodes, T, g);
        if p == nodes[g].right {
          z := FixupParentRight(z);
        } else {
          z := FixupParentLeft(z);
        }
        KeysKeptTrans(old(nodes), n, nodes);
        ParentColorView(nodes, T, z);
        assert Depth(T, z) < depth;
      }
      FixupDone(T, z);
      ghost var n := nodes;
      Paint(root, Black);
      KeysKeptTrans(old(nodes), n, nodes);
      SearchTreeIffIncreasing(old(T));
      SearchTreeIffIncreasing(T);
      r := root;
    }

    /** One pass of the fixup loop when z's parent is the right child of the
        grandparent: the uncle is the grandparent's left child. */
    method FixupParentRight(z0: Ref) returns (z: Ref)
      requires Valid() && FixupInvariant(T, z0) && ColorAt(T, ParentOf(T, z0)) == Red
      requires ParentOf(T, z0) == RightOf(T, ParentOf(T, ParentOf(T, z0)))
      modifies this
      ensures Valid() && FixupInvariant(T, z) && Depth(T, z) < old(Depth(T, z0))
      ensures if ColorAt(old(T), Uncle(old(T), z0)) == Red
        then Recolored(old(T), z0, T, z) else RotatedRight(old(T), z0, T, z)
      ensures Keys(T) == old(Keys(T)) && Ids(T) == old(Ids(T))
      ensures KeysKept(old(nodes), nodes)
    {
      z := z0;
      Grandparent(T, z);
      ArenaView(nodes, T, z);
      var p := nodes[z].parent;
      ArenaView(nodes, T, p);
      var g := nodes[p].parent;
      ArenaView(nodes, T, g);
      LinksInside(T, g);
      var y := nodes[g].left;
      ColorView(nodes, T, y);
      if nodes[y].color == Red {
        Recolor(z, p, g, y);
        z := g;
      } else {
        z := RotateCaseRight(z);
      }
    }

    /** One pass of the fixup loop when z's parent is the left child of the
        grandparent: the mirror image, the uncle being the right child. */
    method FixupParentLeft(z0: Ref) returns (z: Ref)
      requires Valid() && FixupInvariant(T, z0) && ColorAt(T, ParentOf(T, z0)) == Red
      requires ParentOf(T, z0) != RightOf(T, ParentOf(T, ParentOf(T, z0)))
      modifies this
      ensures Valid() && FixupInvariant(T, z) && Depth(T, z) < old(Depth(T, z0))
      ensures if ColorAt(old(T), Uncle(old(T), z0)) == Red
        then Recolored(old(T), z0, T, z) else RotatedLeft(old(T), z0, T, z)
      ensures Keys(T) == old(Keys(T)) && Ids(T) == old(Ids(T))
      ensures KeysKept(old(nodes), nodes)
    {
      z := z0;
      Grandparent(T, z);
      ArenaView(nodes, T, z);
      var p := nodes[z].parent;
      ArenaView(nodes, T, p);
      var g := nodes[p].parent;
      ArenaView(nodes, T, g);
      LinksInside(T, g);
      var y := nodes[g].right;
      ColorView(nodes, T, y);
      if nodes[y].color == Red {
        Recolor(z, p, g, y);
        z := g;
      } else {
        z := RotateCaseLeft(z);
      }
    }

    /** The RED-uncle case, the same on both sides: parent and uncle turn
        BLACK, the grandparent RED, and the loop moves up to the grandparent. */
    method Recolor(z: Ref, p: Ref, g: Ref, y: Ref)
      requires Valid() && FixupInvariant(T, z)
      requires p == ParentOf(T, z) && ColorAt(T, p) == Red && g == ParentOf(T, p)
      requires y == (if p == RightOf(T, g) then LeftOf(T, g) else RightOf(T, g))
      requires ColorAt(T, y) == Red
      modifies this
      ensures Valid() && FixupInvariant(T, g) && Depth(T, g) < old(Depth(T, z))
      ensures Recolored(old(T), z, T, g) && root == old(root)
      ensures Keys(T) == old(Keys(T)) && Ids(T) == old(Ids(T))
      ensures KeysKept(old(nodes), nodes)
    {
      RecolorCase(T, z, p, g, y);
      ghost var n0 := nodes;
      Paint(p, Black);
      ghost var n1 := nodes;
      Paint(y, Black);
      KeysKeptTrans(n0, n1, nodes);
      n1 := nodes;
      Paint(g, Red);
      KeysKeptTrans(n0, n1, nodes);
    }

    /** The BLACK-uncle case with z's parent a right child: an inner z is
        first turned into an outer one by rotating right at the parent; then
        parent and grandparent swap colours and the grandparent is rotated
        left, after which z's parent is BLACK. */
    method RotateCaseRight(z0: Ref) returns (z: Ref)
      requires Valid() && FixupInvariant(T, z0) && ColorAt(T, ParentOf(T, z0)) == Red
      requires ParentOf(T, z0) == RightOf(T, ParentOf(T, ParentOf(T, z0)))
      requires ColorAt(T, LeftOf(T, ParentOf(T, ParentOf(T, z0)))) == Black
      modifies this
      ensures Valid() && FixupInvariant(T, z) && Depth(T, z) < old(Depth(T, z0))
      ensures ColorAt(T, ParentOf(T, z)) == Black
      ensures RotatedRight(old(T), z0, T, z)
      ensures Keys(T) == old(Keys(T)) && Ids(T) == old(Ids(T))
      ensures KeysKept(old(nodes), nodes)
    {
      z := z0;
      Grandparent(T, z);
      NilNotInIds(T);
      ArenaView(nodes, T, z);
      var p := nodes[z].parent;
      ArenaView(nodes, T, p);
      ghost var n0 := nodes;
      if z == nodes[p].left {
        InnerCaseRight(T, z, p, ParentOf(T, p));
        z := p;
        RightRotate(z);
      }
      ParentColorView(nodes, T, z);
      var zp := nodes[z].parent;
      ArenaView(nodes, T, zp);
      var zpp := nodes[zp].parent;
      ArenaView(nodes, T, zpp);
      LinksInside(T, zpp);
      ColorView(nodes, T, nodes[zpp].left);
      OuterCaseRight(T, z, zp, zpp);
      ghost var n1 := nodes;
      Paint(zp, Black);
      KeysKeptTrans(n0, n1, nodes);
      n1 := nodes;
      Paint(zpp, Red);
      KeysKeptTrans(n0, n1, nodes);
      n1 := nodes;
      LeftRotate(zpp);
      KeysKeptTrans(n0, n1, nodes);
    }

    /** The BLACK-uncle case with z's parent a left child: the mirror image of
        `RotateCaseRight`. */
    method RotateCaseLeft(z0: Ref) returns (z: Ref)
      requires Valid() && FixupInvariant(T, z0) && ColorAt(T, ParentOf(T, z0)) == Red
      requires ParentOf(T, z0) != RightOf(T, ParentOf(T, ParentOf(T, z0)))
      requires ColorAt(T, RightOf(T, ParentOf(T, ParentOf(T, z0)))) == Black
      modifies this
      ensures Valid() && FixupInvariant(T, z) && Depth(T, z) < old(Depth(T, z0))
      ensures ColorAt(T, ParentOf(T, z)) == Black
      ensures RotatedLeft(old(T), z0, T, z)
      ensures Keys(T) == old(Keys(T)) && Ids(T) == old(Ids(T))
      ensures KeysKept(old(nodes), nodes)
    {
      z := z0;
      Grandparent(T, z);
      NilNotInIds(T);
      ArenaView(nodes, T, z);
      var p := nodes[z].parent;
      ArenaView(nodes, T, p);
      ghost var n0 := nodes;
      if z == nodes[p].right {
        InnerCaseLeft(T, z, p, ParentOf(T, p));
        z := p;
        LeftRotate(z);
      }
      ParentColorView(nodes, T, z);
      var zp := nodes[z].parent;
      ArenaView(nodes, T, zp);
      var zpp := nodes[zp].parent;
      ArenaView(nodes, T, zpp);
      LinksInside(T, zpp);
      ColorView(nodes, T, nodes[zpp].right);
      OuterCaseLeft(T, z, zp, zpp);
      ghost var n1 := nodes;
      Paint(zp, Black);
      KeysKeptTrans(n0, n1, nodes);
      n1 := nodes;
      Paint(zpp, Red);
      KeysKeptTrans(n0, n1, nodes);
      n1 := nodes;
      RightRotate(zpp);
      KeysKeptTrans(n0, n1, nodes);
    }

    /** `rbtree_insert` as the repository has it: a stub that returns the
        root and leaves the tree as it is. */
    method Insert(key: int) returns (r: Ref)
      requires Valid()
      ensures r == Id(T)
    {
      r := root;
    }

    /** `rbtree_find` as the repository has it: a stub returning the root. */
    method Find(key: int) returns (r: Ref)
      requires Valid()
      ensures r == Id(T)
    {
      r := root;
    }

    /** `rbtree_min` as the repository has it: a stub returning the root. */
    method Min() returns (r: Ref)
      requires Valid()
      ensures r == Id(T)
    {
      r := root;
    }

    /** `rbtree_max` as the repository has it: a stub returning the root. */
    method Max() returns (r: Ref)
      requires Valid()
      ensures r == Id(T)
    {
      r := root;
    }

    /** `rbtree_erase` as the repository has it: a stub that removes nothing
        and returns 0. */
    method Erase(p: Ref) returns (r: int)
      requires Valid()
      ensures r == 0
    {
      r := 0;
    }

    /** `rbtree_to_array` as the repository has it: a stub that writes nothing
        into `arr` and returns 0. */
    method ToArray(arr: array<int>, n: nat) returns (r: int)
      requires Valid()
      ensures r == 0
    {
      r := 0;
    }
  }
}
