/** The C memory layout: every `node_t` is a slot of an arena indexed by `Ref`,
    slot 0 being the shared sentinel `t->nil`. A record holds the key, the
    colour and the three links. `Encodes` ties an arena to the abstract tree it
    holds, and the lemmas here say how the writes of `left_rotate`,
    `right_rotate` and of a colour assignment move the arena from one encoded
    tree to the next. */
module Arena {
  import opened Trees
  import opened Zippers
  import opened Rotations

  /** One `node_t`: key, colour, and the arena indices of parent and children. */
  datatype NodeRec = NodeRec(key: int, color: Color, parent: Ref, left: Ref, right: Ref)

  /** `nodes` holds the subtree `t` whose root's parent is `up`: each node of
      `t` is a real slot whose record carries its key, its colour, its parent
      and its children, a missing child being the sentinel. */
  predicate Encodes(nodes: seq<NodeRec>, t: Tree, up: Ref) {
    match t
    case Leaf => true
    case Node(l, i, k, c, r) =>
      && 0 < i < |nodes|
      && nodes[i] == NodeRec(k, c, up, Id(l), Id(r))
      && Encodes(nodes, l, i) && Encodes(nodes, r, i)
  }

  /** The parent of whatever hangs at the end of path `a` below `up`. */
  function Above(a: seq<Frame>, up: Ref): Ref {
    if a == [] then up else a[|a| - 1].id
  }

  /** The record of the node of frame `f`, with parent `up` and `child` on the path side. */
  function FrameRec(f: Frame, up: Ref, child: Ref): NodeRec {
    if f.dir == Left then NodeRec(f.key, f.color, up, child, Id(f.sibling))
    else NodeRec(f.key, f.color, up, Id(f.sibling), child)
  }

  /** `n` with its child link on side `d` redirected to `child`. */
  function Relink(n: NodeRec, d: Dir, child: Ref): NodeRec {
    if d == Left then n.(left := child) else n.(right := child)
  }

  /** An encoding depends only on the slots of the subtree's own nodes. */
  lemma {:induction false} EncodesFrame(nodes: seq<NodeRec>, nodes': seq<NodeRec>, t: Tree, up: Ref)
    requires Encodes(nodes, t, up)
    requires forall i :: i in Ids(t) ==> i < |nodes| && i < |nodes'| && nodes'[i] == nodes[i]
    ensures Encodes(nodes', t, up)
  {
    match t
    case Leaf =>
    case Node(l, i, _, _, r) =>
      EncodesFrame(nodes, nodes', l, i);
      EncodesFrame(nodes, nodes', r, i);
  }

  lemma {:induction false} EncodesBounds(nodes: seq<NodeRec>, t: Tree, up: Ref)
    requires Encodes(nodes, t, up)
    ensures forall i :: i in Ids(t) ==> 0 < i < |nodes|
  {
    match t
    case Leaf =>
    case Node(l, i, _, _, r) =>
      EncodesBounds(nodes, l, i);
      EncodesBounds(nodes, r, i);
  }

  /** Re-pointing the parent link of a subtree's root re-hangs the subtree. */
  lemma EncodesReparent(nodes: seq<NodeRec>, nodes': seq<NodeRec>, t: Tree, up: Ref, up': Ref)
    requires Distinct(t) && Encodes(nodes, t, up)
    requires t.Node? ==> t.id < |nodes'| && nodes'[t.id] == nodes[t.id].(parent := up')
    requires forall i :: i in Ids(t) && i != Id(t) ==> i < |nodes| && i < |nodes'| && nodes'[i] == nodes[i]
    ensures Encodes(nodes', t, up')
  {
    if t.Node? {
      EncodesFrame(nodes, nodes', t.left, t.id);
      EncodesFrame(nodes, nodes', t.right, t.id);
    }
  }

  lemma {:induction false} AboveIn(a: seq<Frame>, up: Ref)
    requires a != []
    ensures Above(a, up) in Ids(Plug(a, Leaf))
    decreases |a|
  {
    if |a| > 1 {
      AboveIn(a[1..], a[0].id);
    }
  }

  /** An arena holding a tree holds every subtree, below its parent, and the
      parent's record links to it. */
  lemma {:induction false} EncodesSub(nodes: seq<NodeRec>, a: seq<Frame>, s: Tree, up: Ref)
    requires Encodes(nodes, Plug(a, s), up)
    ensures Encodes(nodes, s, Above(a, up))
    ensures a != [] ==> 0 < Above(a, up) < |nodes|
    ensures a != [] ==> nodes[Above(a, up)] == FrameRec(a[|a| - 1], Above(a[..|a| - 1], up), Id(s))
    decreases |a|
  {
    if a != [] {
      EncodesSub(nodes, a[1..], s, a[0].id);
      if |a| > 1 {
        assert a[1..][..|a[1..]| - 1] == a[1..|a| - 1];
        assert a[..|a| - 1][1..] == a[1..|a| - 1];
        assert a[..|a| - 1] != [] && a[..|a| - 1][|a| - 2] == a[|a| - 2];
        AboveTail(a[..|a| - 1], up);
      }
    }
  }

  lemma AboveTail(a: seq<Frame>, up: Ref)
    requires a != []
    ensures Above(a[1..], a[0].id) == Above(a, up)
  {
  }

  /** The top frame of a path is untouched by a replacement below it: its
      sibling stays encoded, and the rest of the path keeps its slots. */
  lemma TopFrameKept(nodes: seq<NodeRec>, nodes': seq<NodeRec>, a: seq<Frame>, s: Tree, up: Ref)
    requires a != [] && Distinct(Plug(a, s)) && Encodes(nodes, Plug(a, s), up)
    requires forall i :: i in Ids(Plug(a, Leaf)) && i != Above(a, up) ==> i < |nodes| && i < |nodes'| && nodes'[i] == nodes[i]
    ensures Encodes(nodes', a[0].sibling, a[0].id)
    ensures forall i :: i in Ids(Plug(a[1..], Leaf)) && i != Above(a[1..], a[0].id) ==> i < |nodes| && i < |nodes'| && nodes'[i] == nodes[i]
    ensures |a| > 1 ==> a[0].id != Above(a, up) && a[0].id < |nodes| && a[0].id < |nodes'| && nodes'[a[0].id] == nodes[a[0].id]
  {
    var f := a[0];
    AboveIn(a, up);
    AboveTail(a, up);
    PlugDistinct(a, s);
    PlugIds(a, s);
    assert Plug(a, Leaf) == Attach(f, Plug(a[1..], Leaf));
    AttachIds(f, Plug(a[1..], Leaf));
    if |a| > 1 {
      AboveIn(a[1..], f.id);
    }
    assert Above(a, up) !in Ids(f.sibling);
    EncodesFrame(nodes, nodes', f.sibling, f.id);
  }

  /** Replacing the subtree at the end of a path: when the new arena holds the
      new subtree below the same parent, keeps every other slot of the path and
      of its siblings, and redirects the parent's link, it holds the new tree. */
  lemma {:induction false} EncodesReplace(nodes: seq<NodeRec>, nodes': seq<NodeRec>, a: seq<Frame>, s: Tree, s': Tree, up: Ref)
    requires Distinct(Plug(a, s)) && Encodes(nodes, Plug(a, s), up)
    requires Encodes(nodes', s', Above(a, up))
    requires forall i :: i in Ids(Plug(a, Leaf)) && i != Above(a, up) ==> i < |nodes| && i < |nodes'| && nodes'[i] == nodes[i]
    requires a != [] ==> Above(a, up) < |nodes| && Above(a, up) < |nodes'|
    requires a != [] ==> nodes'[Above(a, up)] == Relink(nodes[Above(a, up)], a[|a| - 1].dir, Id(s'))
    ensures Encodes(nodes', Plug(a, s'), up)
    decreases |a|
  {
    if a != [] {
      var f := a[0];
      TopFrameKept(nodes, nodes', a, s, up);
      AboveTail(a, up);
      assert Plug(a, s) == Attach(f, Plug(a[1..], s));
      if |a| == 1 {
        assert a[1..] == [];
      } else {
        EncodesReplace(nodes, nodes', a[1..], s, s', f.id);
        assert Id(Plug(a[1..], s')) == a[1].id == Id(Plug(a[1..], s));
      }
    }
  }

  /** The record of a node of an encoded tree holds exactly what the abstract
      tree says about that node. */
  lemma ArenaView(nodes: seq<NodeRec>, t: Tree, x: Ref)
    requires Encodes(nodes, t, Nil) && Distinct(t) && x in Ids(t)
    ensures 0 < x < |nodes|
    ensures nodes[x] == NodeRec(KeyAt(t, x), ColorAt(t, x), ParentOf(t, x), LeftOf(t, x), RightOf(t, x))
  {
    var z := Focus(t, x);
    EncodesSub(nodes, z.path, z.sub, Nil);
  }

  /** The writes of `left_rotate(t, x)`, with `y` the right child of `x`, `b`
      the left child of `y` and `xp` the parent of `x`: `x` takes `b` as right
      child and `y` as parent; `y` takes `x` as left child and `xp` as parent;
      `b` (unless it is the sentinel) takes `x` as parent; `xp` (unless it is
      the sentinel) links `y` where it linked `x`; no other slot changes. */
  predicate LeftRotated(nodes: seq<NodeRec>, nodes': seq<NodeRec>, x: Ref, y: Ref, b: Ref, xp: Ref) {
    && |nodes'| == |nodes| && x < |nodes| && y < |nodes| && b < |nodes| && xp < |nodes|
    && nodes'[x] == nodes[x].(right := b, parent := y)
    && nodes'[y] == nodes[y].(left := x, parent := xp)
    && (b != Nil ==> nodes'[b] == nodes[b].(parent := x))
    && (xp != Nil ==> nodes'[xp] == if nodes[xp].left == x then nodes[xp].(left := y) else nodes[xp].(right := y))
    && forall i :: 0 <= i < |nodes| && i != x && i != y && (i == Nil || (i != b && i != xp)) ==> nodes'[i] == nodes[i]
  }

  /** The writes of `right_rotate(t, y)`, the mirror image, with `x` the left
      child of `y`, `b` the right child of `x` and `yp` the parent of `y`. */
  predicate RightRotated(nodes: seq<NodeRec>, nodes': seq<NodeRec>, y: Ref, x: Ref, b: Ref, yp: Ref) {
    && |nodes'| == |nodes| && x < |nodes| && y < |nodes| && b < |nodes| && yp < |nodes|
    && nodes'[y] == nodes[y].(left := b, parent := x)
    && nodes'[x] == nodes[x].(right := y, parent := yp)
    && (b != Nil ==> nodes'[b] == nodes[b].(parent := y))
    && (yp != Nil ==> nodes'[yp] == if nodes[yp].left == y then nodes[yp].(left := x) else nodes[yp].(right := x))
    && forall i :: 0 <= i < |nodes| && i != x && i != y && (i == Nil || (i != b && i != yp)) ==> nodes'[i] == nodes[i]
  }

  /** The nodes a left rotation at `x` touches are distinct nodes of the tree. */
  lemma LeftRotateShape(t: Tree, x: Ref)
    requires Distinct(t) && x in Ids(t) && RightOf(t, x) != Nil
    ensures var y, b, xp := RightOf(t, x), LeftOf(t, RightOf(t, x)), ParentOf(t, x);
      && y in Ids(t) && y != x && x != Nil
      && (b != Nil ==> b in Ids(t) && b != x && b != y)
      && (xp != Nil ==> xp in Ids(t) && xp != x && xp != y && xp != b)
      && Focus(t, x).sub.right.Node? && y == Focus(t, x).sub.right.id && b == Id(Focus(t, x).sub.right.left)
  {
    var z := Focus(t, x);
    var X := z.sub;
    var y := X.right.id;
    PlugDistinct(z.path, X);
    PlugIds(z.path, X);
    NilNotInIds(t);
    FocusPlug(z.path, X, y);
    assert Focus(X, y) == Zipper([Frame(Right, x, X.key, X.color, X.left)], X.right);
    assert X.right.left.Node? ==> X.right.left.id in Ids(X.right.left);
    if z.path != [] {
      AboveIn(z.path, Nil);
    }
  }

  /** The nodes a right rotation at `y` touches are distinct nodes of the tree. */
  lemma RightRotateShape(t: Tree, y: Ref)
    requires Distinct(t) && y in Ids(t) && LeftOf(t, y) != Nil
    ensures var x, b, yp := LeftOf(t, y), RightOf(t, LeftOf(t, y)), ParentOf(t, y);
      && x in Ids(t) && x != y && y != Nil
      && (b != Nil ==> b in Ids(t) && b != x && b != y)
      && (yp != Nil ==> yp in Ids(t) && yp != x && yp != y && yp != b)
      && Focus(t, y).sub.left.Node? && x == Focus(t, y).sub.left.id && b == Id(Focus(t, y).sub.left.right)
  {
    var z := Focus(t, y);
    var Y := z.sub;
    var x := Y.left.id;
    PlugDistinct(z.path, Y);
    PlugIds(z.path, Y);
    NilNotInIds(t);
    FocusPlug(z.path, Y, x);
    assert Focus(Y, x) == Zipper([Frame(Left, y, Y.key, Y.color, Y.right)], Y.left);
    assert Y.left.right.Node? ==> Y.left.right.id in Ids(Y.left.right);
    if z.path != [] {
      AboveIn(z.path, Nil);
    }
  }

  /** In the rotated subtree itself, the writes of `left_rotate` encode the
      rotated subtree below the same parent. */
  lemma LeftRotatedSub(nodes: seq<NodeRec>, nodes': seq<NodeRec>, X: Tree, xp: Ref)
    requires Distinct(X) && X.Node? && X.right.Node? && Encodes(nodes, X, xp) && xp !in Ids(X)
    requires LeftRotated(nodes, nodes', X.id, X.right.id, Id(X.right.left), xp)
    ensures Encodes(nodes', RotateLeft(X), xp)
  {
    var Y := X.right;
    var x, y, b := X.id, Y.id, Id(Y.left);
    EncodesBounds(nodes, X, xp);
    NilNotInIds(X);
    assert b != Nil ==> b in Ids(Y.left);
    EncodesFrame(nodes, nodes', X.left, x);
    EncodesReparent(nodes, nodes', Y.left, y, x);
    EncodesFrame(nodes, nodes', Y.right, y);
    assert Encodes(nodes', RotateLeft(X).left, y);
  }

  /** In the rotated subtree itself, the writes of `right_rotate` encode the
      rotated subtree below the same parent. */
  lemma RightRotatedSub(nodes: seq<NodeRec>, nodes': seq<NodeRec>, Y: Tree, yp: Ref)
    requires Distinct(Y) && Y.Node? && Y.left.Node? && Encodes(nodes, Y, yp) && yp !in Ids(Y)
    requires RightRotated(nodes, nodes', Y.id, Y.left.id, Id(Y.left.right), yp)
    ensures Encodes(nodes', RotateRight(Y), yp)
  {
    var X := Y.left;
    var x, y, b := X.id, Y.id, Id(X.right);
    EncodesBounds(nodes, Y, yp);
    NilNotInIds(Y);
    assert b != Nil ==> b in Ids(X.right);
    EncodesFrame(nodes, nodes', Y.right, y);
    EncodesReparent(nodes, nodes', X.right, x, y);
    EncodesFrame(nodes, nodes', X.left, x);
    assert Encodes(nodes', RotateRight(Y).right, x);
  }

  /** The parent's left link designates the subtree exactly when the subtree
      hangs on the left. */
  lemma ParentLink(nodes: seq<NodeRec>, a: seq<Frame>, s: Tree, up: Ref)
    requires a != [] && Distinct(Plug(a, s)) && Encodes(nodes, Plug(a, s), up) && s.Node?
    ensures 0 < Above(a, up) < |nodes|
    ensures nodes[Above(a, up)].left == s.id <==> a[|a| - 1].dir == Left
  {
    var f := a[|a| - 1];
    EncodesSub(nodes, a, s, up);
    PlugDistinct(a, s);
    PlugIds(a, Leaf);
    LastFrameSibling(a, Leaf);
    PlugIds(a, s);
    assert f.sibling.Node? ==> f.sibling.id in Ids(f.sibling);
  }

  /** After the writes of `left_rotate`, the arena holds the tree rotated
      left at `x`; its root is `y` when `x` was the root. */
  lemma LeftRotateEncodes(nodes: seq<NodeRec>, nodes': seq<NodeRec>, t: Tree, x: Ref)
    requires Encodes(nodes, t, Nil) && Distinct(t) && x in Ids(t) && RightOf(t, x) != Nil
    requires LeftRotated(nodes, nodes', x, RightOf(t, x), LeftOf(t, RightOf(t, x)), ParentOf(t, x))
    ensures Encodes(nodes', RotateLeftAt(t, x), Nil)
    ensures Id(RotateLeftAt(t, x)) == if ParentOf(t, x) == Nil then RightOf(t, x) else Id(t)
  {
    LeftRotateShape(t, x);
    EncodesBounds(nodes, t, Nil);
    var z := Focus(t, x);
    var a, X := z.path, z.sub;
    PlugDistinct(a, X);
    PlugIds(a, X);
    NilNotInIds(t);
    EncodesSub(nodes, a, X, Nil);
    assert Above(a, Nil) == ParentOf(t, x);
    if a != [] {
      AboveIn(a, Nil);
      ParentLink(nodes, a, X, Nil);
    }
    LeftRotatedSub(nodes, nodes', X, ParentOf(t, x));
    EncodesReplace(nodes, nodes', a, X, RotateLeft(X), Nil);
  }

  /** After the writes of `right_rotate`, the arena holds the tree rotated
      right at `y`; its root is `x` when `y` was the root. */
  lemma RightRotateEncodes(nodes: seq<NodeRec>, nodes': seq<NodeRec>, t: Tree, y: Ref)
    requires Encodes(nodes, t, Nil) && Distinct(t) && y in Ids(t) && LeftOf(t, y) != Nil
    requires RightRotated(nodes, nodes', y, LeftOf(t, y), RightOf(t, LeftOf(t, y)), ParentOf(t, y))
    ensures Encodes(nodes', RotateRightAt(t, y), Nil)
    ensures Id(RotateRightAt(t, y)) == if ParentOf(t, y) == Nil then LeftOf(t, y) else Id(t)
  {
    RightRotateShape(t, y);
    EncodesBounds(nodes, t, Nil);
    var z := Focus(t, y);
    var a, Y := z.path, z.sub;
    PlugDistinct(a, Y);
    PlugIds(a, Y);
    NilNotInIds(t);
    EncodesSub(nodes, a, Y, Nil);
    assert Above(a, Nil) == ParentOf(t, y);
    if a != [] {
      AboveIn(a, Nil);
      ParentLink(nodes, a, Y, Nil);
    }
    RightRotatedSub(nodes, nodes', Y, ParentOf(t, y));
    EncodesReplace(nodes, nodes', a, Y, RotateRight(Y), Nil);
  }

  /** The sibling of the last frame of a path is part of the path's tree. */
  lemma {:induction false} LastFrameSibling(a: seq<Frame>, s: Tree)
    requires a != []
    ensures Ids(a[|a| - 1].sibling) <= Ids(Plug(a, s))
    decreases |a|
  {
    if |a| > 1 {
      LastFrameSibling(a[1..], s);
    }
  }

  /** Writing colour `c` into the slot of `x` makes the arena hold the tree
      with `x` painted `c`. */
  lemma PaintEncodes(nodes: seq<NodeRec>, t: Tree, x: Ref, c: Color)
    requires Encodes(nodes, t, Nil) && Distinct(t) && x in Ids(t)
    ensures 0 < x < |nodes|
    ensures Encodes(nodes[x := nodes[x].(color := c)], PaintAt(t, x, c), Nil)
    ensures Id(PaintAt(t, x, c)) == Id(t)
  {
    ArenaView(nodes, t, x);
    EncodesBounds(nodes, t, Nil);
    var nodes' := nodes[x := nodes[x].(color := c)];
    var z := Focus(t, x);
    var a, X := z.path, z.sub;
    PlugDistinct(a, X);
    PlugIds(a, X);
    EncodesSub(nodes, a, X, Nil);
    EncodesFrame(nodes, nodes', X.left, x);
    EncodesFrame(nodes, nodes', X.right, x);
    assert Encodes(nodes', X.(color := c), Above(a, Nil));
    if a != [] {
      AboveIn(a, Nil);
    }
    EncodesReplace(nodes, nodes', a, X, X.(color := c), Nil);
  }
  /** The colour stored in a slot that is the sentinel or a node of the tree
      is the colour the abstract tree gives it. */
  lemma ColorView(nodes: seq<NodeRec>, t: Tree, y: Ref)
    requires Encodes(nodes, t, Nil) && Distinct(t) && |nodes| > 0 && nodes[Nil].color == Black
    requires y == Nil || y in Ids(t)
    ensures y < |nodes| && nodes[y].color == ColorAt(t, y)
  {
    NilNotInIds(t);
    if y != Nil {
      ArenaView(nodes, t, y);
    }
  }

  /** What the loop guard of the fixup reads: the colour of z's parent. */
  lemma ParentColorView(nodes: seq<NodeRec>, t: Tree, z: Ref)
    requires Encodes(nodes, t, Nil) && Distinct(t) && |nodes| > 0 && nodes[Nil].color == Black
    requires z in Ids(t)
    ensures z < |nodes| && nodes[z].parent == ParentOf(t, z) < |nodes|
    ensures nodes[nodes[z].parent].color == ColorAt(t, ParentOf(t, z))
  {
    ArenaView(nodes, t, z);
    LinksInside(t, z);
    ColorView(nodes, t, ParentOf(t, z));
  }
  /** The slots `left_rotate(t, x)` reads, in C terms: `y = x->right`,
      `y->left` and `x->parent` are distinct slots of the arena, and they are
      what the abstract tree says. */
  lemma LeftRotateSlots(nodes: seq<NodeRec>, t: Tree, x: Ref)
    requires Encodes(nodes, t, Nil) && Distinct(t) && x in Ids(t) && RightOf(t, x) != Nil
    ensures 0 < x < |nodes| && 0 < nodes[x].right < |nodes| && nodes[x].parent < |nodes|
    ensures nodes[nodes[x].right].left < |nodes|
    ensures var y, b, xp := nodes[x].right, nodes[nodes[x].right].left, nodes[x].parent;
      && y == RightOf(t, x) && b == LeftOf(t, y) && xp == ParentOf(t, x)
      && y != x && (b != Nil ==> b != x && b != y) && (xp != Nil ==> xp != x && xp != y && xp != b)
  {
    LeftRotateShape(t, x);
    ArenaView(nodes, t, x);
    ArenaView(nodes, t, RightOf(t, x));
    if LeftOf(t, RightOf(t, x)) != Nil {
      ArenaView(nodes, t, LeftOf(t, RightOf(t, x)));
    }
    if ParentOf(t, x) != Nil {
      ArenaView(nodes, t, ParentOf(t, x));
    }
  }

  /** The slots `right_rotate(t, y)` reads, in C terms. */
  lemma RightRotateSlots(nodes: seq<NodeRec>, t: Tree, y: Ref)
    requires Encodes(nodes, t, Nil) && Distinct(t) && y in Ids(t) && LeftOf(t, y) != Nil
    ensures 0 < y < |nodes| && 0 < nodes[y].left < |nodes| && nodes[y].parent < |nodes|
    ensures nodes[nodes[y].left].right < |nodes|
    ensures var x, b, yp := nodes[y].left, nodes[nodes[y].left].right, nodes[y].parent;
      && x == LeftOf(t, y) && b == RightOf(t, x) && yp == ParentOf(t, y)
      && x != y && (b != Nil ==> b != x && b != y) && (yp != Nil ==> yp != x && yp != y && yp != b)
  {
    RightRotateShape(t, y);
    ArenaView(nodes, t, y);
    ArenaView(nodes, t, LeftOf(t, y));
    if RightOf(t, LeftOf(t, y)) != Nil {
      ArenaView(nodes, t, RightOf(t, LeftOf(t, y)));
    }
    if ParentOf(t, y) != Nil {
      ArenaView(nodes, t, ParentOf(t, y));
    }
  }
  /** Rotations write links only: no slot changes its key or its colour. */
  lemma RotationsKeepKeysAndColors(nodes: seq<NodeRec>, nodes': seq<NodeRec>, x: Ref, y: Ref, b: Ref, p: Ref)
    requires LeftRotated(nodes, nodes', x, y, b, p) || RightRotated(nodes, nodes', x, y, b, p)
    ensures |nodes'| == |nodes|
    ensures forall i :: 0 <= i < |nodes| ==> nodes'[i].key == nodes[i].key && nodes'[i].color == nodes[i].color
  {
    forall i | 0 <= i < |nodes|
      ensures nodes'[i].key == nodes[i].key && nodes'[i].color == nodes[i].color
    {
      if i != x && i != y && i != b && i != p {
        assert nodes'[i] == nodes[i];
      }
    }
  }

  /** Every slot keeps its key: only colours and links were written. */
  predicate KeysKept(nodes: seq<NodeRec>, nodes': seq<NodeRec>) {
    |nodes'| == |nodes| && forall i :: 0 <= i < |nodes| ==> nodes'[i].key == nodes[i].key
  }

  lemma KeysKeptTrans(n0: seq<NodeRec>, n1: seq<NodeRec>, n2: seq<NodeRec>)
    requires KeysKept(n0, n1) && KeysKept(n1, n2)
    ensures KeysKept(n0, n2)
  {
  }
}
