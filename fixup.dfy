/** The loop of `rbtree_insert_fixup` on the abstract tree: its invariant, the
    effect of each of its cases, and why the red-black invariants hold when it
    stops. The cases are those of CLRS section 13.3: the uncle is RED
    (recolour and climb two levels), z is an inner child (rotate at the parent
    away from z), z is an outer child (recolour and rotate at the grandparent
    toward the uncle). */
module Fixup {
  import opened Trees
  import opened Zippers
  import opened Rotations

  /** The loop invariant: a red-black tree over distinct nodes, except that the
      RED node `z` may have a RED parent, or be a RED root. */
  predicate FixupInvariant(t: Tree, z: Ref) {
    && Distinct(t) && z in Ids(t)
    && ColorAt(t, z) == Red
    && Balanced(t)
    && NoRedRedExcept(t, z)
    && (ColorOf(t) == Black || Id(t) == z)
  }

  /** The uncle of `z`: the other child of its grandparent. */
  function Uncle(t: Tree, z: Ref): Ref {
    var p := ParentOf(t, z);
    var g := ParentOf(t, p);
    if p == RightOf(t, g) then LeftOf(t, g) else RightOf(t, g)
  }

  /** One pass through the RED-uncle case takes `t` to `t'` and `z` to `z'`:
      parent and uncle are painted BLACK, the grandparent RED, and the loop
      continues at the grandparent. */
  ghost predicate Recolored(t: Tree, z: Ref, t': Tree, z': Ref)
    requires Distinct(t)
  {
    var p := ParentOf(t, z);
    var g := ParentOf(t, p);
    var u := Uncle(t, z);
    && p in Ids(t) && g in Ids(t) && u in Ids(t)
    && z' == g
    && t' == PaintAt(PaintAt(PaintAt(t, p, Black), u, Black), g, Red)
  }

  /** One pass through the BLACK-uncle case with z's parent a right child takes
      `t` to `t'` and `z` to `z'`. An inner z (a left child) is first lifted by
      a right rotation at its parent, which becomes the new z. Then z's parent
      is painted BLACK, the grandparent RED, and the grandparent is rotated
      left. */
  ghost predicate RotatedRight(t: Tree, z: Ref, t': Tree, z': Ref)
    requires Distinct(t)
  {
    var p := ParentOf(t, z);
    var g := ParentOf(t, p);
    && p in Ids(t) && g in Ids(t) && z != Nil
    && var inner := z == LeftOf(t, p);
       var t1 := if inner then RotateRightAt(t, p) else t;
       var zp := if inner then z else p;
       && z' == (if inner then p else z)
       && zp in Ids(t1) && g in Ids(t1)
       && RightOf(PaintAt(PaintAt(t1, zp, Black), g, Red), g) != Nil
       && t' == RotateLeftAt(PaintAt(PaintAt(t1, zp, Black), g, Red), g)
  }

  /** The mirror image of `RotatedRight`, for z's parent a left child: an
      inner z (a right child) is lifted by a left rotation at its parent, and
      the grandparent is rotated right. */
  ghost predicate RotatedLeft(t: Tree, z: Ref, t': Tree, z': Ref)
    requires Distinct(t)
  {
    var p := ParentOf(t, z);
    var g := ParentOf(t, p);
    && p in Ids(t) && g in Ids(t) && z != Nil
    && var inner := z == RightOf(t, p);
       var t1 := if inner then RotateLeftAt(t, p) else t;
       var zp := if inner then z else p;
       && z' == (if inner then p else z)
       && zp in Ids(t1) && g in Ids(t1)
       && LeftOf(PaintAt(PaintAt(t1, zp, Black), g, Red), g) != Nil
       && t' == RotateRightAt(PaintAt(PaintAt(t1, zp, Black), g, Red), g)
  }

  function Flip(d: Dir): Dir {
    if d == Left then Right else Left
  }

  /** The child of `t` on side `d`. */
  function Child(t: Tree, d: Dir): Tree
    requires t.Node?
  {
    if d == Left then t.left else t.right
  }

  /** A node seen from its other child. */
  lemma AttachFlip(f: Frame, x: Tree)
    ensures Attach(f, x) == Attach(Frame(Flip(f.dir), f.id, f.key, f.color, x), f.sibling)
  {
  }

  lemma SplitLast<T>(a: seq<T>, b: seq<T>, x: T, y: T)
    requires a + [x] == b + [y]
    ensures a == b && x == y
  {
    assert |a| == |b|;
    assert x == (a + [x])[|a|] && y == (b + [y])[|b|];
    assert a == (a + [x])[..|a|] && b == (b + [y])[..|b|];
  }

  /** Replacing the subtree `x` that holds `z` by `x'` keeps the loop invariant,
      now for `z'`, when `x'` covers the same nodes, is balanced with the same
      black height, satisfies the red rule with exemption `z'` and does not put
      a RED root under a RED parent unless that root is `z'`. */
  lemma ReplaceInvariant(a: seq<Frame>, x: Tree, x': Tree, z: Ref, z': Ref)
    requires FixupInvariant(Plug(a, x), z) && z in Ids(x)
    requires Distinct(x') && Ids(x') == Ids(x)
    requires Balanced(x') && BlackHeight(x') == BlackHeight(x)
    requires z' in Ids(x') && ColorAt(x', z') == Red && NoRedRedExcept(x', z')
    requires a != [] && a[|a| - 1].color == Red ==> ColorOf(x') == Black || Id(x') == z'
    requires a == [] ==> ColorOf(x') == Black || Id(x') == z'
    ensures FixupInvariant(Plug(a, x'), z')
    ensures Focus(Plug(a, x'), z') == Zipper(a + Focus(x', z').path, Focus(x', z').sub)
  {
    PlugDistinct(a, x);
    PlugIds(a, x);
    ReplaceDistinct(a, x, x');
    FocusPlug(a, x', z');
    BalancedSub(a, x);
    ReplaceBalanced(a, x, x');
    ReplaceRedRule(a, x, x', z, z');
    if a != [] {
      PathTopOutside(a, x);
      assert ColorOf(Plug(a, x')) == ColorOf(Plug(a, x));
      assert Id(Plug(a, x)) == a[0].id != z;
    }
  }

  /** The two children of the node of frame `g`, read through the C fields:
      `x` is on side `g.dir`, `g.sibling` on the other side. */
  lemma ChildrenAt(a: seq<Frame>, g: Frame, x: Tree)
    requires Distinct(Plug(a, Attach(g, x))) && x.Node?
    ensures var t := Plug(a, Attach(g, x));
      && g.id in Ids(t)
      && (RightOf(t, g.id) == x.id) == (g.dir == Right)
      && (LeftOf(t, g.id) == x.id) == (g.dir == Left)
      && Id(g.sibling) == (if g.dir == Right then LeftOf(t, g.id) else RightOf(t, g.id))
      && ColorAt(t, Id(g.sibling)) == ColorOf(g.sibling)
  {
    FocusRoot(a, Attach(g, x));
    PlugDistinct(a, Attach(g, x));
    NilNotInIds(Plug(a, Attach(g, x)));
    assert x.id in Ids(x);
    assert g.sibling.Node? ==> g.sibling.id in Ids(g.sibling);
    if g.sibling.Node? {
      var gf := Frame(Flip(g.dir), g.id, g.key, g.color, x);
      AttachFlip(g, x);
      PlugAppend(a, [gf], g.sibling);
      assert [gf][1..] == [];
      assert Plug([gf], g.sibling) == Attach(gf, g.sibling);
      FocusRoot(a + [gf], g.sibling);
    }
  }

  /** A RED node that is the only exemption of the red rule in its own subtree
      has BLACK children and no RED-RED edge below it. */
  lemma RedTop(s: Tree, z: Ref)
    requires Distinct(s) && s.Node? && s.id == z && NoRedRedExcept(s, z)
    ensures NoRedRed(s)
  {
    assert s.left.Node? ==> s.left.id in Ids(s.left);
    assert s.right.Node? ==> s.right.id in Ids(s.right);
    ExceptAbsent(s.left, z);
    ExceptAbsent(s.right, z);
  }

  /** When z's parent is RED, z has a grandparent: the tree is the path `a`
      to the grandparent `g`, then the parent `p`, then z's subtree `s`; the
      parent is RED, the grandparent BLACK, and the fields the C code reads are
      those of these frames. */
  lemma Family(t: Tree, z: Ref) returns (a: seq<Frame>, g: Frame, p: Frame, s: Tree)
    requires FixupInvariant(t, z) && ColorAt(t, ParentOf(t, z)) == Red
    ensures t == Plug(a, Attach(g, Attach(p, s)))
    ensures Focus(t, z) == Zipper(a + [g, p], s)
    ensures s.Node? && s.id == z && s.color == Red
    ensures p.color == Red && g.color == Black && p.id != z
    ensures p.id in Ids(t) && g.id in Ids(t)
    ensures ParentOf(t, z) == p.id && ParentOf(t, p.id) == g.id
    ensures Focus(t, p.id) == Zipper(a + [g], Attach(p, s))
    ensures Focus(t, g.id) == Zipper(a, Attach(g, Attach(p, s)))
    ensures (RightOf(t, g.id) == p.id) == (g.dir == Right)
    ensures Id(g.sibling) == (if g.dir == Right then LeftOf(t, g.id) else RightOf(t, g.id))
    ensures ColorAt(t, Id(g.sibling)) == ColorOf(g.sibling)
    ensures (LeftOf(t, p.id) == z) == (p.dir == Left)
    ensures (RightOf(t, p.id) == z) == (p.dir == Right)
  {
    NilNotInIds(t);
    assert ParentOf(t, z) != Nil;
    assert Focus(t, z).path != [];
    var up;
    up, p := LastFrame(t, z);
    s := Focus(t, z).sub;
    PlugDistinct(up, Attach(p, s));
    assert p.color == Red && p.id != z;
    assert up == [] ==> t == Attach(p, s);
    assert Focus(t, p.id).path != [];
    a, g := LastFrame(t, p.id);
    assert Focus(t, z).path == a + [g, p];
    var gt := Attach(g, Attach(p, s));
    RedRuleSub(a, gt, z);
    PlugDistinct(a, gt);
    assert g.color == Black;
    ChildrenAt(a, g, Attach(p, s));
    PlugAppend(a, [g], Attach(p, s));
    assert [g][1..] == [];
    assert Plug([g], Attach(p, s)) == gt;
    ChildrenAt(a + [g], p, s);
  }

  /** What the loop invariant says about the grandparent's subtree when z's
      parent is RED: the four subtrees hanging below z, its parent and its
      grandparent are red-black with a common black height. */
  lemma LocalFacts(a: seq<Frame>, g: Frame, p: Frame, s: Tree, z: Ref)
    requires FixupInvariant(Plug(a, Attach(g, Attach(p, s))), z)
    requires s.Node? && s.id == z && s.color == Red && p.color == Red
    ensures Distinct(Attach(g, Attach(p, s)))
    ensures Balanced(Attach(g, Attach(p, s)))
    ensures NoRedRed(s) && NoRedRed(p.sibling) && NoRedRed(g.sibling)
    ensures ColorOf(s.left) == Black && ColorOf(s.right) == Black && ColorOf(p.sibling) == Black
    ensures Balanced(s) && Balanced(p.sibling) && Balanced(g.sibling)
    ensures BlackHeight(s.left) == BlackHeight(s.right) == BlackHeight(p.sibling) == BlackHeight(g.sibling)
    ensures BlackHeight(Attach(g, Attach(p, s))) == BlackHeight(s.left) + (if g.color == Black then 1 else 0)
  {
    var pt := Attach(p, s);
    var gt := Attach(g, pt);
    PlugDistinct(a, gt);
    BalancedSub(a, gt);
    RedRuleSub(a, gt, z);
    assert Distinct(pt) && Distinct(g.sibling) && Ids(pt) !! Ids(g.sibling);
    assert Distinct(s) && Distinct(p.sibling) && Ids(s) !! Ids(p.sibling);
    assert NoRedRedExcept(pt, z) && NoRedRedExcept(g.sibling, z);
    assert NoRedRedExcept(s, z) && NoRedRedExcept(p.sibling, z);
    assert z in Ids(s);
    RedTop(s, z);
    ExceptAbsent(p.sibling, z);
    ExceptAbsent(g.sibling, z);
    assert p.sibling.Node? ==> p.sibling.id in Ids(p.sibling);
  }

  /** The three colour writes of the uncle-RED case, applied to the nodes of
      the frames `g` (grandparent) and `p` (parent) and to the uncle. */
  lemma RecolorPaint(a: seq<Frame>, g: Frame, p: Frame, s: Tree)
    requires Distinct(Plug(a, Attach(g, Attach(p, s)))) && g.sibling.Node?
    ensures var t := Plug(a, Attach(g, Attach(p, s)));
      && p.id in Ids(t) && g.sibling.id in Ids(PaintAt(t, p.id, Black))
      && g.id in Ids(PaintAt(PaintAt(t, p.id, Black), g.sibling.id, Black))
      && PaintAt(PaintAt(PaintAt(t, p.id, Black), g.sibling.id, Black), g.id, Red)
         == Plug(a, Attach(g.(color := Red, sibling := g.sibling.(color := Black)), Attach(p.(color := Black), s)))
  {
    var uncle := g.sibling;
    var pB := p.(color := Black);
    PlugAppend(a, [g], Attach(p, s));
    assert [g][1..] == [];
    PaintFocused(a + [g], Attach(p, s), Black);
    assert Attach(p, s).(color := Black) == Attach(pB, s);
    PlugAppend(a, [g], Attach(pB, s));
    var t1 := Plug(a, Attach(g, Attach(pB, s)));
    var gU := Frame(Flip(g.dir), g.id, g.key, g.color, Attach(pB, s));
    AttachFlip(g, Attach(pB, s));
    PlugAppend(a, [gU], uncle);
    assert [gU][1..] == [];
    PaintFocused(a + [gU], uncle, Black);
    var g2 := g.(sibling := uncle.(color := Black));
    AttachFlip(g2, Attach(pB, s));
    PlugAppend(a, [gU], uncle.(color := Black));
    var t2 := Plug(a, Attach(g2, Attach(pB, s)));
    PaintFocused(a, Attach(g2, Attach(pB, s)), Red);
    assert Attach(g2, Attach(pB, s)).(color := Red) == Attach(g2.(color := Red), Attach(pB, s));
  }

  /** The effect of the uncle-RED case on the grandparent's subtree keeps the
      invariant, now for the grandparent. */
  lemma RecolorCore(a: seq<Frame>, g: Frame, p: Frame, s: Tree, z: Ref)
    requires FixupInvariant(Plug(a, Attach(g, Attach(p, s))), z)
    requires s.Node? && s.id == z && s.color == Red
    requires p.color == Red && g.color == Black && ColorOf(g.sibling) == Red
    ensures var x' := Attach(g.(color := Red, sibling := g.sibling.(color := Black)), Attach(p.(color := Black), s));
      && FixupInvariant(Plug(a, x'), g.id)
      && Focus(Plug(a, x'), g.id) == Zipper(a, x')
  {
    LocalFacts(a, g, p, s, z);
    var uncle := g.sibling;
    var pt' := Attach(p.(color := Black), s);
    var x' := Attach(g.(color := Red, sibling := uncle.(color := Black)), pt');
    AttachIds(p, s);
    AttachIds(p.(color := Black), s);
    AttachIds(g, Attach(p, s));
    AttachIds(g.(color := Red, sibling := uncle.(color := Black)), pt');
    assert Distinct(uncle.(color := Black)) && Ids(uncle.(color := Black)) == Ids(uncle);
    assert Distinct(x') && Ids(x') == Ids(Attach(g, Attach(p, s)));
    StrictIsExcept(s, g.id);
    StrictIsExcept(p.sibling, g.id);
    StrictIsExcept(uncle.left, g.id);
    StrictIsExcept(uncle.right, g.id);
    assert NoRedRedExcept(uncle.(color := Black), g.id);
    assert NoRedRedExcept(x', g.id);
    ReplaceInvariant(a, Attach(g, Attach(p, s)), x', z, g.id);
    assert a + [] == a;
  }

  /** Uncle RED: the parent and the uncle become BLACK, the grandparent RED,
      and the invariant now holds for the grandparent, two levels higher. */
  lemma RecolorCase(t: Tree, z: Ref, p: Ref, g: Ref, u: Ref)
    requires FixupInvariant(t, z)
    requires p == ParentOf(t, z) && ColorAt(t, p) == Red && g == ParentOf(t, p)
    requires u == (if p == RightOf(t, g) then LeftOf(t, g) else RightOf(t, g))
    requires ColorAt(t, u) == Red
    ensures p in Ids(t) && u in Ids(t) && g in Ids(t)
    ensures FixupInvariant(PaintAt(PaintAt(PaintAt(t, p, Black), u, Black), g, Red), g)
    ensures Depth(PaintAt(PaintAt(PaintAt(t, p, Black), u, Black), g, Red), g) < Depth(t, z)
  {
    var a, gf, pf, s := Family(t, z);
    NilNotInIds(t);
    assert gf.sibling.Node? && u == gf.sibling.id;
    RecolorPaint(a, gf, pf, s);
    RecolorCore(a, gf, pf, s, z);
  }

  /** Uncle BLACK and z an inner child: rotating at the parent, away from z,
      makes the old parent an outer child of z, with the invariant kept and the
      depth unchanged. Stated for either side: `d`, bound to `g.dir`, is the
      side of the parent under the grandparent. */
  lemma InnerCore(a: seq<Frame>, g: Frame, p: Frame, s: Tree, z: Ref)
    requires FixupInvariant(Plug(a, Attach(g, Attach(p, s))), z)
    requires s.Node? && s.id == z && s.color == Red
    requires p.color == Red && g.color == Black && ColorOf(g.sibling) == Black
    requires p.dir == Flip(g.dir)
    ensures var d := g.dir;
      var x' := Attach(Frame(d, z, s.key, Red, Child(s, Flip(d))), Attach(Frame(Flip(d), p.id, p.key, Red, p.sibling), Child(s, d)));
      var q := Frame(d, z, s.key, Red, Child(s, Flip(d)));
      && FixupInvariant(Plug(a + [g], x'), p.id)
      && Focus(Plug(a + [g], x'), p.id) == Zipper(a + [g, q], Attach(Frame(Flip(d), p.id, p.key, Red, p.sibling), Child(s, d)))
      && Plug(a + [g], x') == Plug(a, Attach(g, x'))
  {
    var d := g.dir;
    LocalFacts(a, g, p, s, z);
    var pt := Attach(p, s);
    var below := Attach(Frame(Flip(d), p.id, p.key, Red, p.sibling), Child(s, d));
    var q := Frame(d, z, s.key, Red, Child(s, Flip(d)));
    var x' := Attach(q, below);
    if d == Right {
      assert x' == RotateRight(pt);
    } else {
      assert x' == RotateLeft(pt);
    }
    PlugAppend(a, [g], pt);
    PlugAppend(a, [g], x');
    assert [g][1..] == [];
    StrictIsExcept(Child(s, Flip(d)), p.id);
    StrictIsExcept(Child(s, d), p.id);
    StrictIsExcept(p.sibling, p.id);
    assert Focus(x', p.id) == Zipper([q], below);
    ReplaceInvariant(a + [g], pt, x', z, p.id);
    assert a + [g] + [q] == a + [g, q];
  }

  /** Uncle BLACK and z an outer child: after the parent turns BLACK, the
      grandparent RED and the grandparent is rotated toward the uncle, the
      parent stands where the grandparent stood, and it is BLACK. */
  lemma OuterCore(a: seq<Frame>, g: Frame, p: Frame, s: Tree, z: Ref)
    requires FixupInvariant(Plug(a, Attach(g, Attach(p, s))), z)
    requires s.Node? && s.id == z && s.color == Red
    requires p.color == Red && g.color == Black && ColorOf(g.sibling) == Black
    requires p.dir == g.dir
    ensures var d := g.dir;
      var x' := Attach(Frame(d, p.id, p.key, Black, Attach(Frame(d, g.id, g.key, Red, g.sibling), p.sibling)), s);
      && FixupInvariant(Plug(a, x'), z)
      && Focus(Plug(a, x'), z) == Zipper(a + [Frame(d, p.id, p.key, Black, Attach(Frame(d, g.id, g.key, Red, g.sibling), p.sibling))], s)
  {
    var d := g.dir;
    LocalFacts(a, g, p, s, z);
    var gt := Attach(g, Attach(p, s));
    var gt' := Attach(g.(color := Red), Attach(p.(color := Black), s));
    var q := Frame(d, p.id, p.key, Black, Attach(Frame(d, g.id, g.key, Red, g.sibling), p.sibling));
    var x' := Attach(q, s);
    AttachIds(p, s);
    AttachIds(p.(color := Black), s);
    AttachIds(g, Attach(p, s));
    AttachIds(g.(color := Red), Attach(p.(color := Black), s));
    assert Distinct(gt') && Ids(gt') == Ids(gt);
    if d == Right {
      assert x' == RotateLeft(gt');
    } else {
      assert x' == RotateRight(gt');
    }
    StrictIsExcept(s, z);
    StrictIsExcept(g.sibling, z);
    StrictIsExcept(p.sibling, z);
    assert Focus(x', z) == Zipper([q], s);
    ReplaceInvariant(a, gt, x', z, z);
  }

  /** Parent is the grandparent's right child, z the parent's left child:
      `right_rotate` at the parent, and the old parent becomes z. */
  lemma InnerCaseRight(t: Tree, z: Ref, p: Ref, g: Ref)
    requires FixupInvariant(t, z)
    requires p == ParentOf(t, z) && ColorAt(t, p) == Red && g == ParentOf(t, p)
    requires p == RightOf(t, g) && ColorAt(t, LeftOf(t, g)) == Black && z == LeftOf(t, p)
    ensures p in Ids(t) && LeftOf(t, p) != Nil
    ensures var t' := RotateRightAt(t, p);
      && FixupInvariant(t', p) && Depth(t', p) == Depth(t, z)
      && z == ParentOf(t', p) && ColorAt(t', z) == Red && g == ParentOf(t', z)
      && z == RightOf(t', g) && ColorAt(t', LeftOf(t', g)) == Black && p != LeftOf(t', z)
  {
    var a, gf, pf, s := Family(t, z);
    NilNotInIds(t);
    PlugAppend(a, [gf], Attach(pf, s));
    assert [gf][1..] == [];
    RotateRightFocused(a + [gf], Attach(pf, s));
    InnerCore(a, gf, pf, s, z);
    var t' := RotateRightAt(t, p);
    var q := Frame(Right, z, s.key, Red, s.left);
    assert ParentOf(t', p) == z;
    var x' := RotateRight(Attach(pf, s));
    FocusRoot(a + [gf], x');
    assert ColorAt(t', z) == Red;
    var a2, g2, p2, s2 := Family(t', p);
    SplitLast(a + [gf], a2 + [g2], q, p2);
    SplitLast(a, a2, gf, g2);
  }

  /** The mirror image: parent is the grandparent's left child, z the
      parent's right child: `left_rotate` at the parent. */
  lemma InnerCaseLeft(t: Tree, z: Ref, p: Ref, g: Ref)
    requires FixupInvariant(t, z)
    requires p == ParentOf(t, z) && ColorAt(t, p) == Red && g == ParentOf(t, p)
    requires p != RightOf(t, g) && ColorAt(t, RightOf(t, g)) == Black && z == RightOf(t, p)
    ensures p in Ids(t) && RightOf(t, p) != Nil
    ensures var t' := RotateLeftAt(t, p);
      && FixupInvariant(t', p) && Depth(t', p) == Depth(t, z)
      && z == ParentOf(t', p) && ColorAt(t', z) == Red && g == ParentOf(t', z)
      && z != RightOf(t', g) && ColorAt(t', RightOf(t', g)) == Black && p != RightOf(t', z)
  {
    var a, gf, pf, s := Family(t, z);
    NilNotInIds(t);
    PlugAppend(a, [gf], Attach(pf, s));
    assert [gf][1..] == [];
    RotateLeftFocused(a + [gf], Attach(pf, s));
    InnerCore(a, gf, pf, s, z);
    var t' := RotateLeftAt(t, p);
    var q := Frame(Left, z, s.key, Red, s.right);
    assert ParentOf(t', p) == z;
    var x' := RotateLeft(Attach(pf, s));
    FocusRoot(a + [gf], x');
    assert ColorAt(t', z) == Red;
    var a2, g2, p2, s2 := Family(t', p);
    SplitLast(a + [gf], a2 + [g2], q, p2);
    SplitLast(a, a2, gf, g2);
  }

  /** Parent is the grandparent's right child and z is not the parent's left
      child: parent BLACK, grandparent RED, `left_rotate` at the grandparent;
      z's parent is then BLACK and z is one level higher. */
  lemma OuterCaseRight(t: Tree, z: Ref, p: Ref, g: Ref)
    requires FixupInvariant(t, z)
    requires p == ParentOf(t, z) && ColorAt(t, p) == Red && g == ParentOf(t, p)
    requires p == RightOf(t, g) && ColorAt(t, LeftOf(t, g)) == Black && z != LeftOf(t, p)
    ensures p in Ids(t) && g in Ids(t)
    ensures RightOf(PaintAt(PaintAt(t, p, Black), g, Red), g) != Nil
    ensures var t' := RotateLeftAt(PaintAt(PaintAt(t, p, Black), g, Red), g);
      FixupInvariant(t', z) && Depth(t', z) < Depth(t, z) && ColorAt(t', ParentOf(t', z)) == Black
  {
    var a, gf, pf, s := Family(t, z);
    var pB := pf.(color := Black);
    PlugAppend(a, [gf], Attach(pf, s));
    assert [gf][1..] == [];
    PaintFocused(a + [gf], Attach(pf, s), Black);
    assert Attach(pf, s).(color := Black) == Attach(pB, s);
    PlugAppend(a, [gf], Attach(pB, s));
    var t1 := PaintAt(t, p, Black);
    assert t1 == Plug(a, Attach(gf, Attach(pB, s)));
    PaintFocused(a, Attach(gf, Attach(pB, s)), Red);
    var gR := gf.(color := Red);
    assert Attach(gf, Attach(pB, s)).(color := Red) == Attach(gR, Attach(pB, s));
    var t2 := PaintAt(t1, g, Red);
    assert t2 == Plug(a, Attach(gR, Attach(pB, s)));
    RotateLeftFocused(a, Attach(gR, Attach(pB, s)));
    OuterCore(a, gf, pf, s, z);
    var x' := RotateLeft(Attach(gR, Attach(pB, s)));
    FocusRoot(a, x');
  }

  /** The mirror image: parent is the grandparent's left child and z is not
      the parent's right child: `right_rotate` at the grandparent. */
  lemma OuterCaseLeft(t: Tree, z: Ref, p: Ref, g: Ref)
    requires FixupInvariant(t, z)
    requires p == ParentOf(t, z) && ColorAt(t, p) == Red && g == ParentOf(t, p)
    requires p != RightOf(t, g) && ColorAt(t, RightOf(t, g)) == Black && z != RightOf(t, p)
    ensures p in Ids(t) && g in Ids(t)
    ensures LeftOf(PaintAt(PaintAt(t, p, Black), g, Red), g) != Nil
    ensures var t' := RotateRightAt(PaintAt(PaintAt(t, p, Black), g, Red), g);
      FixupInvariant(t', z) && Depth(t', z) < Depth(t, z) && ColorAt(t', ParentOf(t', z)) == Black
  {
    var a, gf, pf, s := Family(t, z);
    var pB := pf.(color := Black);
    PlugAppend(a, [gf], Attach(pf, s));
    assert [gf][1..] == [];
    PaintFocused(a + [gf], Attach(pf, s), Black);
    assert Attach(pf, s).(color := Black) == Attach(pB, s);
    PlugAppend(a, [gf], Attach(pB, s));
    var t1 := PaintAt(t, p, Black);
    assert t1 == Plug(a, Attach(gf, Attach(pB, s)));
    PaintFocused(a, Attach(gf, Attach(pB, s)), Red);
    var gR := gf.(color := Red);
    assert Attach(gf, Attach(pB, s)).(color := Red) == Attach(gR, Attach(pB, s));
    var t2 := PaintAt(t1, g, Red);
    assert t2 == Plug(a, Attach(gR, Attach(pB, s)));
    RotateRightFocused(a, Attach(gR, Attach(pB, s)));
    OuterCore(a, gf, pf, s, z);
    var x' := RotateRight(Attach(gR, Attach(pB, s)));
    FocusRoot(a, x');
  }

  /** When the loop stops (z's parent is BLACK, or z is the root), painting
      the root BLACK yields a red-black tree. */
  lemma FixupDone(t: Tree, z: Ref)
    requires FixupInvariant(t, z) && ColorAt(t, ParentOf(t, z)) == Black
    ensures t.Node? && t.id in Ids(t)
    ensures IsRedBlack(PaintAt(t, t.id, Black))
  {
    var zp := Focus(t, z);
    var s := zp.sub;
    NilNotInIds(t);
    PlugDistinct(zp.path, s);
    PlugIds(zp.path, s);
    RedRuleSub(zp.path, s, z);
    RedTop(s, z);
    StrictIsExcept(s, Nil);
    if zp.path != [] {
      var up, q := LastFrame(t, z);
      assert q.color == Black;
    }
    ReplaceRedRule(zp.path, s, s, z, Nil);
    ExceptAbsent(t, Nil);
    PaintFocused([], t, Black);
  }

  /** What insertion does before it calls the fixup: a fresh RED node with two
      sentinel children put in place of a leaf of a red-black tree establishes
      the loop invariant. */
  lemma FreshRedLeaf(a: seq<Frame>, z: Ref, k: int)
    requires IsRedBlack(Plug(a, Leaf))
    requires Distinct(Plug(a, Node(Leaf, z, k, Red, Leaf)))
    ensures FixupInvariant(Plug(a, Node(Leaf, z, k, Red, Leaf)), z)
  {
    var n := Node(Leaf, z, k, Red, Leaf);
    PlugDistinct(a, n);
    PlugIds(a, n);
    ReplaceBalanced(a, Leaf, n);
    StrictIsExcept(Plug(a, Leaf), z);
    ReplaceRedRule(a, Leaf, n, z, z);
    FocusRoot(a, n);
  }
  /** While z's parent is RED, the parent and the grandparent are real nodes. */
  lemma Grandparent(t: Tree, z: Ref)
    requires FixupInvariant(t, z) && ColorAt(t, ParentOf(t, z)) == Red
    ensures ParentOf(t, z) in Ids(t) && ParentOf(t, ParentOf(t, z)) in Ids(t)
  {
    var a, g, p, s := Family(t, z);
  }
}
