/** Paths into a tree. A path lists, from the root down, the nodes passed on the
    way to a subtree together with the other child of each; plugging the subtree
    back into the path rebuilds the tree. Every local change the C code makes
    (a recolouring, a rotation) replaces the subtree at the end of such a path,
    and the lemmas here say which properties of the whole tree follow from
    properties of the replacement. */
module Zippers {
  import opened Trees

  datatype Dir = Left | Right

  /** The node `id` (with its key and colour) whose `dir` child lies on the path
      and whose other child is `sibling`. */
  datatype Frame = Frame(dir: Dir, id: Ref, key: int, color: Color, sibling: Tree)

  datatype Zipper = Zipper(path: seq<Frame>, sub: Tree)

  function Attach(f: Frame, t: Tree): Tree {
    if f.dir == Left then Node(t, f.id, f.key, f.color, f.sibling)
    else Node(f.sibling, f.id, f.key, f.color, t)
  }

  lemma AttachIds(f: Frame, t: Tree)
    ensures Ids(Attach(f, t)) == Ids(t) + {f.id} + Ids(f.sibling)
  {
  }

  /** The tree obtained by hanging `t` at the end of `path`. */
  function Plug(path: seq<Frame>, t: Tree): Tree
    decreases |path|
  {
    if path == [] then t else Attach(path[0], Plug(path[1..], t))
  }

  /** The path from the root to node `x` and the subtree rooted at `x`. */
  function Focus(t: Tree, x: Ref): (z: Zipper)
    requires x in Ids(t)
    ensures Plug(z.path, z.sub) == t
    ensures z.sub.Node? && z.sub.id == x
  {
    match t
    case Node(l, i, k, c, r) =>
      if i == x then Zipper([], t)
      else if x in Ids(l) then
        var z := Focus(l, x);
        Zipper([Frame(Left, i, k, c, r)] + z.path, z.sub)
      else
        var z := Focus(r, x);
        Zipper([Frame(Right, i, k, c, l)] + z.path, z.sub)
  }

  // The fields of a node as its C struct holds them, read off the abstract tree.
  // A reference outside the tree reads as the sentinel: BLACK, with nil links.

  function ParentOf(t: Tree, x: Ref): Ref {
    if x !in Ids(t) then Nil
    else
      var z := Focus(t, x);
      if z.path == [] then Nil else z.path[|z.path| - 1].id
  }

  function LeftOf(t: Tree, x: Ref): Ref {
    if x in Ids(t) then Id(Focus(t, x).sub.left) else Nil
  }

  function RightOf(t: Tree, x: Ref): Ref {
    if x in Ids(t) then Id(Focus(t, x).sub.right) else Nil
  }

  function ColorAt(t: Tree, x: Ref): Color {
    if x in Ids(t) then Focus(t, x).sub.color else Black
  }

  function KeyAt(t: Tree, x: Ref): int {
    if x in Ids(t) then Focus(t, x).sub.key else 0
  }

  /** Number of edges from the root down to node `x`. */
  function Depth(t: Tree, x: Ref): nat {
    if x in Ids(t) then |Focus(t, x).path| else 0
  }

  lemma {:induction false} PlugAppend(a: seq<Frame>, b: seq<Frame>, s: Tree)
    ensures Plug(a + b, s) == Plug(a, Plug(b, s))
    decreases |a|
  {
    if a == [] {
      assert a + b == b;
    } else {
      assert (a + b)[0] == a[0] && (a + b)[1..] == a[1..] + b;
      PlugAppend(a[1..], b, s);
    }
  }

  lemma {:induction false} PlugIds(a: seq<Frame>, s: Tree)
    ensures Ids(Plug(a, s)) == Ids(Plug(a, Leaf)) + Ids(s)
    decreases |a|
  {
    if a != [] {
      PlugIds(a[1..], s);
    }
  }

  /** A distinct tree splits into a distinct path and a distinct subtree with no
      node in common. */
  lemma {:induction false} PlugDistinct(a: seq<Frame>, s: Tree)
    requires Distinct(Plug(a, s))
    ensures Distinct(s) && Distinct(Plug(a, Leaf))
    ensures Ids(Plug(a, Leaf)) !! Ids(s)
    decreases |a|
  {
    if a != [] {
      PlugIds(a[1..], s);
      PlugDistinct(a[1..], s);
    }
  }

  /** The node at the top of a non-empty path is not in the plugged subtree. */
  lemma PathTopOutside(a: seq<Frame>, s: Tree)
    requires a != [] && Distinct(Plug(a, s))
    ensures a[0].id !in Ids(s) && a[0].id != Nil
  {
    PlugDistinct(a, s);
  }

  /** Replacing the subtree by one over the same nodes keeps the tree distinct. */
  lemma {:induction false} ReplaceDistinct(a: seq<Frame>, s: Tree, s': Tree)
    requires Distinct(Plug(a, s)) && Distinct(s') && Ids(s') == Ids(s)
    ensures Distinct(Plug(a, s')) && Ids(Plug(a, s')) == Ids(Plug(a, s))
    decreases |a|
  {
    if a != [] {
      ReplaceDistinct(a[1..], s, s');
    }
  }

  /** Focusing below the root frame prepends that frame to the path. */
  lemma FocusAttach(f: Frame, y: Tree, x: Ref)
    requires x in Ids(y) && x != f.id && x !in Ids(f.sibling)
    ensures x in Ids(Attach(f, y))
    ensures Focus(Attach(f, y), x) == Zipper([f] + Focus(y, x).path, Focus(y, x).sub)
  {
    if f.dir == Left {
      assert Frame(Left, f.id, f.key, f.color, f.sibling) == f;
    } else {
      assert Frame(Right, f.id, f.key, f.color, f.sibling) == f;
    }
  }

  lemma SplitFirst<T>(a: seq<T>, b: seq<T>)
    requires a != []
    ensures a + b == [a[0]] + (a[1..] + b)
  {
    assert a == [a[0]] + a[1..];
  }

  lemma {:induction false} FocusPlug(a: seq<Frame>, s: Tree, x: Ref)
    requires Distinct(Plug(a, s)) && x in Ids(s)
    ensures x in Ids(Plug(a, s))
    ensures Focus(Plug(a, s), x) == Zipper(a + Focus(s, x).path, Focus(s, x).sub)
    decreases |a|
  {
    PlugIds(a, s);
    var fs := Focus(s, x);
    if a == [] {
      assert a + fs.path == fs.path;
    } else {
      var f, y := a[0], Plug(a[1..], s);
      assert Plug(a, s) == Attach(f, y);
      assert x in Ids(y) && x != f.id && x !in Ids(f.sibling) by {
        PlugIds(a[1..], s);
      }
      FocusPlug(a[1..], s, x);
      FocusAttach(f, y, x);
      SplitFirst(a, fs.path);
    }
  }

  /** The path of the subtree rooted at the focused node itself is the path itself. */
  lemma FocusRoot(a: seq<Frame>, s: Tree)
    requires Distinct(Plug(a, s)) && s.Node?
    ensures s.id in Ids(Plug(a, s))
    ensures Focus(Plug(a, s), s.id) == Zipper(a, s)
  {
    FocusPlug(a, s, s.id);
    assert a + [] == a;
  }

  lemma {:induction false} ReplaceKeys(a: seq<Frame>, s: Tree, s': Tree)
    requires Keys(s') == Keys(s)
    ensures Keys(Plug(a, s')) == Keys(Plug(a, s))
    decreases |a|
  {
    if a != [] {
      ReplaceKeys(a[1..], s, s');
    }
  }

  lemma {:induction false} BalancedSub(a: seq<Frame>, s: Tree)
    requires Balanced(Plug(a, s))
    ensures Balanced(s)
    decreases |a|
  {
    if a != [] {
      BalancedSub(a[1..], s);
    }
  }

  /** Replacing a subtree by a balanced one of the same black height keeps the
      whole tree balanced, with the same black height. */
  lemma {:induction false} ReplaceBalanced(a: seq<Frame>, s: Tree, s': Tree)
    requires Balanced(Plug(a, s)) && Balanced(s') && BlackHeight(s') == BlackHeight(s)
    ensures Balanced(Plug(a, s')) && BlackHeight(Plug(a, s')) == BlackHeight(Plug(a, s))
    decreases |a|
  {
    if a != [] {
      ReplaceBalanced(a[1..], s, s');
    }
  }

  lemma {:induction false} RedRuleSub(a: seq<Frame>, s: Tree, z: Ref)
    requires NoRedRedExcept(Plug(a, s), z)
    ensures NoRedRedExcept(s, z)
    decreases |a|
  {
    if a != [] {
      RedRuleSub(a[1..], s, z);
    }
  }

  /** Replacing a subtree by one that satisfies the red rule with exemption
      `z'`, and whose root is not a RED child of a RED parent unless it is `z'`,
      keeps the red rule for the whole tree, now with exemption `z'`, provided
      the old exemption `z` was not on the path or beside it. */
  lemma {:induction false} ReplaceRedRule(a: seq<Frame>, s: Tree, s': Tree, z: Ref, z': Ref)
    requires Distinct(Plug(a, s)) && z !in Ids(Plug(a, Leaf))
    requires NoRedRedExcept(Plug(a, s), z) && NoRedRedExcept(s', z')
    requires a != [] && a[|a| - 1].color == Red ==> ColorOf(s') == Black || Id(s') == z'
    ensures NoRedRedExcept(Plug(a, s'), z')
    decreases |a|
  {
    if a != [] {
      var f, y, y' := a[0], Plug(a[1..], s), Plug(a[1..], s');
      PlugIds(a[1..], s);
      PlugIds(a[1..], Leaf);
      PlugDistinct(a[1..], s);
      assert z !in Ids(f.sibling) && z !in Ids(Plug(a[1..], Leaf));
      ExceptAbsent(f.sibling, z);
      StrictIsExcept(f.sibling, z');
      assert f.sibling.Node? ==> f.sibling.id in Ids(f.sibling);
      ReplaceRedRule(a[1..], s, s', z, z');
      if |a| > 1 {
        assert Id(y) == Id(y') == a[1].id != z;
        assert ColorOf(y) == ColorOf(y');
      }
    }
  }
  /** A node below the root has a parent: the last frame of its path, whose own
      path is the rest. */
  lemma LastFrame(t: Tree, x: Ref) returns (up: seq<Frame>, q: Frame)
    requires Distinct(t) && x in Ids(t) && Focus(t, x).path != []
    ensures Focus(t, x).path == up + [q]
    ensures t == Plug(up, Attach(q, Focus(t, x).sub))
    ensures q.id in Ids(t) && Focus(t, q.id) == Zipper(up, Attach(q, Focus(t, x).sub))
    ensures ParentOf(t, x) == q.id
  {
    var z := Focus(t, x);
    var n := |z.path|;
    q := z.path[n - 1];
    up := z.path[..n - 1];
    assert z.path == up + [q];
    PlugAppend(up, [q], z.sub);
    assert [q][1..] == [];
    assert Plug([q], z.sub) == Attach(q, z.sub);
    FocusRoot(up, Attach(q, z.sub));
  }
  /** The links read off a node lead to nodes of the tree, or to the sentinel. */
  lemma LinksInside(t: Tree, x: Ref)
    requires Distinct(t) && x in Ids(t)
    ensures LeftOf(t, x) != Nil ==> LeftOf(t, x) in Ids(t)
    ensures RightOf(t, x) != Nil ==> RightOf(t, x) in Ids(t)
    ensures ParentOf(t, x) != Nil ==> ParentOf(t, x) in Ids(t)
  {
    var z := Focus(t, x);
    PlugIds(z.path, z.sub);
    assert z.sub.left.Node? ==> z.sub.left.id in Ids(z.sub.left);
    assert z.sub.right.Node? ==> z.sub.right.id in Ids(z.sub.right);
    if z.path != [] {
      var up, q := LastFrame(t, x);
    }
  }
}
