/** The abstract view of a red-black tree: an algebraic tree whose nodes carry
    the arena index (`id`) of the C node they stand for, its key and its colour.
    The red-black invariants and binary-search-tree order are stated here. */
module Trees {

  /** An index into the node arena; the sentinel `nil` is index 0. */
  type Ref = nat

  const Nil: Ref := 0

  datatype Color = Red | Black

  datatype Tree =
    | Leaf
    | Node(left: Tree, id: Ref, key: int, color: Color, right: Tree)

  /** The arena index a parent stores for this subtree: the sentinel for a leaf. */
  function Id(t: Tree): Ref {
    if t.Leaf? then Nil else t.id
  }

  /** The colour of a subtree's root; a leaf is the BLACK sentinel. */
  function ColorOf(t: Tree): Color {
    if t.Leaf? then Black else t.color
  }

  function Ids(t: Tree): set<Ref> {
    match t
    case Leaf => {}
    case Node(l, i, _, _, r) => Ids(l) + {i} + Ids(r)
  }

  /** Every node is a real arena node (never the sentinel) and occurs once. */
  predicate Distinct(t: Tree) {
    match t
    case Leaf => true
    case Node(l, i, _, _, r) =>
      && i != Nil
      && i !in Ids(l) && i !in Ids(r) && Ids(l) !! Ids(r)
      && Distinct(l) && Distinct(r)
  }

  /** The in-order key sequence. */
  function Keys(t: Tree): seq<int> {
    match t
    case Leaf => []
    case Node(l, _, k, _, r) => Keys(l) + [k] + Keys(r)
  }

  /** Number of BLACK nodes on the leftmost path below and including the root. */
  function BlackHeight(t: Tree): nat {
    match t
    case Leaf => 0
    case Node(l, _, _, c, _) => BlackHeight(l) + (if c == Black then 1 else 0)
  }

  /** Every path from a node down to the sentinel meets the same number of BLACK nodes. */
  predicate Balanced(t: Tree) {
    match t
    case Leaf => true
    case Node(l, _, _, _, r) =>
      Balanced(l) && Balanced(r) && BlackHeight(l) == BlackHeight(r)
  }

  /** No RED node has a RED child. */
  predicate NoRedRed(t: Tree) {
    match t
    case Leaf => true
    case Node(l, _, _, c, r) =>
      && (c == Red ==> ColorOf(l) == Black && ColorOf(r) == Black)
      && NoRedRed(l) && NoRedRed(r)
  }

  /** No RED node has a RED child, except that node `z` may be the RED child of a RED parent. */
  predicate NoRedRedExcept(t: Tree, z: Ref) {
    match t
    case Leaf => true
    case Node(l, _, _, c, r) =>
      && (c == Red ==> (ColorOf(l) == Black || Id(l) == z) && (ColorOf(r) == Black || Id(r) == z))
      && NoRedRedExcept(l, z) && NoRedRedExcept(r, z)
  }

  /** The red-black invariants: BLACK root, no RED-RED edge, uniform black height. */
  predicate IsRedBlack(t: Tree) {
    ColorOf(t) == Black && NoRedRed(t) && Balanced(t)
  }

  /** Binary-search-tree order: every key of the left subtree is smaller than
      the node's key, every key of the right subtree larger. */
  predicate SearchTree(t: Tree) {
    match t
    case Leaf => true
    case Node(l, _, k, _, r) =>
      && (forall i :: 0 <= i < |Keys(l)| ==> Keys(l)[i] < k)
      && (forall i :: 0 <= i < |Keys(r)| ==> k < Keys(r)[i])
      && SearchTree(l) && SearchTree(r)
  }

  predicate Increasing(s: seq<int>) {
    forall i, j :: 0 <= i < j < |s| ==> s[i] < s[j]
  }

  lemma {:induction false} NilNotInIds(t: Tree)
    requires Distinct(t)
    ensures Nil !in Ids(t)
  {
    match t
    case Leaf =>
    case Node(l, _, _, _, r) =>
      NilNotInIds(l);
      NilNotInIds(r);
  }

  /** A subtree that does not contain `z` has no RED-RED edge at all, if the only
      one allowed is at `z`. */
  lemma {:induction false} ExceptAbsent(t: Tree, z: Ref)
    requires NoRedRedExcept(t, z) && z !in Ids(t)
    ensures NoRedRed(t)
  {
    match t
    case Leaf =>
    case Node(l, _, _, _, r) =>
      ExceptAbsent(l, z);
      ExceptAbsent(r, z);
  }

  lemma {:induction false} StrictIsExcept(t: Tree, z: Ref)
    requires NoRedRed(t)
    ensures NoRedRedExcept(t, z)
  {
    match t
    case Leaf =>
    case Node(l, _, _, _, r) =>
      StrictIsExcept(l, z);
      StrictIsExcept(r, z);
  }

  lemma IncreasingConcat(a: seq<int>, k: int, b: seq<int>)
    ensures Increasing(a + [k] + b) <==>
      && Increasing(a) && Increasing(b)
      && (forall i :: 0 <= i < |a| ==> a[i] < k)
      && (forall i :: 0 <= i < |b| ==> k < b[i])
  {
    var s := a + [k] + b;
    if Increasing(s) {
      forall i, j | 0 <= i < j < |a| ensures a[i] < a[j] {
        assert s[i] == a[i] && s[j] == a[j];
      }
      forall i, j | 0 <= i < j < |b| ensures b[i] < b[j] {
        assert s[|a| + 1 + i] == b[i] && s[|a| + 1 + j] == b[j];
      }
      forall i | 0 <= i < |a| ensures a[i] < k {
        assert s[i] == a[i] && s[|a|] == k;
      }
      forall i | 0 <= i < |b| ensures k < b[i] {
        assert s[|a| + 1 + i] == b[i] && s[|a|] == k;
      }
    }
  }

  /** Binary-search-tree order holds exactly when the in-order key sequence is
      strictly increasing. */
  lemma {:induction false} SearchTreeIffIncreasing(t: Tree)
    ensures SearchTree(t) <==> Increasing(Keys(t))
  {
    match t
    case Leaf =>
    case Node(l, _, k, _, r) =>
      SearchTreeIffIncreasing(l);
      SearchTreeIffIncreasing(r);
      IncreasingConcat(Keys(l), k, Keys(r));
  }
}
