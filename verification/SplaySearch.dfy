/** Search order in a splay tree, and what one turn of the SPLAY loop keeps. */
module SplaySearch {
  import opened Sequences
  import opened SplayShape

  predicate Sorted(s: seq<Node>) {
    forall i, j :: 0 <= i < j < |s| ==> s[i].key < s[j].key
  }

  predicate Below(s: seq<Node>, k: int) { forall n <- s :: n.key < k }
  predicate Above(k: int, s: seq<Node>) { forall n <- s :: k < n.key }

  /** All of the three trees in order. */
  function Whole(sm: Spine, m: Tree, lg: Spine): seq<Node> { Smaller(sm) + Inorder(m) + Larger(lg) }

  /** What SPLAY for key k keeps. */
  predicate Between(sm: Spine, m: Tree, lg: Spine, k: int) {
    Sorted(Whole(sm, m, lg)) && Below(Smaller(sm), k) && Above(k, Larger(lg))
  }

  /** When SPLAY stops: the root has key k, or nothing is left between it and k. */
  predicate Settled(m: Tree, k: int) {
    m.Bin? && (m.n.key == k || (k < m.n.key && m.l.Leaf?) || (m.n.key < k && m.r.Leaf?))
  }

  /** The root of t is where k is, or next to where k would be. */
  predicate Splayed(t: Tree, k: int) {
    t.Bin? && Below(Inorder(t.l), k) && Above(k, Inorder(t.r))
  }

  function Size(t: Tree): nat {
    match t
    case Leaf => 0
    case Bin(l, _, r) => Size(l) + 1 + Size(r)
  }

  lemma SortedSplit(a: seq<Node>, n: Node, b: seq<Node>)
    requires Sorted(a + [n] + b)
    ensures Below(a, n.key) && Above(n.key, b) && Sorted(a) && Sorted(b)
  {
    var s := a + [n] + b;
    assert s[|a|] == n;
    forall m <- a ensures m.key < n.key {
      var i :| 0 <= i < |a| && a[i] == m;
      assert s[i] == m;
    }
    forall m <- b ensures n.key < m.key {
      var i :| 0 <= i < |b| && b[i] == m;
      assert s[|a| + 1 + i] == m;
    }
    assert forall i :: 0 <= i < |a| ==> s[i] == a[i];
    assert forall i :: 0 <= i < |b| ==> s[|a| + 1 + i] == b[i];
  }

  lemma SortedJoin(a: seq<Node>, n: Node, b: seq<Node>)
    requires Sorted(a) && Sorted(b) && Below(a, n.key) && Above(n.key, b)
    ensures Sorted(a + [n] + b)
  {
  }

  lemma OpenInorder(t: Tree)
    ensures t.Leaf? ==> Inorder(t) == []
    ensures t.Bin? ==> Inorder(t) == Inorder(t.l) + [t.n] + Inorder(t.r)
  {
  }

  lemma OpenSnoc(s: Spine, n: Node, t: Tree)
    ensures Smaller(Snoc(s, n, t)) == Smaller(s) + Inorder(t) + [n]
    ensures Larger(Snoc(s, n, t)) == [n] + Inorder(t) + Larger(s)
    ensures Smaller(Nil) == Larger(Nil) == []
  {
  }

  /** Around the root of the middle tree. */
  lemma OpenWhole(sm: Spine, m: Tree, lg: Spine)
    requires m.Bin?
    ensures Whole(sm, m, lg) == (Smaller(sm) + Inorder(m.l)) + [m.n] + (Inorder(m.r) + Larger(lg))
  {
    hide Inorder, Smaller, Larger;
    OpenInorder(m);
    Regroup(Smaller(sm), Inorder(m.l) + [m.n], Inorder(m.r), Larger(lg));
  }

  /** Linking the root into the larger tree. */
  lemma LinkedLeft(sm: Spine, m: Tree, lg: Spine, k: int)
    requires m.Bin? && Between(sm, m, lg, k) && k < m.n.key
    ensures Between(sm, m.l, Snoc(lg, m.n, m.r), k)
  {
    hide Inorder, Smaller, Larger;
    OpenWhole(sm, m, lg);
    OpenSnoc(lg, m.n, m.r);
    LinkedLeftWhole(sm, m, lg);
    SortedSplit(Smaller(sm) + Inorder(m.l), m.n, Inorder(m.r) + Larger(lg));
    assert forall n <- Inorder(m.r) :: n in Inorder(m.r) + Larger(lg);
  }

  /** Linking the root into the smaller tree. */
  lemma LinkedRight(sm: Spine, m: Tree, lg: Spine, k: int)
    requires m.Bin? && Between(sm, m, lg, k) && m.n.key < k
    ensures Between(Snoc(sm, m.n, m.l), m.r, lg, k)
  {
    hide Inorder, Smaller, Larger;
    OpenWhole(sm, m, lg);
    OpenSnoc(sm, m.n, m.l);
    LinkedRightWhole(sm, m, lg);
    SortedSplit(Smaller(sm) + Inorder(m.l), m.n, Inorder(m.r) + Larger(lg));
    assert forall n <- Inorder(m.l) :: n in Smaller(sm) + Inorder(m.l);
  }

  /** Putting the three trees together. */
  function Assembled(sm: Spine, m: Tree, lg: Spine): Tree
    requires m.Bin?
  {
    Bin(BuildS(sm, m.l), m.n, BuildL(lg, m.r))
  }

  lemma AssembledInorder(sm: Spine, m: Tree, lg: Spine)
    requires m.Bin?
    ensures Inorder(Assembled(sm, m, lg)) == Whole(sm, m, lg)
  {
    hide Inorder, Smaller, Larger, BuildS, BuildL;
    OpenWhole(sm, m, lg);
    OpenInorder(Assembled(sm, m, lg));
    BuiltSmaller(sm, m.l);
    BuiltLarger(lg, m.r);
  }

  lemma AssembledSplayed(sm: Spine, m: Tree, lg: Spine, k: int)
    requires Between(sm, m, lg, k) && Settled(m, k)
    ensures Splayed(Assembled(sm, m, lg), k)
  {
    hide Inorder, Smaller, Larger, BuildS, BuildL, Sorted;
    OpenWhole(sm, m, lg);
    SortedSplit(Smaller(sm) + Inorder(m.l), m.n, Inorder(m.r) + Larger(lg));
    BuiltSmaller(sm, m.l);
    BuiltLarger(lg, m.r);
    OpenInorder(Leaf);
  }

  function SetOf(s: seq<Node>): set<Node> { set n | n in s }

  lemma {:induction false} NodesInorder(t: Tree)
    ensures Nodes(t) == SetOf(Inorder(t))
  {
    if t.Bin? {
      NodesInorder(t.l);
      NodesInorder(t.r);
    }
  }

  /** The nodes of t whose key is not k. */
  function Others(s: set<Node>, k: int): set<Node> { set n | n in s && n.key != k }

  /** After SPLAY, the key is at the root or nowhere. */
  lemma SplayedRoot(t: Tree, k: int)
    requires Splayed(t, k) && Sorted(Inorder(t))
    ensures forall n <- Nodes(t.l) :: n.key < k
    ensures forall n <- Nodes(t.r) :: k < n.key
    ensures forall n <- Nodes(t) :: n.key == k ==> n == t.n
    ensures Nodes(t.l) + Nodes(t.r) == Nodes(t) - {t.n}
    ensures t.n.key == k ==> Nodes(t.l) + Nodes(t.r) == Others(Nodes(t), k)
    ensures t.n.key != k ==> Nodes(t) == Others(Nodes(t), k)
    ensures Sorted(Inorder(t.l)) && Sorted(Inorder(t.r)) && Below(Inorder(t.l), t.n.key) && Above(t.n.key, Inorder(t.r))
  {
    NodesInorder(t.l);
    NodesInorder(t.r);
    OpenInorder(t);
    SortedSplit(Inorder(t.l), t.n, Inorder(t.r));
  }

  /** Linking the root into the larger tree, whatever the keys. */
  lemma LinkedLeftWhole(sm: Spine, m: Tree, lg: Spine)
    requires m.Bin?
    ensures Whole(sm, m.l, Snoc(lg, m.n, m.r)) == Whole(sm, m, lg)
  {
    hide Inorder, Smaller, Larger;
    OpenWhole(sm, m, lg);
    OpenSnoc(lg, m.n, m.r);
    assert Larger(Snoc(lg, m.n, m.r)) == [m.n] + (Inorder(m.r) + Larger(lg));
  }

  lemma LinkedRightWhole(sm: Spine, m: Tree, lg: Spine)
    requires m.Bin?
    ensures Whole(Snoc(sm, m.n, m.l), m.r, lg) == Whole(sm, m, lg)
  {
    hide Inorder, Smaller, Larger;
    OpenWhole(sm, m, lg);
    OpenSnoc(sm, m.n, m.l);
    Regroup(Smaller(sm) + Inorder(m.l), [m.n], Inorder(m.r), Larger(lg));
  }
}
