/** Search order: the in-order keys increase, and a descent closes in on the key it looks for. */
module RedBlackSearch {
  import opened Sequences
  import opened RedBlackShape
  import opened RedBlackBalance

  predicate Sorted(s: seq<Node>) {
    forall i, j :: 0 <= i < j < |s| ==> s[i].key < s[j].key
  }

  /** A red-black search tree. */
  predicate SearchTree(t: Tree) { RedBlack(t) && Sorted(Inorder(t)) }

  /** The hole of x is where k belongs. */
  predicate Around(x: Ctx, k: int) {
    (forall n <- Before(x) :: n.key < k) && (forall n <- After(x) :: k < n.key)
  }

  /** The nodes met on the way to k, or to where k would be. */
  function PathLength(t: Tree, k: int): nat {
    if t.Leaf? then 0
    else 1 + if k == t.n.key then 0 else if k < t.n.key then PathLength(t.l, k) else PathLength(t.r, k)
  }

  lemma OpenPath(t: Tree, k: int)
    ensures t.Leaf? ==> PathLength(t, k) == Height(t) == 0
    ensures t.Bin? ==> PathLength(t, k) == 1 + (if k == t.n.key then 0 else PathLength(if k < t.n.key then t.l else t.r, k))
    ensures t.Bin? ==> Height(t) >= 1 + Height(t.l) && Height(t) >= 1 + Height(t.r)
  {
  }

  lemma SortedAround(b: seq<Node>, l: seq<Node>, n: Node, r: seq<Node>, a: seq<Node>)
    requires Sorted(b + (l + [n] + r) + a)
    ensures (forall m <- l :: m.key < n.key) && (forall m <- r :: n.key < m.key)
  {
    var s, at := b + (l + [n] + r) + a, |b| + |l|;
    assert s[at] == n;
    assert forall i :: 0 <= i < |l| ==> s[|b| + i] == l[i];
    assert forall i :: 0 <= i < |r| ==> s[at + 1 + i] == r[i];
  }

  lemma StepLeft(x: Ctx, t: Tree, k: int)
    requires t.Bin? && k < t.n.key && Around(x, k) && Sorted(Inorder(Plug(x, t)))
    ensures Around(LeftOf(x, t.n, t.c, t.r), k)
  {
    hide Plug, Sorted;
    PlugInorder(x, t);
    SortedAround(Before(x), Inorder(t.l), t.n, Inorder(t.r), After(x));
  }

  lemma StepRight(x: Ctx, t: Tree, k: int)
    requires t.Bin? && t.n.key < k && Around(x, k) && Sorted(Inorder(Plug(x, t)))
    ensures Around(RightOf(t.l, t.n, t.c, x), k)
  {
    hide Plug, Sorted;
    PlugInorder(x, t);
    SortedAround(Before(x), Inorder(t.l), t.n, Inorder(t.r), After(x));
  }

  lemma SortedBetween(b: seq<Node>, n: Node, a: seq<Node>)
    requires Sorted(b + a) && (forall m <- b :: m.key < n.key) && (forall m <- a :: n.key < m.key)
    ensures Sorted(b + [n] + a)
  {
    var s, u := b + a, b + [n] + a;
    forall i, j | 0 <= i < j < |u| ensures u[i].key < u[j].key {
      if i != |b| && j != |b| {
        assert u[i] == s[if i < |b| then i else i - 1] && u[j] == s[if j < |b| then j else j - 1];
      }
    }
  }

  /** An empty hole where k belongs means no node has key k, and a node with key k may fill it. */
  lemma EmptyHole(x: Ctx, n: Node)
    requires Around(x, n.key) && Sorted(Inorder(Plug(x, Leaf)))
    ensures forall m <- Nodes(Plug(x, Leaf)) :: m.key != n.key
    ensures Sorted(Inorder(Plug(x, Bin(Leaf, n, Red, Leaf))))
    ensures OneOut(Inorder(Plug(x, Bin(Leaf, n, Red, Leaf))), n, Inorder(Plug(x, Leaf)))
  {
    hide Plug, Sorted, Nodes, OneOut;
    var t := Bin(Leaf, n, Red, Leaf);
    PlugInorder(x, Leaf);
    PlugInorder(x, t);
    NodesInorder(Plug(x, Leaf));
    assert Inorder(Plug(x, Leaf)) == Before(x) + After(x);
    assert Inorder(t) == [n];
    SortedBetween(Before(x), n, After(x));
    OneOutAt(Before(x), n, After(x));
  }

  /** A strictly increasing sequence is determined by the nodes in it. */
  lemma {:induction false} SortedUnique(s: seq<Node>, u: seq<Node>)
    requires Sorted(s) && Sorted(u) && SetOf(s) == SetOf(u)
    ensures s == u
  {
    if s != [] {
      assert s[0] in SetOf(u);
    }
    if u != [] {
      assert u[0] in SetOf(s);
    }
    if s != [] && u != [] {
      assert s == [s[0]] + s[1..] && u == [u[0]] + u[1..];
      assert SetOf(s[1..]) == SetOf(s) - {s[0]};
      assert SetOf(u[1..]) == SetOf(u) - {u[0]};
      SortedUnique(s[1..], u[1..]);
    }
  }

  /** Taking one node out of a strictly increasing sequence. */
  lemma SortedWithout(a: seq<Node>, n: Node, b: seq<Node>)
    requires Sorted(a + [n] + b)
    ensures Sorted(a + b) && SetOf(a + b) == SetOf(a + [n] + b) - {n}
  {
    var s, u := a + [n] + b, a + b;
    assert s[|a|] == n;
    assert forall i :: 0 <= i < |u| ==> u[i] == s[if i < |a| then i else i + 1];
    forall m ensures m in u <==> m in s && m != n {
      if m in u {
        var i :| 0 <= i < |u| && u[i] == m;
        assert s[if i < |a| then i else i + 1] == m;
      }
      if m in s && m != n {
        var i :| 0 <= i < |s| && s[i] == m;
        assert u[if i < |a| then i else i - 1] == m;
      }
    }
  }
}
