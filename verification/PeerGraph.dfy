/** Peerings as a graph: each node's peer list. In an acyclic one, paths are unique. */
module PeerGraph {
  import opened Sequences

  /** The peer list of each node. */
  type Graph<Node(==)> = map<Node, seq<Node>>

  predicate Edge<Node>(g: Graph<Node>, u: Node, v: Node) { u in g && v in g[u] }

  /** Peers list each other, nobody lists itself, and no list has a duplicate. */
  ghost predicate Peering<Node(!new)>(g: Graph<Node>) {
    && (forall u, v :: Edge(g, u, v) ==> u != v && Edge(g, v, u))
    && (forall u :: u in g ==> Distinct(g[u]))
  }

  predicate Walk<Node>(g: Graph<Node>, p: seq<Node>) {
    p != [] && p[0] in g && forall i :: 0 <= i < |p| - 1 ==> Edge(g, p[i], p[i + 1])
  }

  predicate Path<Node>(g: Graph<Node>, p: seq<Node>) { Walk(g, p) && Distinct(p) }

  predicate Cycle<Node>(g: Graph<Node>, c: seq<Node>) {
    |c| >= 3 && Path(g, c) && Edge(g, c[|c| - 1], c[0])
  }

  ghost predicate Acyclic<Node(!new)>(g: Graph<Node>) { forall c :: !Cycle(g, c) }

  function Last<T>(s: seq<T>): T
    requires s != []
  {
    s[|s| - 1]
  }

  /** Going on to any peer but the one before does not lead back. */
  lemma NoReturn<Node(!new)>(g: Graph<Node>, p: seq<Node>, w: Node)
    requires Peering(g) && Acyclic(g) && Path(g, p) && Edge(g, Last(p), w)
    requires |p| >= 2 ==> w != p[|p| - 2]
    ensures Path(g, p + [w])
  {
    if i :| 0 <= i < |p| && p[i] == w {
      var c := p[i..];
      assert Walk(g, c);
      assert Cycle(g, c);
    }
  }

  /** The circle made of two ways from p[k - 1] that part there and meet again at p[a] == q[b]. */
  function Circle<Node>(p: seq<Node>, q: seq<Node>, k: nat, a: nat, b: nat): (c: seq<Node>)
    requires 1 <= k <= a < |p| && k <= b < |q|
    ensures |c| == (a - k + 2) + (b - k)
  {
    p[k - 1..a + 1] + seq(b - k, j requires 0 <= j < b - k => q[b - 1 - j])
  }

  lemma CircleWalk<Node(!new)>(g: Graph<Node>, p: seq<Node>, q: seq<Node>, k: nat, a: nat, b: nat)
    requires Peering(g) && Walk(g, p) && Walk(g, q)
    requires 1 <= k <= a < |p| && k <= b < |q| && p[k - 1] == q[k - 1] && p[a] == q[b]
    ensures var c := Circle(p, q, k, a, b); Walk(g, c) && Edge(g, c[|c| - 1], c[0])
  {
    var c, m := Circle(p, q, k, a, b), a - k + 2;
    assert forall i :: 0 <= i < m ==> c[i] == p[k - 1 + i];
    assert forall i :: m - 1 <= i < |c| ==> c[i] == q[b - (i - m + 1)];
    forall i | 0 <= i < |c| - 1
      ensures Edge(g, c[i], c[i + 1])
    {
      if i < m - 1 {
        assert Edge(g, p[k - 1 + i], p[k - 1 + i + 1]);
      } else {
        var j := b - (i - m + 1);
        assert Edge(g, q[j - 1], q[j]);
      }
    }
    if b == k {
      assert Edge(g, q[k - 1], q[k]);
    } else {
      assert c[|c| - 1] == q[k] && Edge(g, q[k - 1], q[k]);
    }
    WalkIn(g, p, k - 1);
  }

  lemma {:induction false} WalkIn<Node(!new)>(g: Graph<Node>, p: seq<Node>, i: nat)
    requires Peering(g) && Walk(g, p) && i < |p|
    ensures p[i] in g
  {
    if i > 0 { assert Edge(g, p[i - 1], p[i]); }
  }

  /** Two paths that part at k and meet again at p[a] == q[b], p[a] being the first of p on q, close a cycle. */
  lemma Parting<Node(!new)>(g: Graph<Node>, p: seq<Node>, q: seq<Node>, k: nat, a: nat, b: nat)
    requires Peering(g) && Path(g, p) && Path(g, q)
    requires 1 <= k <= a < |p| && k <= b < |q| && p[..k] == q[..k] && p[k] != q[k] && p[a] == q[b]
    requires forall i :: k <= i < a ==> p[i] !in q[k..]
    ensures Cycle(g, Circle(p, q, k, a, b))
  {
    var c, m := Circle(p, q, k, a, b), a - k + 2;
    assert p[k - 1] == p[..k][k - 1] == q[k - 1];
    CircleWalk(g, p, q, k, a, b);
    assert forall i :: 0 <= i < m ==> c[i] == p[k - 1 + i];
    assert forall i :: m <= i < |c| ==> c[i] == q[b - (i - m + 1)];
    forall i, j | 0 <= i < j < |c|
      ensures c[i] != c[j]
    {
      if i < m <= j {
        var t := b - (j - m + 1);
        assert q[t] == q[k..][t - k];
        if i == 0 {
          assert q[k - 1] != q[t];
        } else if i < m - 1 {
          assert p[k - 1 + i] !in q[k..];
        } else {
          assert q[t] != q[b];
        }
      }
    }
  }

  /** The length of the common prefix. */
  function Common<T(==)>(p: seq<T>, q: seq<T>): (k: nat)
    ensures k <= |p| && k <= |q| && p[..k] == q[..k]
    ensures k < |p| && k < |q| ==> p[k] != q[k]
  {
    if p == [] || q == [] || p[0] != q[0] then 0
    else
      var k := 1 + Common(p[1..], q[1..]);
      assert p[..k] == [p[0]] + p[1..][..k - 1] && q[..k] == [q[0]] + q[1..][..k - 1];
      k
  }

  /** A path passes its last node only at its end. */
  lemma PathEnds<Node>(g: Graph<Node>, p: seq<Node>, q: seq<Node>)
    requires p != [] && Path(g, q) && p <= q && Last(p) == Last(q)
    ensures p == q
  {
    assert q[|p| - 1] == q[|q| - 1];
  }

  /** In an acyclic peering there is only one path from one node to another. */
  lemma UniquePath<Node(!new)>(g: Graph<Node>, p: seq<Node>, q: seq<Node>)
    requires Peering(g) && Acyclic(g) && Path(g, p) && Path(g, q) && p[0] == q[0] && Last(p) == Last(q)
    ensures p == q
  {
    var k := Common(p, q);
    assert k >= 1;
    if k == |p| || k == |q| {
      if k == |p| { PathEnds(g, p, q); }
      if k == |q| { PathEnds(g, q, p); }
    } else {
      assert Last(p) == q[k..][|q| - 1 - k];
      var a := Meeting(p, q, k, k);
      var j :| 0 <= j < |q[k..]| && q[k..][j] == p[a];
      Parting(g, p, q, k, a, k + j);
    }
  }

  /** The first node of p from i on that lies on q[k..]. */
  lemma {:induction false} Meeting<T>(p: seq<T>, q: seq<T>, k: nat, i: nat) returns (a: nat)
    requires k <= i < |p| && k < |q| && Last(p) in q[k..]
    requires forall j :: k <= j < i ==> p[j] !in q[k..]
    ensures k <= a < |p| && p[a] in q[k..] && forall j :: k <= j < a ==> p[j] !in q[k..]
    decreases |p| - i
  {
    if p[i] in q[k..] {
      return i;
    }
    a := Meeting(p, q, k, i + 1);
  }

  /** Where a walk leads, a path leads. */
  lemma {:induction false} WalkPath<Node(!new)>(g: Graph<Node>, p: seq<Node>) returns (q: seq<Node>)
    requires Peering(g) && Walk(g, p)
    ensures Path(g, q) && q[0] == p[0] && Last(q) == Last(p)
    decreases |p|
  {
    if |p| == 1 {
      return p;
    }
    var r, v := p[..|p| - 1], Last(p);
    assert Walk(g, r) && Edge(g, Last(r), v) by { assert Edge(g, p[|p| - 2], p[|p| - 1]); }
    q := WalkPath(g, r);
    if i :| 0 <= i < |q| && q[i] == v {
      q := q[..i + 1];
    } else {
      q := q + [v];
    }
  }
}
