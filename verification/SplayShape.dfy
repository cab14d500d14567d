/**
 The shape of a splay tree, and of the two trees SPLAY builds while it descends: the
 nodes already known to be smaller hang along the right spine of one, the larger ones
 along the left spine of the other, both headed by the local node of SPLAY.
 */
module SplayShape {

  /** A tree element with its SPLAY_ENTRY. Elements are compared by key. */
  class Node {
    const key: int
    var left: Node?
    var right: Node?

    constructor (key: int)
      ensures this.key == key && left == null && right == null
    {
      this.key := key;
      left, right := null, null;
    }
  }

  datatype Tree = Leaf | Bin(l: Tree, n: Node, r: Tree)

  /** A spine, its last node outermost: each node carries the subtree on its other side. */
  datatype Spine = Nil | Snoc(rest: Spine, n: Node, t: Tree)

  function Nodes(t: Tree): set<Node> {
    match t
    case Leaf => {}
    case Bin(l, n, r) => Nodes(l) + {n} + Nodes(r)
  }

  function NodesS(s: Spine): set<Node> {
    match s
    case Nil => {}
    case Snoc(rest, n, t) => NodesS(rest) + {n} + Nodes(t)
  }

  function Inorder(t: Tree): seq<Node> {
    match t
    case Leaf => []
    case Bin(l, n, r) => Inorder(l) + [n] + Inorder(r)
  }

  /** The nodes of the smaller tree in order, and of the larger one. */
  function Smaller(s: Spine): seq<Node> {
    match s
    case Nil => []
    case Snoc(rest, n, t) => Smaller(rest) + Inorder(t) + [n]
  }

  function Larger(s: Spine): seq<Node> {
    match s
    case Nil => []
    case Snoc(rest, n, t) => [n] + Inorder(t) + Larger(rest)
  }

  /** The node the next one will be linked to. */
  function Last(hd: Node, s: Spine): (n: Node)
    ensures n == hd || n in NodesS(s)
  {
    if s.Nil? then hd else s.n
  }

  ghost predicate Rep(p: Node?, t: Tree)
    reads Nodes(t)
  {
    match t
    case Leaf => p == null
    case Bin(l, n, r) =>
      && p == n && n !in Nodes(l) && n !in Nodes(r) && Nodes(l) !! Nodes(r)
      && Rep(n.left, l) && Rep(n.right, r)
  }

  /** hd heads the smaller tree, linked through right; the last right is still to be set. */
  ghost predicate RepS(hd: Node, s: Spine)
    reads hd`right, NodesS(s)
  {
    match s
    case Nil => true
    case Snoc(rest, n, t) =>
      && n != hd && n !in NodesS(rest) && n !in Nodes(t) && NodesS(rest) !! Nodes(t) && hd !in Nodes(t)
      && Last(hd, rest).right == n && Rep(n.left, t) && RepS(hd, rest)
  }

  /** hd heads the larger tree, linked through left; the last left is still to be set. */
  ghost predicate RepL(hd: Node, s: Spine)
    reads hd`left, NodesS(s)
  {
    match s
    case Nil => true
    case Snoc(rest, n, t) =>
      && n != hd && n !in NodesS(rest) && n !in Nodes(t) && NodesS(rest) !! Nodes(t) && hd !in Nodes(t)
      && Last(hd, rest).left == n && Rep(n.right, t) && RepL(hd, rest)
  }

  /** The smaller tree once t hangs at its end, and the larger one. */
  function BuildS(s: Spine, t: Tree): Tree {
    match s
    case Nil => t
    case Snoc(rest, n, l) => BuildS(rest, Bin(l, n, t))
  }

  function BuildL(s: Spine, t: Tree): Tree {
    match s
    case Nil => t
    case Snoc(rest, n, r) => BuildL(rest, Bin(t, n, r))
  }

  lemma {:induction false} BuiltS(hd: Node, s: Spine, p: Node?, t: Tree)
    requires RepS(hd, s) && Last(hd, s).right == p && Rep(p, t)
    requires NodesS(s) !! Nodes(t) && hd !in NodesS(s) && hd !in Nodes(t)
    ensures Rep(hd.right, BuildS(s, t)) && Nodes(BuildS(s, t)) == NodesS(s) + Nodes(t)
    decreases s
  {
    if s.Snoc? { BuiltS(hd, s.rest, s.n, Bin(s.t, s.n, t)); }
  }

  lemma {:induction false} BuiltL(hd: Node, s: Spine, p: Node?, t: Tree)
    requires RepL(hd, s) && Last(hd, s).left == p && Rep(p, t)
    requires NodesS(s) !! Nodes(t) && hd !in NodesS(s) && hd !in Nodes(t)
    ensures Rep(hd.left, BuildL(s, t)) && Nodes(BuildL(s, t)) == NodesS(s) + Nodes(t)
    decreases s
  {
    if s.Snoc? { BuiltL(hd, s.rest, s.n, Bin(t, s.n, s.t)); }
  }

  lemma {:induction false} BuiltSmaller(s: Spine, t: Tree)
    ensures Inorder(BuildS(s, t)) == Smaller(s) + Inorder(t)
    decreases s
  {
    if s.Snoc? { BuiltSmaller(s.rest, Bin(s.t, s.n, t)); }
  }

  lemma {:induction false} BuiltLarger(s: Spine, t: Tree)
    ensures Inorder(BuildL(s, t)) == Inorder(t) + Larger(s)
    decreases s
  {
    if s.Snoc? { BuiltLarger(s.rest, Bin(t, s.n, s.t)); }
  }

  function Ptr(t: Tree): Node? { if t.Bin? then t.n else null }

  lemma OpenBin(p: Node?, t: Tree)
    requires t.Bin? && Rep(p, t)
    ensures p == t.n && t.n !in Nodes(t.l) && t.n !in Nodes(t.r) && Nodes(t.l) !! Nodes(t.r)
    ensures Nodes(t) == Nodes(t.l) + {t.n} + Nodes(t.r)
    ensures Rep(t.n.left, t.l) && Rep(t.n.right, t.r) && t.n.left == Ptr(t.l) && t.n.right == Ptr(t.r)
  {
  }

  lemma CloseBin(n: Node, l: Tree, r: Tree)
    requires n !in Nodes(l) && n !in Nodes(r) && Nodes(l) !! Nodes(r) && Rep(n.left, l) && Rep(n.right, r)
    ensures Rep(n, Bin(l, n, r)) && Nodes(Bin(l, n, r)) == Nodes(l) + {n} + Nodes(r)
  {
  }

  lemma OpenLeaf(p: Node?, t: Tree)
    requires Rep(p, t)
    ensures p == Ptr(t) && (t.Leaf? ==> Nodes(t) == {})
  {
  }

  lemma CloseS(hd: Node, s: Spine, n: Node, t: Tree)
    requires RepS(hd, s) && Last(hd, s).right == n && Rep(n.left, t)
    requires n != hd && n !in NodesS(s) && n !in Nodes(t) && NodesS(s) !! Nodes(t) && hd !in Nodes(t)
    ensures RepS(hd, Snoc(s, n, t)) && NodesS(Snoc(s, n, t)) == NodesS(s) + {n} + Nodes(t)
  {
  }

  lemma CloseL(hd: Node, s: Spine, n: Node, t: Tree)
    requires RepL(hd, s) && Last(hd, s).left == n && Rep(n.right, t)
    requires n != hd && n !in NodesS(s) && n !in Nodes(t) && NodesS(s) !! Nodes(t) && hd !in Nodes(t)
    ensures RepL(hd, Snoc(s, n, t)) && NodesS(Snoc(s, n, t)) == NodesS(s) + {n} + Nodes(t)
  {
  }

  /** The three trees of SPLAY while it runs: smaller, larger, and the middle one under root. */
  ghost predicate Parts(root: Node?, hd: Node, sm: Spine, lg: Spine, m: Tree)
    reads hd, NodesS(sm), NodesS(lg), Nodes(m)
  {
    && RepS(hd, sm) && RepL(hd, lg) && Rep(root, m)
    && hd !in NodesS(sm) && hd !in NodesS(lg) && hd !in Nodes(m)
    && NodesS(sm) !! NodesS(lg) && NodesS(sm) !! Nodes(m) && NodesS(lg) !! Nodes(m)
  }
}
