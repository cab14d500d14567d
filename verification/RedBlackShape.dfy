/**
 The shape of a red-black tree: its nodes, the algebraic tree they spell, and the
 surroundings of one position in it (a zipper), with the two predicates that tie them
 to the left, right, parent and colour fields of the nodes.
 */
module RedBlackShape {

  datatype Color = Red | Black

  /** A tree element with its RB_ENTRY. Elements are compared by key. */
  class Node {
    const key: int
    var left: Node?
    var right: Node?
    var parent: Node?
    var color: Color

    constructor (key: int)
      ensures this.key == key
    {
      this.key := key;
      left, right, parent, color := null, null, null, Black;
    }
  }

  datatype Tree = Leaf | Bin(l: Tree, n: Node, c: Color, r: Tree)

  /** A tree with a hole: what surrounds the hole, innermost node first. */
  datatype Ctx =
    | Top
    | LeftOf(up: Ctx, n: Node, c: Color, r: Tree)   // the hole is the left child of n
    | RightOf(l: Tree, n: Node, c: Color, up: Ctx)  // the hole is the right child of n

  function Nodes(t: Tree): set<Node> {
    match t
    case Leaf => {}
    case Bin(l, n, _, r) => Nodes(l) + {n} + Nodes(r)
  }

  function NodesC(x: Ctx): set<Node> {
    match x
    case Top => {}
    case LeftOf(up, n, _, r) => NodesC(up) + {n} + Nodes(r)
    case RightOf(l, n, _, up) => Nodes(l) + {n} + NodesC(up)
  }

  function Inorder(t: Tree): seq<Node> {
    match t
    case Leaf => []
    case Bin(l, n, _, r) => Inorder(l) + [n] + Inorder(r)
  }

  /** The in-order sequence before and after the hole. */
  function Before(x: Ctx): seq<Node> {
    match x
    case Top => []
    case LeftOf(up, _, _, _) => Before(up)
    case RightOf(l, n, _, up) => Before(up) + Inorder(l) + [n]
  }

  function After(x: Ctx): seq<Node> {
    match x
    case Top => []
    case LeftOf(up, n, _, r) => [n] + Inorder(r) + After(up)
    case RightOf(_, _, _, up) => After(up)
  }

  function Plug(x: Ctx, t: Tree): Tree {
    match x
    case Top => t
    case LeftOf(up, n, c, r) => Plug(up, Bin(t, n, c, r))
    case RightOf(l, n, c, up) => Plug(up, Bin(l, n, c, t))
  }

  function Depth(x: Ctx): nat {
    match x
    case Top => 0
    case LeftOf(up, _, _, _) => 1 + Depth(up)
    case RightOf(_, _, _, up) => 1 + Depth(up)
  }

  /** The node whose child the hole is. */
  function Above(x: Ctx, top: Node?): Node? {
    match x
    case Top => top
    case LeftOf(_, n, _, _) => n
    case RightOf(_, n, _, _) => n
  }

  /** What points at t. */
  function Ptr(t: Tree): Node? { if t.Bin? then t.n else null }

  /** From p, whose parent is par, the heap spells t. */
  ghost predicate Rep(p: Node?, par: Node?, t: Tree)
    reads Nodes(t)
  {
    match t
    case Leaf => p == null
    case Bin(l, n, c, r) =>
      && p == n && n.parent == par && n.color == c
      && n !in Nodes(l) && n !in Nodes(r) && Nodes(l) !! Nodes(r)
      && Rep(n.left, n, l) && Rep(n.right, n, r)
  }

  /** From root, whose parent is rootPar, the heap spells x, with p in the hole; par is p's parent. */
  ghost predicate RepC(root: Node?, rootPar: Node?, p: Node?, par: Node?, x: Ctx)
    reads NodesC(x)
  {
    match x
    case Top => root == p && rootPar == par
    case LeftOf(up, n, c, r) =>
      && par == n && n.left == p && n.color == c
      && n !in NodesC(up) && n !in Nodes(r) && NodesC(up) !! Nodes(r)
      && Rep(n.right, n, r) && RepC(root, rootPar, n, n.parent, up)
    case RightOf(l, n, c, up) =>
      && par == n && n.right == p && n.color == c
      && n !in NodesC(up) && n !in Nodes(l) && NodesC(up) !! Nodes(l)
      && Rep(n.left, n, l) && RepC(root, rootPar, n, n.parent, up)
  }

  lemma {:induction false} PlugInorder(x: Ctx, t: Tree)
    ensures Inorder(Plug(x, t)) == Before(x) + Inorder(t) + After(x)
  {
    match x
    case Top =>
    case LeftOf(up, n, c, r) => PlugInorder(up, Bin(t, n, c, r));
    case RightOf(l, n, c, up) => PlugInorder(up, Bin(l, n, c, t));
  }

  lemma {:induction false} PlugNodes(x: Ctx, t: Tree)
    ensures Nodes(Plug(x, t)) == NodesC(x) + Nodes(t)
  {
    match x
    case Top =>
    case LeftOf(up, n, c, r) => PlugNodes(up, Bin(t, n, c, r));
    case RightOf(l, n, c, up) => PlugNodes(up, Bin(l, n, c, t));
  }

  /** The heap spells the plugged tree once it spells the surroundings and what fills the hole. */
  lemma {:induction false} PlugRep(root: Node?, rootPar: Node?, p: Node?, par: Node?, x: Ctx, t: Tree)
    requires RepC(root, rootPar, p, par, x) && Rep(p, par, t) && NodesC(x) !! Nodes(t)
    ensures Rep(root, rootPar, Plug(x, t))
    decreases x
  {
    match x
    case Top =>
    case LeftOf(up, n, c, r) => PlugRep(root, rootPar, n, n.parent, up, Bin(t, n, c, r));
    case RightOf(l, n, c, up) => PlugRep(root, rootPar, n, n.parent, up, Bin(l, n, c, t));
  }

  /** One level of Rep, in both directions. */
  lemma OpenBin(p: Node?, par: Node?, t: Tree)
    requires t.Bin? && Rep(p, par, t)
    ensures p == t.n && t.n.parent == par && t.n.color == t.c
    ensures t.n !in Nodes(t.l) && t.n !in Nodes(t.r) && Nodes(t.l) !! Nodes(t.r)
    ensures Nodes(t) == Nodes(t.l) + {t.n} + Nodes(t.r)
    ensures Rep(t.n.left, t.n, t.l) && Rep(t.n.right, t.n, t.r)
  {
  }

  lemma CloseBin(n: Node, l: Tree, c: Color, r: Tree)
    requires n !in Nodes(l) && n !in Nodes(r) && Nodes(l) !! Nodes(r)
    requires n.color == c && Rep(n.left, n, l) && Rep(n.right, n, r)
    ensures Rep(n, n.parent, Bin(l, n, c, r))
    ensures Nodes(Bin(l, n, c, r)) == Nodes(l) + {n} + Nodes(r)
  {
  }

  /** The heap under root spells x with t in its hole; p points at t and par is p's parent. */
  ghost predicate Focus(root: Node?, p: Node?, par: Node?, x: Ctx, t: Tree)
    reads NodesC(x), Nodes(t)
  {
    RepC(root, null, p, par, x) && Rep(p, par, t) && NodesC(x) !! Nodes(t)
  }

  /** The subtree one level above the hole. */
  function Fill(x: Ctx, t: Tree): (f: Tree)
    requires !x.Top?
    ensures Plug(x.up, f) == Plug(x, t)
  {
    match x
    case LeftOf(_, n, c, r) => Bin(t, n, c, r)
    case RightOf(l, n, c, _) => Bin(l, n, c, t)
  }

  /** Moves the focus one level up. */
  lemma Ascend(root: Node?, p: Node?, par: Node?, x: Ctx, t: Tree)
    requires !x.Top? && Focus(root, p, par, x, t)
    ensures par == x.n && Focus(root, par, x.n.parent, x.up, Fill(x, t))
    ensures NodesC(x.up) + Nodes(Fill(x, t)) == NodesC(x) + Nodes(t)
    ensures p == if x.LeftOf? then x.n.left else x.n.right
    ensures p != null ==> p != if x.LeftOf? then x.n.right else x.n.left
    ensures p == Ptr(t)
  {
  }

  /** Moves the focus one level down. */
  lemma Descend(root: Node?, p: Node?, par: Node?, x: Ctx, t: Tree)
    requires !x.Top? && Focus(root, p, par, x.up, Fill(x, t))
    ensures p == x.n && x.n.parent == par
    ensures Focus(root, if x.LeftOf? then x.n.left else x.n.right, x.n, x, t)
    ensures Ptr(t) == (if x.LeftOf? then x.n.left else x.n.right) && (t.Bin? ==> t.n.parent == x.n)
    ensures NodesC(x.up) + Nodes(Fill(x, t)) == NodesC(x) + Nodes(t)
  {
  }

  /** Trees with the same in-order sequence may replace each other in the hole. */
  lemma SameInorder(x: Ctx, t: Tree, u: Tree)
    requires Inorder(t) == Inorder(u)
    ensures Inorder(Plug(x, t)) == Inorder(Plug(x, u))
  {
    PlugInorder(x, t);
    PlugInorder(x, u);
  }

  function SetOf(s: seq<Node>): set<Node> { set n | n in s }

  lemma {:induction false} NodesInorder(t: Tree)
    ensures Nodes(t) == SetOf(Inorder(t))
  {
    match t
    case Leaf =>
    case Bin(l, n, _, r) =>
      NodesInorder(l);
      NodesInorder(r);
  }

  /** What the fields around a focus say. */
  lemma Surroundings(root: Node?, p: Node?, par: Node?, x: Ctx, t: Tree)
    requires Focus(root, p, par, x, t)
    ensures par == Above(x, null) && (p == null <==> t.Leaf?) && (t.Bin? ==> p == t.n && p.parent == par && p.color == t.c)
    ensures !x.Top? ==> x.n.color == x.c && x.n.parent == Above(x.up, null)
    ensures x.LeftOf? ==> x.n.left == p && (x.n.right == null <==> x.r.Leaf?)
    ensures x.LeftOf? && x.r.Bin? ==> x.n.right == x.r.n && x.r.n.color == x.r.c
    ensures x.RightOf? ==> x.n.right == p && (x.n.left == null <==> x.l.Leaf?)
    ensures x.RightOf? && x.l.Bin? ==> x.n.left == x.l.n && x.l.n.color == x.l.c
  {
    if !x.Top? {
      assert RepC(root, null, x.n, x.n.parent, x.up);
    }
  }

  lemma OpenTop(root: Node?, p: Node?, par: Node?, t: Tree)
    requires p == root && par == null && Rep(p, par, t)
    ensures Focus(root, p, par, Top, t) && Plug(Top, t) == t && NodesC(Top) == {}
    ensures Before(Top) == After(Top) == []
  {
  }

  /** The surroundings of the sibling of the hole of x, t being in the hole. */
  function Across(x: Ctx, t: Tree): Ctx
    requires !x.Top?
  {
    match x
    case LeftOf(up, n, c, _) => RightOf(t, n, c, up)
    case RightOf(_, n, c, up) => LeftOf(up, n, c, t)
  }

  function Sibling(x: Ctx): Tree
    requires !x.Top?
  {
    if x.LeftOf? then x.r else x.l
  }

  /** Moves the focus to the sibling. */
  lemma Sidestep(root: Node?, p: Node?, par: Node?, x: Ctx, t: Tree)
    requires !x.Top? && Focus(root, p, par, x, t)
    ensures p == Ptr(t) && par == x.n && par.color == x.c && Fill(Across(x, t), Sibling(x)) == Fill(x, t)
    ensures Focus(root, if x.LeftOf? then x.n.right else x.n.left, par, Across(x, t), Sibling(x))
    ensures Sibling(x).Bin? ==> Sibling(x).n.parent == par && Sibling(x).n == if x.LeftOf? then x.n.right else x.n.left
    ensures NodesC(Across(x, t)) + Nodes(Sibling(x)) == NodesC(x) + Nodes(t)
    ensures Sibling(x).Bin? ==> Sibling(x).n in NodesC(x) && Sibling(x).n.color == Sibling(x).c
  {
    var f := Fill(x, t);
    Ascend(root, p, par, x, t);
    Descend(root, par, par.parent, Across(x, t), Sibling(x));
  }

  /** The children of the node in focus. */
  lemma Children(root: Node?, p: Node?, par: Node?, x: Ctx, t: Tree)
    requires t.Bin? && Focus(root, p, par, x, t)
    ensures p == t.n && p.color == t.c && p.parent == par
    ensures t.n.left == Ptr(t.l) && t.n.right == Ptr(t.r)
    ensures t.l.Bin? ==> t.l.n.color == t.l.c && t.l.n in Nodes(t)
    ensures t.r.Bin? ==> t.r.n.color == t.r.c && t.r.n in Nodes(t)
  {
    assert Rep(t.n.left, t.n, t.l) && Rep(t.n.right, t.n, t.r);
  }

  /** The root lies in the surroundings of any other position. */
  lemma {:induction false} RootAbove(root: Node?, rootPar: Node?, p: Node?, par: Node?, x: Ctx)
    requires !x.Top? && RepC(root, rootPar, p, par, x)
    ensures root != null && root in NodesC(x)
    decreases x
  {
    if !x.up.Top? { RootAbove(root, rootPar, x.n, x.n.parent, x.up); }
  }

  /** y within b. */
  function Graft(y: Ctx, b: Ctx): Ctx {
    match y
    case Top => b
    case LeftOf(up, n, c, r) => LeftOf(Graft(up, b), n, c, r)
    case RightOf(l, n, c, up) => RightOf(l, n, c, Graft(up, b))
  }

  lemma {:induction false} PlugGraft(y: Ctx, b: Ctx, t: Tree)
    ensures Plug(Graft(y, b), t) == Plug(b, Plug(y, t))
    decreases y
  {
    if !y.Top? { PlugGraft(y.up, b, Fill(y, t)); }
  }

  /** Moves the focus up from the hole of y within b to the hole of b. */
  lemma {:induction false} Widen(root: Node?, p: Node?, par: Node?, y: Ctx, b: Ctx, t: Tree) returns (q: Node?, qp: Node?)
    requires Focus(root, p, par, Graft(y, b), t)
    ensures Focus(root, q, qp, b, Plug(y, t))
    ensures NodesC(b) + Nodes(Plug(y, t)) == NodesC(Graft(y, b)) + Nodes(t)
    decreases y
  {
    if y.Top? {
      return p, par;
    }
    Ascend(root, p, par, Graft(y, b), t);
    q, qp := Widen(root, par, par.parent, y.up, b, Fill(y, t));
  }

  /** Moves the focus down from the hole of b to the hole of y within b. */
  lemma {:induction false} Narrow(root: Node?, q: Node?, qp: Node?, y: Ctx, b: Ctx, t: Tree)
    requires Focus(root, q, qp, b, Plug(y, t))
    ensures Focus(root, Ptr(t), Above(y, qp), Graft(y, b), t)
    ensures NodesC(b) + Nodes(Plug(y, t)) == NodesC(Graft(y, b)) + Nodes(t)
    decreases y
  {
    if !y.Top? {
      Narrow(root, q, qp, y.up, b, Fill(y, t));
      Descend(root, y.n, Above(y.up, qp), Graft(y, b), t);
    }
  }

  /** Moves the focus down to a given node. */
  lemma {:induction false} Locate(root: Node?, p: Node?, par: Node?, x: Ctx, t: Tree, n: Node) returns (y: Ctx, u: Tree)
    requires Focus(root, p, par, x, t) && n in Nodes(t)
    ensures u.Bin? && u.n == n && Focus(root, n, n.parent, y, u)
    ensures Plug(y, u) == Plug(x, t) && NodesC(y) + Nodes(u) == NodesC(x) + Nodes(t)
    decreases t
  {
    if n == t.n {
      return x, t;
    }
    y := if n in Nodes(t.l) then LeftOf(x, t.n, t.c, t.r) else RightOf(t.l, t.n, t.c, x);
    u := if n in Nodes(t.l) then t.l else t.r;
    Descend(root, p, par, y, u);
    y, u := Locate(root, Ptr(u), t.n, y, u, n);
  }

  lemma OpenPlug(t: Tree)
    ensures Plug(Top, t) == t
  {
  }

  lemma EmptyNodes()
    ensures Nodes(Leaf) == {}
  {
  }

  lemma SubtreeNodes(t: Tree)
    requires t.Bin?
    ensures Nodes(t.l) <= Nodes(t) && Nodes(t.r) <= Nodes(t)
  {
  }

  /** The parent seen from the hole of y within b. */
  lemma GraftAbove(root: Node?, p: Node?, par: Node?, y: Ctx, b: Ctx, t: Tree)
    requires Focus(root, p, par, Graft(y, b), t) && !b.Top?
    ensures par == Above(y, b.n) && (!y.Top? ==> par != b.n)
  {
    var q, qp := Widen(root, p, par, y, b, t);
    PlugNodes(y, t);
  }

  lemma Plugged(root: Node?, p: Node?, par: Node?, x: Ctx, t: Tree)
    requires Focus(root, p, par, x, t)
    ensures Rep(root, null, Plug(x, t)) && Nodes(Plug(x, t)) == NodesC(x) + Nodes(t)
  {
    PlugRep(root, null, p, par, x, t);
    PlugNodes(x, t);
  }
}
