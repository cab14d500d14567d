/**
 The red-black conditions of tree.h, on trees and on their surroundings, and what they
 bound: the height.
 */
module RedBlackBalance {
  import opened Powers
  import opened RedBlackShape

  function Weight(c: Color): nat { if c.Black? then 1 else 0 }

  function BlackHeight(t: Tree): nat {
    match t
    case Leaf => 0
    case Bin(l, _, c, _) => BlackHeight(l) + Weight(c)
  }

  /** Every path down consists of the same number of black nodes. */
  predicate Balanced(t: Tree) {
    match t
    case Leaf => true
    case Bin(l, _, _, r) => BlackHeight(l) == BlackHeight(r) && Balanced(l) && Balanced(r)
  }

  /** The black nodes on the path that turns left at true, right at false; it must end at a leaf. */
  function BlackOn(t: Tree, path: seq<bool>): nat {
    if t.Leaf? || path == [] then 0
    else Weight(t.c) + BlackOn(if path[0] then t.l else t.r, path[1..])
  }

  predicate ToLeaf(t: Tree, path: seq<bool>) {
    if t.Leaf? then path == [] else path != [] && ToLeaf(if path[0] then t.l else t.r, path[1..])
  }

  ghost predicate SamePaths(t: Tree) {
    forall p, q :: ToLeaf(t, p) && ToLeaf(t, q) ==> BlackOn(t, p) == BlackOn(t, q)
  }

  /** A tree is balanced if and only if all paths from its root to a leaf have the same number of black nodes. */
  lemma BalancedPaths(t: Tree)
    ensures Balanced(t) <==> SamePaths(t)
  {
    if Balanced(t) {
      forall p, q | ToLeaf(t, p) && ToLeaf(t, q) ensures BlackOn(t, p) == BlackOn(t, q) {
        PathBlack(t, p);
        PathBlack(t, q);
      }
    }
    if SamePaths(t) {
      SameBalanced(t);
    }
  }

  lemma {:induction false} SameBalanced(t: Tree)
    requires SamePaths(t)
    ensures Balanced(t)
  {
    hide SamePaths;
    if t.Bin? {
      SidePaths(t, true);
      SidePaths(t, false);
      SameBalanced(t.l);
      SameBalanced(t.r);
      SameHeights(t);
    }
  }

  lemma SameHeights(t: Tree)
    requires t.Bin? && SamePaths(t) && Balanced(t.l) && Balanced(t.r)
    ensures BlackHeight(t.l) == BlackHeight(t.r)
  {
    hide SamePaths, Balanced, BlackHeight;
    var p, q := Leftmost(t.l), Leftmost(t.r);
    PathBlack(t.l, p);
    PathBlack(t.r, q);
    var p', q' := [true] + p, [false] + q;
    assert p'[1..] == p && q'[1..] == q;
    UsePaths(t, p', q');
  }

  lemma UsePaths(t: Tree, p: seq<bool>, q: seq<bool>)
    requires SamePaths(t) && ToLeaf(t, p) && ToLeaf(t, q)
    ensures BlackOn(t, p) == BlackOn(t, q)
  {
  }

  function Leftmost(t: Tree): (p: seq<bool>)
    ensures ToLeaf(t, p)
  {
    if t.Leaf? then [] else
    var p := [true] + Leftmost(t.l);
    assert p[1..] == Leftmost(t.l);
    p
  }

  lemma SidePaths(t: Tree, left: bool)
    requires t.Bin? && SamePaths(t)
    ensures SamePaths(if left then t.l else t.r)
  {
    var s := if left then t.l else t.r;
    forall p, q | ToLeaf(s, p) && ToLeaf(s, q) ensures BlackOn(s, p) == BlackOn(s, q) {
      SidePath(t, left, p, q);
    }
  }

  lemma SidePath(t: Tree, left: bool, p: seq<bool>, q: seq<bool>)
    requires t.Bin? && SamePaths(t)
    requires ToLeaf(if left then t.l else t.r, p) && ToLeaf(if left then t.l else t.r, q)
    ensures BlackOn(if left then t.l else t.r, p) == BlackOn(if left then t.l else t.r, q)
  {
    hide SamePaths;
    var p', q' := [left] + p, [left] + q;
    assert p'[1..] == p && q'[1..] == q;
    UsePaths(t, p', q');
  }

  lemma {:induction false} PathBlack(t: Tree, p: seq<bool>)
    requires Balanced(t) && ToLeaf(t, p)
    ensures BlackOn(t, p) == BlackHeight(t)
  {
    if t.Bin? { PathBlack(if p[0] then t.l else t.r, p[1..]); }
  }

  predicate IsRed(t: Tree) { t.Bin? && t.c.Red? }

  /** Each red node has a black parent. */
  predicate NoRedRed(t: Tree) {
    match t
    case Leaf => true
    case Bin(l, _, c, r) => (c.Red? ==> !IsRed(l) && !IsRed(r)) && NoRedRed(l) && NoRedRed(r)
  }

  predicate Colored(t: Tree) { Balanced(t) && NoRedRed(t) }

  /** The conditions of tree.h; operations also keep the root black. */
  predicate RedBlack(t: Tree) { Colored(t) && !IsRed(t) }

  predicate RedAbove(x: Ctx) { !x.Top? && x.c.Red? }

  /** x meets the conditions if a black tree of black height h fills its hole. */
  predicate ColoredC(x: Ctx, h: nat) {
    match x
    case Top => true
    case LeftOf(up, _, c, r) =>
      && Colored(r) && BlackHeight(r) == h
      && (c.Red? ==> !IsRed(r) && !up.Top? && !RedAbove(up))
      && ColoredC(up, h + Weight(c))
    case RightOf(l, _, c, up) =>
      && Colored(l) && BlackHeight(l) == h
      && (c.Red? ==> !IsRed(l) && !up.Top? && !RedAbove(up))
      && ColoredC(up, h + Weight(c))
  }

  lemma {:induction false} PlugRedBlack(x: Ctx, t: Tree)
    requires Colored(t) && ColoredC(x, BlackHeight(t))
    requires IsRed(t) ==> !x.Top? && !RedAbove(x)
    ensures RedBlack(Plug(x, t))
    decreases x
  {
    match x
    case Top =>
    case LeftOf(up, n, c, r) => PlugRedBlack(up, Bin(t, n, c, r));
    case RightOf(l, n, c, up) => PlugRedBlack(up, Bin(l, n, c, t));
  }

  /** Conversely, a subtree of a red-black tree and its surroundings meet the conditions. */
  lemma {:induction false} UnplugRedBlack(x: Ctx, t: Tree)
    requires RedBlack(Plug(x, t))
    ensures Colored(t) && ColoredC(x, BlackHeight(t))
    ensures IsRed(t) ==> !x.Top? && !RedAbove(x)
    decreases x
  {
    hide BlackHeight, Balanced, NoRedRed;
    match x
    case Top =>
    case LeftOf(up, n, c, r) =>
      UnplugRedBlack(up, Bin(t, n, c, r));
      UnplugOne(x, t, Bin(t, n, c, r));
    case RightOf(l, n, c, up) =>
      UnplugRedBlack(up, Bin(l, n, c, t));
      UnplugOne(x, t, Bin(l, n, c, t));
  }

  lemma UnplugOne(x: Ctx, t: Tree, b: Tree)
    requires !x.Top? && b == (if x.LeftOf? then Bin(t, x.n, x.c, x.r) else Bin(x.l, x.n, x.c, t))
    requires Colored(b) && ColoredC(x.up, BlackHeight(b))
    requires IsRed(b) ==> !x.up.Top? && !RedAbove(x.up)
    ensures Colored(t) && ColoredC(x, BlackHeight(t))
    ensures IsRed(t) ==> !x.Top? && !RedAbove(x)
  {
  }

  function Size(t: Tree): nat {
    match t
    case Leaf => 0
    case Bin(l, _, _, r) => Size(l) + 1 + Size(r)
  }

  lemma {:induction false} SizeInorder(t: Tree)
    ensures Size(t) == |Inorder(t)|
  {
    if t.Bin? {
      SizeInorder(t.l);
      SizeInorder(t.r);
    }
  }

  function Height(t: Tree): nat {
    match t
    case Leaf => 0
    case Bin(l, _, _, r) => 1 + if Height(l) < Height(r) then Height(r) else Height(l)
  }

  lemma {:induction false} SizeBound(t: Tree)
    requires Balanced(t)
    ensures Pow2(BlackHeight(t)) <= Size(t) + 1
  {
    match t
    case Leaf =>
    case Bin(l, _, _, r) =>
      SizeBound(l);
      SizeBound(r);
  }

  lemma {:induction false} HeightByBlackHeight(t: Tree)
    requires Colored(t)
    ensures Height(t) <= 2 * BlackHeight(t) + if IsRed(t) then 1 else 0
  {
    match t
    case Leaf =>
    case Bin(l, _, _, r) =>
      HeightByBlackHeight(l);
      HeightByBlackHeight(r);
  }

  /** The height is at most 2 lg(n + 1): 2 to the height is at most the square of n + 1. */
  lemma HeightBound(t: Tree)
    requires RedBlack(t)
    ensures Pow2(Height(t)) <= (Size(t) + 1) * (Size(t) + 1)
  {
    var b, n := BlackHeight(t), Size(t) + 1;
    SizeBound(t);
    HeightByBlackHeight(t);
    Pow2Monotone(Height(t), b + b);
    Pow2Add(b, b);
    assert Pow2(b) * Pow2(b) <= n * n by { Square(Pow2(b), n); }
  }

  lemma Square(a: nat, b: nat)
    requires a <= b
    ensures a * a <= b * b
  {
    assert a * a <= a * b <= b * b;
  }

  function RotatedLeft(t: Tree): (u: Tree)
    requires t.Bin? && t.r.Bin?
    ensures Inorder(u) == Inorder(t) && Nodes(u) == Nodes(t)
  {
    Bin(Bin(t.l, t.n, t.c, t.r.l), t.r.n, t.r.c, t.r.r)
  }

  function RotatedRight(t: Tree): (u: Tree)
    requires t.Bin? && t.l.Bin?
    ensures Inorder(u) == Inorder(t) && Nodes(u) == Nodes(t)
  {
    Bin(t.l.l, t.l.n, t.l.c, Bin(t.l.r, t.n, t.c, t.r))
  }

  /** What the loop of RB_INSERT_COLOR keeps: t is red, and only its root may have a red parent. */
  predicate InsertInv(x: Ctx, t: Tree) { IsRed(t) && Colored(t) && ColoredC(x, BlackHeight(t)) }

  /** The zipper after the rotations of RB_INSERT_COLOR, parent being a left child. */
  function InsertParentLeft(x: Ctx, t: Tree): Tree
    requires !x.Top? && t.Bin?
  {
    if x.LeftOf? then Fill(x, t) else RotatedLeft(Fill(x, t))
  }

  /** The grandparent is black and the uncle as black as t. */
  lemma UncleOf(x: Ctx, t: Tree)
    requires InsertInv(x, t) && RedAbove(x)
    ensures !x.up.Top? && x.up.c.Black? && ColoredC(x.up.up, BlackHeight(t) + 1)
    ensures x.up.LeftOf? ==> Colored(x.up.r) && BlackHeight(x.up.r) == BlackHeight(t)
    ensures x.up.RightOf? ==> Colored(x.up.l) && BlackHeight(x.up.l) == BlackHeight(t)
  {
    assert ColoredC(x.up, BlackHeight(t));
  }

  lemma Regroup3<T>(a: seq<T>, b: seq<T>, c: seq<T>, d: seq<T>, e: seq<T>)
    ensures (a + b + c) + d + e == a + b + (c + d + e)
  {
  }

  /** The other child of a red parent is as black as t. */
  lemma BesideOf(x: Ctx, t: Tree)
    requires InsertInv(x, t) && RedAbove(x)
    ensures Colored(Sibling(x)) && BlackHeight(Sibling(x)) == BlackHeight(t) && !IsRed(Sibling(x))
  {
    hide Colored, BlackHeight;
  }

  lemma CloseLeftOf(r: Tree, up: Ctx, h: nat, n: Node)
    requires Colored(r) && BlackHeight(r) == h && ColoredC(up, h + 1)
    ensures ColoredC(LeftOf(up, n, Black, r), h)
  {
    hide Colored, BlackHeight;
  }

  lemma CloseRightOf(l: Tree, up: Ctx, h: nat, n: Node)
    requires Colored(l) && BlackHeight(l) == h && ColoredC(up, h + 1)
    ensures ColoredC(RightOf(l, n, Black, up), h)
  {
    hide Colored, BlackHeight;
  }

  lemma InsertedLeftColors(x: Ctx, t: Tree)
    requires InsertInv(x, t) && RedAbove(x) && x.up.LeftOf? && !IsRed(x.up.r)
    ensures var p := InsertParentLeft(x, t);
            InsertInv(LeftOf(x.up.up, p.n, Black, Bin(p.r, x.up.n, Red, x.up.r)), p.l)
  {
    hide Plug, Inorder, Nodes, ColoredC;
    var p := InsertParentLeft(x, t);
    UncleOf(x, t);
    BesideOf(x, t);
    assert Colored(p.l) && Colored(p.r) && BlackHeight(p.r) == BlackHeight(p.l) == BlackHeight(t) && !IsRed(p.r);
    CloseLeftOf(Bin(p.r, x.up.n, Red, x.up.r), x.up.up, BlackHeight(t), p.n);
  }

  lemma InsertedLeft(x: Ctx, t: Tree)
    requires InsertInv(x, t) && RedAbove(x) && x.up.LeftOf? && !IsRed(x.up.r)
    ensures var p := InsertParentLeft(x, t);
            var y := LeftOf(x.up.up, p.n, Black, Bin(p.r, x.up.n, Red, x.up.r));
            InsertInv(y, p.l) && Inorder(Plug(y, p.l)) == Inorder(Plug(x, t))
  {
    hide ColoredC, Colored, Plug, Nodes;
    var p := InsertParentLeft(x, t);
    var y := LeftOf(x.up.up, p.n, Black, Bin(p.r, x.up.n, Red, x.up.r));
    InsertedLeftColors(x, t);
    SameInorder(x.up, Fill(x, t), p);
    Regroup3(Inorder(p.l), [p.n], Inorder(p.r), [x.up.n], Inorder(x.up.r));
    SameInorder(x.up.up, Fill(x.up, p), Fill(y, p.l));
  }

  function InsertParentRight(x: Ctx, t: Tree): Tree
    requires !x.Top? && t.Bin?
  {
    if x.RightOf? then Fill(x, t) else RotatedRight(Fill(x, t))
  }

  lemma InsertedRightColors(x: Ctx, t: Tree)
    requires InsertInv(x, t) && RedAbove(x) && x.up.RightOf? && !IsRed(x.up.l)
    ensures var p := InsertParentRight(x, t);
            InsertInv(RightOf(Bin(x.up.l, x.up.n, Red, p.l), p.n, Black, x.up.up), p.r)
  {
    hide Plug, Inorder, Nodes, ColoredC;
    var p := InsertParentRight(x, t);
    UncleOf(x, t);
    BesideOf(x, t);
    assert Colored(p.l) && Colored(p.r) && BlackHeight(p.r) == BlackHeight(p.l) == BlackHeight(t) && !IsRed(p.l);
    CloseRightOf(Bin(x.up.l, x.up.n, Red, p.l), x.up.up, BlackHeight(t), p.n);
  }

  lemma InsertedRight(x: Ctx, t: Tree)
    requires InsertInv(x, t) && RedAbove(x) && x.up.RightOf? && !IsRed(x.up.l)
    ensures var p := InsertParentRight(x, t);
            var y := RightOf(Bin(x.up.l, x.up.n, Red, p.l), p.n, Black, x.up.up);
            InsertInv(y, p.r) && Inorder(Plug(y, p.r)) == Inorder(Plug(x, t))
  {
    hide ColoredC, Colored, Plug, Nodes;
    var p := InsertParentRight(x, t);
    var y := RightOf(Bin(x.up.l, x.up.n, Red, p.l), p.n, Black, x.up.up);
    InsertedRightColors(x, t);
    SameInorder(x.up, Fill(x, t), p);
    Regroup3(Inorder(x.up.l), [x.up.n], Inorder(p.l), [p.n], Inorder(p.r));
    SameInorder(x.up.up, Fill(x.up, p), Fill(y, p.r));
  }

  /** The grandparent after its two children turned black. */
  function Recolored(g: Tree): Tree
    requires g.Bin? && g.l.Bin? && g.r.Bin?
  {
    Bin(g.l.(c := Black), g.n, Red, g.r.(c := Black))
  }

  lemma InsertedRecolor(x: Ctx, t: Tree)
    requires InsertInv(x, t) && RedAbove(x)
    requires !x.up.Top? && IsRed(if x.up.LeftOf? then x.up.r else x.up.l)
    ensures var g := Fill(x.up, Fill(x, t));
            InsertInv(x.up.up, Recolored(g)) && Inorder(Plug(x.up.up, Recolored(g))) == Inorder(Plug(x, t))
  {
    var p := Fill(x, t);
    var g := Fill(x.up, p);
    assert InsertInv(x.up.up, Recolored(g)) by {
      hide Plug, Inorder;
      UncleOf(x, t);
      var s := if x.up.LeftOf? then x.up.r else x.up.l;
      assert Colored(p.(c := Black)) && BlackHeight(p.(c := Black)) == BlackHeight(t) + 1;
      assert Colored(s.(c := Black)) && BlackHeight(s.(c := Black)) == BlackHeight(t) + 1;
    }
    SameInorder(x.up.up, g, Recolored(g));
  }

  /** Blackening the root ends RB_INSERT_COLOR. */
  lemma InsertedRoot(x: Ctx, t: Tree)
    requires InsertInv(x, t) && !RedAbove(x)
    ensures Plug(x, t).Bin? && RedBlack(Plug(x, t).(c := Black))
  {
    if x.Top? {
      assert Colored(t.(c := Black));
    } else {
      PlugRedBlack(x, t);
      PlugBin(x, t);
    }
  }

  lemma {:induction false} PlugBin(x: Ctx, t: Tree)
    requires t.Bin?
    ensures Plug(x, t).Bin?
  {
    if !x.Top? { PlugBin(x.up, Fill(x, t)); }
  }

  lemma Singleton(x: Ctx, n: Node)
    requires ColoredC(x, BlackHeight(Leaf))
    ensures InsertInv(x, Bin(Leaf, n, Red, Leaf)) && Nodes(Bin(Leaf, n, Red, Leaf)) == {n} && Nodes(Leaf) == {}
  {
  }
}
