/** What each step of RB_REMOVE_COLOR does to the tree: one black node is missing under the hole. */
module RedBlackDelete {
  import opened Sequences
  import opened RedBlackShape
  import opened RedBlackBalance

  function Blacken(t: Tree): Tree { if t.Leaf? then Leaf else t.(c := Black) }

  /** What the loop of RB_REMOVE_COLOR keeps: t is one black node short; blackening a red root repairs it. */
  predicate DeleteInv(x: Ctx, t: Tree) { Colored(Blacken(t)) && ColoredC(x, BlackHeight(t) + 1) }

  /** The sibling exists: the fix-up loop may dereference it. */
  lemma SiblingExists(x: Ctx, t: Tree)
    requires DeleteInv(x, t) && !x.Top?
    ensures Sibling(x).Bin? && Colored(Sibling(x)) && BlackHeight(Sibling(x)) == BlackHeight(t) + 1
    ensures ColoredC(x.up, BlackHeight(t) + 1 + Weight(x.c))
    ensures x.c.Red? ==> !IsRed(Sibling(x)) && !x.up.Top? && !RedAbove(x.up)
    ensures IsRed(Sibling(x)) ==> Sibling(x).l.Bin? && Sibling(x).r.Bin? && !IsRed(Sibling(x).l) && !IsRed(Sibling(x).r)
  {
  }

  lemma DeleteDone(x: Ctx, t: Tree)
    requires DeleteInv(x, t) && (x.Top? || IsRed(t))
    ensures RedBlack(Plug(x, Blacken(t))) && Inorder(Blacken(t)) == Inorder(t) && Nodes(Blacken(t)) == Nodes(t)
  {
    PlugRedBlack(x, Blacken(t));
  }

  // The hole is a left child.

  lemma RedSiblingLeft(x: Ctx, t: Tree)
    requires DeleteInv(x, t) && !IsRed(t) && x.LeftOf? && IsRed(x.r)
    ensures var y := LeftOf(LeftOf(x.up, x.r.n, Black, x.r.r), x.n, Red, x.r.l);
            DeleteInv(y, t) && !IsRed(y.r) && Inorder(Plug(y, t)) == Inorder(Plug(x, t))
  {
    SiblingExists(x, t);
    var y := LeftOf(LeftOf(x.up, x.r.n, Black, x.r.r), x.n, Red, x.r.l);
    assert ColoredC(y.up, BlackHeight(t) + 1);
    SameInorder(x.up, Fill(x, t), Fill(y.up, Fill(y, t)));
  }

  lemma BlackNephewsLeft(x: Ctx, t: Tree)
    requires DeleteInv(x, t) && !IsRed(t) && x.LeftOf?
    requires x.r.Bin? && !IsRed(x.r) && !IsRed(x.r.l) && !IsRed(x.r.r)
    ensures var u := Bin(t, x.n, x.c, x.r.(c := Red));
            DeleteInv(x.up, u) && Inorder(Plug(x.up, u)) == Inorder(Plug(x, t))
  {
    SiblingExists(x, t);
    assert Colored(x.r.(c := Red));
    SameInorder(x.up, Fill(x, t), Bin(t, x.n, x.c, x.r.(c := Red)));
  }

  lemma NearNephewLeft(x: Ctx, t: Tree)
    requires DeleteInv(x, t) && !IsRed(t) && x.LeftOf?
    requires x.r.Bin? && !IsRed(x.r) && IsRed(x.r.l) && !IsRed(x.r.r)
    ensures var s := RotatedRight(Bin(x.r.l.(c := Black), x.r.n, Red, x.r.r));
            var y := LeftOf(x.up, x.n, x.c, s);
            DeleteInv(y, t) && !IsRed(s) && IsRed(s.r) && Inorder(Plug(y, t)) == Inorder(Plug(x, t))
  {
    SiblingExists(x, t);
    var s := RotatedRight(Bin(x.r.l.(c := Black), x.r.n, Red, x.r.r));
    var y := LeftOf(x.up, x.n, x.c, s);
    assert Colored(x.r.l) && Colored(x.r.r) && Colored(x.r.l.l) && Colored(x.r.l.r);
    assert Colored(s.r) && BlackHeight(s) == BlackHeight(t) + 1;
    assert Inorder(x.r.l.(c := Black)) == Inorder(x.r.l);
    SameInorder(x.up, Fill(x, t), Fill(y, t));
  }

  lemma FarNephewLeft(x: Ctx, t: Tree)
    requires DeleteInv(x, t) && !IsRed(t) && x.LeftOf?
    requires x.r.Bin? && !IsRed(x.r) && IsRed(x.r.r)
    ensures var u := RotatedLeft(Bin(t, x.n, Black, Bin(x.r.l, x.r.n, x.c, x.r.r.(c := Black))));
            RedBlack(Plug(x.up, u)) && Inorder(Plug(x.up, u)) == Inorder(Plug(x, t))
  {
    SiblingExists(x, t);
    var u := RotatedLeft(Bin(t, x.n, Black, Bin(x.r.l, x.r.n, x.c, x.r.r.(c := Black))));
    assert Colored(x.r.l) && Colored(x.r.r) && Colored(x.r.r.(c := Black));
    assert Colored(u.l) && BlackHeight(u) == BlackHeight(t) + 1 + Weight(x.c);
    PlugRedBlack(x.up, u);
    assert Inorder(x.r.r.(c := Black)) == Inorder(x.r.r);
    assert Inorder(Bin(x.r.l, x.r.n, x.c, x.r.r.(c := Black))) == Inorder(x.r);
    SameInorder(x.up, Fill(x, t), u);
  }

  // The hole is a right child.

  lemma RedSiblingRight(x: Ctx, t: Tree)
    requires DeleteInv(x, t) && !IsRed(t) && x.RightOf? && IsRed(x.l)
    ensures var y := RightOf(x.l.r, x.n, Red, RightOf(x.l.l, x.l.n, Black, x.up));
            DeleteInv(y, t) && !IsRed(y.l) && Inorder(Plug(y, t)) == Inorder(Plug(x, t))
  {
    SiblingExists(x, t);
    var y := RightOf(x.l.r, x.n, Red, RightOf(x.l.l, x.l.n, Black, x.up));
    assert ColoredC(y.up, BlackHeight(t) + 1);
    SameInorder(x.up, Fill(x, t), Fill(y.up, Fill(y, t)));
  }

  lemma BlackNephewsRight(x: Ctx, t: Tree)
    requires DeleteInv(x, t) && !IsRed(t) && x.RightOf?
    requires x.l.Bin? && !IsRed(x.l) && !IsRed(x.l.l) && !IsRed(x.l.r)
    ensures var u := Bin(x.l.(c := Red), x.n, x.c, t);
            DeleteInv(x.up, u) && Inorder(Plug(x.up, u)) == Inorder(Plug(x, t))
  {
    SiblingExists(x, t);
    assert Colored(x.l.(c := Red));
    SameInorder(x.up, Fill(x, t), Bin(x.l.(c := Red), x.n, x.c, t));
  }

  lemma NearNephewRight(x: Ctx, t: Tree)
    requires DeleteInv(x, t) && !IsRed(t) && x.RightOf?
    requires x.l.Bin? && !IsRed(x.l) && IsRed(x.l.r) && !IsRed(x.l.l)
    ensures var s := RotatedLeft(Bin(x.l.l, x.l.n, Red, x.l.r.(c := Black)));
            var y := RightOf(s, x.n, x.c, x.up);
            DeleteInv(y, t) && !IsRed(s) && IsRed(s.l) && Inorder(Plug(y, t)) == Inorder(Plug(x, t))
  {
    SiblingExists(x, t);
    var s := RotatedLeft(Bin(x.l.l, x.l.n, Red, x.l.r.(c := Black)));
    var y := RightOf(s, x.n, x.c, x.up);
    assert Colored(x.l.l) && Colored(x.l.r) && Colored(x.l.r.l) && Colored(x.l.r.r);
    assert Colored(s.l) && BlackHeight(s) == BlackHeight(t) + 1;
    assert Inorder(x.l.r.(c := Black)) == Inorder(x.l.r);
    SameInorder(x.up, Fill(x, t), Fill(y, t));
  }

  lemma FarNephewRight(x: Ctx, t: Tree)
    requires DeleteInv(x, t) && !IsRed(t) && x.RightOf?
    requires x.l.Bin? && !IsRed(x.l) && IsRed(x.l.l)
    ensures var u := RotatedRight(Bin(Bin(x.l.l.(c := Black), x.l.n, x.c, x.l.r), x.n, Black, t));
            RedBlack(Plug(x.up, u)) && Inorder(Plug(x.up, u)) == Inorder(Plug(x, t))
  {
    SiblingExists(x, t);
    var u := RotatedRight(Bin(Bin(x.l.l.(c := Black), x.l.n, x.c, x.l.r), x.n, Black, t));
    assert Colored(x.l.l) && Colored(x.l.r) && Colored(x.l.l.(c := Black));
    assert Colored(u.r) && BlackHeight(u) == BlackHeight(t) + 1 + Weight(x.c);
    assert Inorder(x.l.l.(c := Black)) == Inorder(x.l.l);
    assert Inorder(Bin(x.l.l.(c := Black), x.l.n, x.c, x.l.r)) == Inorder(x.l);
    PlugRedBlack(x.up, u);
    SameInorder(x.up, Fill(x, t), u);
  }

  lemma BlackenColored(t: Tree)
    requires Colored(t)
    ensures Colored(Blacken(t))
  {
  }

  lemma OpenInorder(t: Tree)
    ensures t.Leaf? ==> Inorder(t) == []
    ensures t.Bin? ==> Inorder(t) == Inorder(t.l) + [t.n] + Inorder(t.r)
  {
  }

  lemma OpenRightOf(l: Tree, n: Node, c: Color, x: Ctx)
    ensures Before(RightOf(l, n, c, x)) == Before(x) + Inorder(l) + [n] && After(RightOf(l, n, c, x)) == After(x)
  {
  }

  lemma OnlyChild(t: Tree, u: Tree)
    requires t.Bin? && Colored(t) && (u == t.l || u == t.r)
    ensures Colored(u) && BlackHeight(t) == BlackHeight(u) + Weight(t.c) && (t.c.Red? ==> !IsRed(u))
  {
  }

  /** Unlinking a node with at most one child leaves the child in its place. */
  lemma UnlinkedOne(x: Ctx, t: Tree, u: Tree)
    requires RedBlack(Plug(x, t)) && t.Bin?
    requires (t.l.Leaf? && u == t.r) || (t.r.Leaf? && u == t.l)
    ensures t.c.Black? ==> DeleteInv(x, u)
    ensures t.c.Red? ==> RedBlack(Plug(x, u))
  {
    hide Inorder, Plug, Colored, ColoredC, BlackHeight, RedBlack, IsRed;
    UnplugRedBlack(x, t);
    OnlyChild(t, u);
    BlackenColored(u);
    if t.c.Red? { PlugRedBlack(x, u); }
  }

  /** The in-order sequence around the root of t. */
  lemma SplitInorder(x: Ctx, t: Tree)
    requires t.Bin?
    ensures Inorder(Plug(x, t)) == (Before(x) + Inorder(t.l)) + [t.n] + (Inorder(t.r) + After(x))
  {
    hide *;
    OpenInorder(t);
    PlugInorder(x, t);
    Regroup(Before(x), Inorder(t.l) + [t.n], Inorder(t.r), After(x));
  }

  lemma UnlinkedOneInorder(x: Ctx, t: Tree, u: Tree)
    requires t.Bin? && ((t.l.Leaf? && u == t.r) || (t.r.Leaf? && u == t.l))
    ensures Inorder(Plug(x, u)) == (Before(x) + Inorder(t.l)) + (Inorder(t.r) + After(x))
  {
    hide *;
    OpenInorder(Leaf);
    assert Inorder(u) == Inorder(t.l) + Inorder(t.r);
    PlugInorder(x, u);
    Regroup(Before(x), Inorder(t.l), Inorder(t.r), After(x));
  }

  /** The conditions do not depend on which node carries the colour. */
  lemma {:induction false} ColoredSwap(y: Ctx, l: Tree, n: Node, m: Node, c: Color, x: Ctx, h: nat)
    requires ColoredC(Graft(y, RightOf(l, n, c, x)), h)
    ensures ColoredC(Graft(y, RightOf(l, m, c, x)), h)
    decreases y
  {
    if !y.Top? {
      ColoredSwap(y.up, l, n, m, c, x, h + Weight(y.c));
    }
  }

  /** Unlinking the successor m.n of t.n and putting it in t.n's place; y leads from t.r to m. */
  lemma UnlinkedTwo(x: Ctx, t: Tree, y: Ctx, m: Tree)
    requires RedBlack(Plug(x, t)) && t.Bin? && m.Bin? && m.l.Leaf? && Plug(y, m) == t.r
    ensures var z := Graft(y, RightOf(t.l, m.n, t.c, x));
            (m.c.Black? ==> DeleteInv(z, m.r)) && (m.c.Red? ==> RedBlack(Plug(z, m.r)))
  {
    var w := Graft(y, RightOf(t.l, t.n, t.c, x));
    var z := Graft(y, RightOf(t.l, m.n, t.c, x));
    PlugGraft(y, RightOf(t.l, t.n, t.c, x), m);
    assert Plug(w, m) == Plug(x, t);
    hide Plug, Graft, Inorder, ColoredC;
    UnplugRedBlack(w, m);
    ColoredSwap(y, t.l, t.n, m.n, t.c, x, BlackHeight(m));
    assert Colored(m.r) && BlackHeight(m) == BlackHeight(m.r) + Weight(m.c);
    BlackenColored(m.r);
    if m.c.Red? { PlugRedBlack(z, m.r); }
  }

  lemma SuccessorInorder(y: Ctx, m: Tree)
    requires m.Bin? && m.l.Leaf? && Before(y) == []
    ensures Inorder(Plug(y, m)) == [m.n] + Inorder(Plug(y, m.r))
  {
    hide *;
    OpenInorder(m);
    OpenInorder(m.l);
    PlugInorder(y, m);
    PlugInorder(y, m.r);
  }

  lemma UnlinkedTwoInorder(x: Ctx, t: Tree, y: Ctx, m: Tree)
    requires t.Bin? && m.Bin? && m.l.Leaf? && Plug(y, m) == t.r && Before(y) == []
    ensures Inorder(Plug(Graft(y, RightOf(t.l, m.n, t.c, x)), m.r)) == (Before(x) + Inorder(t.l)) + (Inorder(t.r) + After(x))
  {
    hide *;
    var e, r := RightOf(t.l, m.n, t.c, x), Plug(y, m.r);
    OpenRightOf(t.l, m.n, t.c, x);
    SuccessorInorder(y, m);
    PlugGraft(y, e, m.r);
    PlugInorder(e, r);
    Regroup(Before(x) + Inorder(t.l), [m.n], Inorder(r), After(x));
  }
}
