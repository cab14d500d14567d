/**
 The red-black tree operations of tree.h on the nodes themselves: the loops of
 RB_INSERT, RB_INSERT_COLOR, RB_REMOVE and RB_REMOVE_COLOR rewire left, right, parent
 and colour in place. Ghost parameters name the algebraic tree the fields spell.
 */
module RedBlackTree {
  import opened Powers
  import opened Sequences
  import opened RedBlackShape
  import opened RedBlackBalance
  import opened RedBlackSearch
  import opened RedBlackDelete

  /** Gives the subtree at p, if there is one, a new parent. */
  method SetParent(p: Node?, par: Node?, ghost was: Node?, ghost t: Tree)
    requires Rep(p, was, t)
    modifies Nodes(t)
    ensures Rep(p, par, t)
  {
    if p != null {
      p.parent := par;
    }
  }

  /** The end of a rotation: elm goes under tmp. */
  method HangLeft(elm: Node, tmp: Node, ghost a: Tree, ghost b: Tree, ghost c: Tree)
    requires elm != tmp && {elm, tmp} !! Nodes(a) && {elm, tmp} !! Nodes(b) && {elm, tmp} !! Nodes(c)
    requires Nodes(a) !! Nodes(b) && Nodes(a) !! Nodes(c) && Nodes(b) !! Nodes(c)
    requires Rep(elm.left, elm, a) && Rep(elm.right, elm, b) && Rep(tmp.right, tmp, c)
    modifies tmp`left, elm`parent
    ensures Rep(tmp, tmp.parent, Bin(Bin(a, elm, elm.color, b), tmp, tmp.color, c))
    ensures Nodes(Bin(Bin(a, elm, elm.color, b), tmp, tmp.color, c)) == Nodes(a) + Nodes(b) + Nodes(c) + {elm, tmp}
  {
    hide Rep, Nodes;
    tmp.left := elm;
    elm.parent := tmp;
    CloseBin(elm, a, elm.color, b);
    CloseBin(tmp, Bin(a, elm, elm.color, b), tmp.color, c);
  }

  method HangRight(elm: Node, tmp: Node, ghost a: Tree, ghost b: Tree, ghost c: Tree)
    requires elm != tmp && {elm, tmp} !! Nodes(a) && {elm, tmp} !! Nodes(b) && {elm, tmp} !! Nodes(c)
    requires Nodes(a) !! Nodes(b) && Nodes(a) !! Nodes(c) && Nodes(b) !! Nodes(c)
    requires Rep(tmp.left, tmp, a) && Rep(elm.left, elm, b) && Rep(elm.right, elm, c)
    modifies tmp`right, elm`parent
    ensures Rep(tmp, tmp.parent, Bin(a, tmp, tmp.color, Bin(b, elm, elm.color, c)))
    ensures Nodes(Bin(a, tmp, tmp.color, Bin(b, elm, elm.color, c))) == Nodes(a) + Nodes(b) + Nodes(c) + {elm, tmp}
  {
    hide Rep, Nodes;
    tmp.right := elm;
    elm.parent := tmp;
    CloseBin(elm, b, elm.color, c);
    CloseBin(tmp, a, tmp.color, Bin(b, elm, elm.color, c));
  }

  class Head {
    var root: Node?
    ghost var tree: Tree

    /** The fields of the nodes spell tree, a red-black search tree. */
    ghost predicate Valid()
      reads this, Nodes(tree)
    {
      Rep(root, null, tree) && SearchTree(tree)
    }

    constructor ()
      ensures Valid() && tree == Leaf
    {
      root, tree := null, Leaf;
    }

    /** Points whatever pointed at elm (its parent, or the head) at tmp instead. */
    method ReplaceChild(elm: Node, tmp: Node?, par: Node?, ghost x: Ctx)
      requires RepC(root, null, elm, par, x) && elm !in NodesC(x)
      modifies this`root, NodesC(x)
      ensures RepC(root, null, tmp, par, x)
    {
      if par != null {
        if elm == par.left {
          par.left := tmp;
        } else {
          par.right := tmp;
        }
      } else {
        root := tmp;
      }
    }

    method RotateLeft(elm: Node, ghost x: Ctx, ghost t: Tree) returns (tmp: Node)
      requires t.Bin? && t.r.Bin? && Focus(root, elm, elm.parent, x, t)
      modifies this`root, NodesC(x), Nodes(t)
      ensures tmp == t.r.n && Focus(root, tmp, tmp.parent, x, RotatedLeft(t))
    {
      hide Rep, RepC, Nodes, NodesC, Inorder;
      OpenBin(elm, elm.parent, t);
      OpenBin(elm.right, elm, t.r);
      assert allocated(NodesC(x)) && allocated(Nodes(t.l)) && allocated(Nodes(t.r.l)) && allocated(Nodes(t.r.r));
      tmp := elm.right;
      elm.right := tmp.left;
      SetParent(elm.right, elm, tmp, t.r.l);
      tmp.parent := elm.parent;
      ReplaceChild(elm, tmp, elm.parent, x);
      HangLeft(elm, tmp, t.l, t.r.l, t.r.r);
    }

    method RotateRight(elm: Node, ghost x: Ctx, ghost t: Tree) returns (tmp: Node)
      requires t.Bin? && t.l.Bin? && Focus(root, elm, elm.parent, x, t)
      modifies this`root, NodesC(x), Nodes(t)
      ensures tmp == t.l.n && Focus(root, tmp, tmp.parent, x, RotatedRight(t))
    {
      hide Rep, RepC, Nodes, NodesC, Inorder;
      OpenBin(elm, elm.parent, t);
      OpenBin(elm.left, elm, t.l);
      assert allocated(NodesC(x)) && allocated(Nodes(t.r)) && allocated(Nodes(t.l.l)) && allocated(Nodes(t.l.r));
      tmp := elm.left;
      elm.left := tmp.right;
      SetParent(elm.left, elm, tmp, t.l.r);
      tmp.parent := elm.parent;
      ReplaceChild(elm, tmp, elm.parent, x);
      HangRight(elm, tmp, t.l.l, t.l.r, t.r);
    }

    /** Colours the node in focus. */
    method Paint(n: Node, c: Color, ghost x: Ctx, ghost t: Tree)
      requires t.Bin? && Focus(root, n, n.parent, x, t)
      modifies n`color
      ensures Focus(root, n, n.parent, x, t.(c := c))
      ensures n.color == c && Nodes(t.(c := c)) == Nodes(t)
    {
      hide Rep, RepC, Nodes, NodesC;
      OpenBin(n, n.parent, t);
      n.color := c;
      CloseBin(n, t.l, c, t.r);
    }

    /** Colours the parent of the node in focus. */
    method PaintAbove(n: Node, c: Color, ghost p: Node?, ghost x: Ctx, ghost t: Tree)
      requires !x.Top? && Focus(root, p, n, x, t)
      modifies n`color
      ensures Focus(root, p, n, x.(c := c), t)
      ensures n.color == c && NodesC(x.(c := c)) == NodesC(x)
    {
      n.color := c;
    }

    /** Colours the left or the right child of the node in focus. */
    method PaintChild(n: Node, c: Color, ghost p: Node, ghost x: Ctx, ghost t: Tree, ghost left: bool)
      requires t.Bin? && (if left then t.l.Bin? && n == t.l.n else t.r.Bin? && n == t.r.n)
      requires Focus(root, p, p.parent, x, t)
      modifies n`color
      ensures var u := if left then t.(l := t.l.(c := c)) else t.(r := t.r.(c := c));
              Focus(root, p, p.parent, x, u) && Nodes(u) == Nodes(t)
    {
      hide Rep, RepC, Nodes, NodesC;
      OpenBin(p, p.parent, t);
      OpenBin(n, p, if left then t.l else t.r);
      n.color := c;
      if left {
        CloseBin(n, t.l.l, c, t.l.r);
        CloseBin(p, t.l.(c := c), t.c, t.r);
      } else {
        CloseBin(n, t.r.l, c, t.r.r);
        CloseBin(p, t.l, t.c, t.r.(c := c));
      }
    }

    /** Widens the focus to the whole tree, which is red-black again. */
    lemma Whole(p: Node, x: Ctx, t: Tree) returns (s: Tree)
      requires Focus(root, p, p.parent, x, t) && RedBlack(Plug(x, t))
      ensures Focus(root, root, null, Top, s) && DeleteInv(Top, s) && Plug(Top, s) == s == Plug(x, t)
      ensures NodesC(Top) + Nodes(s) == NodesC(x) + Nodes(t)
    {
      s := Plug(x, t);
      PlugRep(root, null, p, p.parent, x, t);
      PlugNodes(x, t);
      OpenTop(root, root, null, s);
    }

    /** Where a focus is. */
    lemma Position(root: Node?, p: Node?, par: Node?, x: Ctx, t: Tree)
      requires Focus(root, p, par, x, t)
      ensures p == Ptr(t) && (p != null ==> p.color == t.c) && par == Above(x, null)
      ensures p == root <==> x.Top?
    {
      Surroundings(root, p, par, x, t);
      if !x.Top? { RootAbove(root, null, p, par, x); }
    }

    /** Colours the root black. */
    method PaintRoot(ghost s: Tree)
      requires s.Bin? && Rep(root, null, s)
      modifies Nodes(s)
      ensures Rep(root, null, s.(c := Black))
      ensures Nodes(s.(c := Black)) == Nodes(s) && Inorder(s.(c := Black)) == Inorder(s)
    {
      Paint(root, Black, Top, s);
    }

    /** RB_INSERT_COLOR with a red uncle: parent and uncle turn black, the grandparent red. */
    method InsertRecolor(parent: Node, gparent: Node, uncle: Node, ghost x: Ctx, ghost t: Tree)
      requires t.Bin? && t.l.Bin? && t.r.Bin? && Focus(root, gparent, gparent.parent, x, t)
      requires {parent, uncle} == {t.l.n, t.r.n}
      modifies parent`color, gparent`color, uncle`color
      ensures Focus(root, gparent, gparent.parent, x, Bin(t.l.(c := Black), t.n, Red, t.r.(c := Black)))
      ensures Nodes(Bin(t.l.(c := Black), t.n, Red, t.r.(c := Black))) == Nodes(t)
    {
      hide Rep, RepC, Nodes, NodesC;
      OpenBin(gparent, gparent.parent, t);
      OpenBin(gparent.left, gparent, t.l);
      OpenBin(gparent.right, gparent, t.r);
      uncle.color := Black;
      parent.color := Black;
      gparent.color := Red;
      CloseBin(t.l.n, t.l.l, Black, t.l.r);
      CloseBin(t.r.n, t.r.l, Black, t.r.r);
      CloseBin(gparent, t.l.(c := Black), Red, t.r.(c := Black));
    }

    /** RB_INSERT_COLOR with a black uncle, parent being a left child. */
    method InsertRotateLeft(elm0: Node, parent0: Node, gparent: Node, ghost x: Ctx, ghost t: Tree)
      returns (elm: Node, ghost y: Ctx, ghost u: Tree)
      requires InsertInv(x, t) && RedAbove(x) && x.up.LeftOf? && !IsRed(x.up.r)
      requires Focus(root, elm0, parent0, x, t) && gparent == x.up.n
      modifies this`root, NodesC(x), Nodes(t)
      ensures InsertInv(y, u) && Depth(y) < Depth(x) && Focus(root, elm, elm.parent, y, u)
      ensures Inorder(Plug(y, u)) == Inorder(Plug(x, t))
      ensures NodesC(y) + Nodes(u) == NodesC(x) + Nodes(t)
    {
      hide Focus, Inorder, ColoredC, Colored;
      InsertedLeft(x, t);
      elm := elm0;
      var parent, tmp := parent0, elm0;
      Ascend(root, elm, parent, x, t);
      ghost var p := Fill(x, t);
      if parent.right == elm {
        tmp := RotateLeft(parent, x.up, p);
        p := RotatedLeft(p);
        parent, elm := elm, parent;
      }
      Ascend(root, parent, parent.parent, x.up, p);
      Paint(parent, Black, x.up, p);
      p := p.(c := Black);
      PaintAbove(gparent, Red, parent, x.up, p);
      ghost var g := LeftOf(x.up.up, gparent, Red, x.up.r);
      Ascend(root, parent, gparent, g, p);
      tmp := RotateRight(gparent, g.up, Fill(g, p));
      y, u := LeftOf(g.up, parent, Black, Bin(p.r, gparent, Red, g.r)), p.l;
      Descend(root, parent, parent.parent, y, u);
    }

    /** RB_INSERT_COLOR with a black uncle, parent being a right child. */
    method InsertRotateRight(elm0: Node, parent0: Node, gparent: Node, ghost x: Ctx, ghost t: Tree)
      returns (elm: Node, ghost y: Ctx, ghost u: Tree)
      requires InsertInv(x, t) && RedAbove(x) && x.up.RightOf? && !IsRed(x.up.l)
      requires Focus(root, elm0, parent0, x, t) && gparent == x.up.n
      modifies this`root, NodesC(x), Nodes(t)
      ensures InsertInv(y, u) && Depth(y) < Depth(x) && Focus(root, elm, elm.parent, y, u)
      ensures Inorder(Plug(y, u)) == Inorder(Plug(x, t))
      ensures NodesC(y) + Nodes(u) == NodesC(x) + Nodes(t)
    {
      hide Focus, Inorder, ColoredC, Colored;
      InsertedRight(x, t);
      elm := elm0;
      var parent, tmp := parent0, elm0;
      Ascend(root, elm, parent, x, t);
      ghost var p := Fill(x, t);
      if parent.left == elm {
        tmp := RotateRight(parent, x.up, p);
        p := RotatedRight(p);
        parent, elm := elm, parent;
      }
      Ascend(root, parent, parent.parent, x.up, p);
      Paint(parent, Black, x.up, p);
      p := p.(c := Black);
      PaintAbove(gparent, Red, parent, x.up, p);
      ghost var g := RightOf(x.up.l, gparent, Red, x.up.up);
      Ascend(root, parent, gparent, g, p);
      tmp := RotateLeft(gparent, g.up, Fill(g, p));
      y, u := RightOf(Bin(g.l, gparent, Red, p.l), parent, Black, g.up), p.r;
      Descend(root, parent, parent.parent, y, u);
    }

    /** RB_INSERT_COLOR with a red uncle, on either side. */
    method InsertRecolorAt(elm: Node, parent: Node, gparent: Node, uncle: Node, ghost x: Ctx, ghost t: Tree)
      returns (ghost y: Ctx, ghost u: Tree)
      requires InsertInv(x, t) && RedAbove(x) && !x.up.Top?
      requires Focus(root, elm, parent, x, t) && gparent == x.up.n
      requires var s := if x.up.LeftOf? then x.up.r else x.up.l; IsRed(s) && uncle == s.n
      modifies this`root, NodesC(x), Nodes(t)
      ensures InsertInv(y, u) && Depth(y) < Depth(x) && Focus(root, gparent, gparent.parent, y, u)
      ensures Inorder(Plug(y, u)) == Inorder(Plug(x, t))
      ensures NodesC(y) + Nodes(u) == NodesC(x) + Nodes(t)
    {
      hide Focus, Inorder, ColoredC, Colored;
      InsertedRecolor(x, t);
      Ascend(root, elm, parent, x, t);
      ghost var p := Fill(x, t);
      Ascend(root, parent, parent.parent, x.up, p);
      InsertRecolor(parent, gparent, uncle, x.up.up, Fill(x.up, p));
      y, u := x.up.up, Recolored(Fill(x.up, p));
    }

    method InsertColor(elm0: Node, ghost x0: Ctx, ghost t0: Tree) returns (ghost s: Tree)
      requires InsertInv(x0, t0) && Focus(root, elm0, elm0.parent, x0, t0)
      modifies this`root, NodesC(x0), Nodes(t0)
      ensures Rep(root, null, s) && RedBlack(s)
      ensures Inorder(s) == Inorder(Plug(x0, t0)) && Nodes(s) == NodesC(x0) + Nodes(t0)
    {
      hide Rep, RepC, Nodes, NodesC, Inorder, ColoredC, Colored;
      var elm: Node := elm0;
      ghost var x, t := x0, t0;
      Surroundings(root, elm, elm.parent, x, t);
      while elm.parent != null && elm.parent.color.Red?
        invariant InsertInv(x, t) && Focus(root, elm, elm.parent, x, t)
        invariant elm.parent == Above(x, null) && (!x.Top? ==> elm.parent.color == x.c)
        invariant Inorder(Plug(x, t)) == Inorder(Plug(x0, t0))
        invariant NodesC(x) + Nodes(t) == NodesC(x0) + Nodes(t0)
        decreases Depth(x)
      {
        UncleOf(x, t);
        var parent := elm.parent;
        Ascend(root, elm, parent, x, t);
        Surroundings(root, parent, parent.parent, x.up, Fill(x, t));
        var gparent := parent.parent;
        var tmp := if parent == gparent.left then gparent.right else gparent.left;
        if tmp != null && tmp.color.Red? {
          x, t := InsertRecolorAt(elm, parent, gparent, tmp, x, t);
          elm := gparent;
        } else if parent == gparent.left {
          elm, x, t := InsertRotateLeft(elm, parent, gparent, x, t);
        } else {
          elm, x, t := InsertRotateRight(elm, parent, gparent, x, t);
        }
        Surroundings(root, elm, elm.parent, x, t);
      }
      InsertedRoot(x, t);
      PlugRep(root, null, elm, elm.parent, x, t);
      PlugNodes(x, t);
      s := Plug(x, t);
      PaintRoot(s);
      s := s.(c := Black);
    }

    /** Hangs elm, made a red leaf, in the empty hole of x. */
    method LinkLeaf(elm: Node, parent: Node?, comp: int, ghost x: Ctx)
      requires RepC(root, null, null, parent, x) && elm !in NodesC(x)
      requires (x.LeftOf? ==> comp < 0) && (x.RightOf? ==> comp > 0)
      modifies this`root, NodesC(x), elm
      ensures Focus(root, elm, parent, x, Bin(Leaf, elm, Red, Leaf)) && elm.parent == parent
    {
      elm.parent := parent;
      elm.left, elm.right := null, null;
      elm.color := Red;
      if parent != null {
        if comp < 0 {
          parent.left := elm;
        } else {
          parent.right := elm;
        }
      } else {
        root := elm;
      }
    }

    /** Descends to the node with elm's key, or to the hole where elm belongs. */
    method Search(elm: Node) returns (tmp: Node?, parent: Node?, comp: int, ghost x: Ctx, ghost t: Tree, ghost steps: nat)
      requires Valid()
      ensures Focus(root, tmp, if tmp == null then parent else tmp.parent, x, t)
      ensures Plug(x, t) == tree && Around(x, elm.key) && (tmp == null <==> t.Leaf?)
      ensures tmp != null ==> t.n == tmp && tmp.key == elm.key
      ensures tmp == null ==> (x.LeftOf? ==> comp < 0) && (x.RightOf? ==> comp > 0)
      ensures steps <= Height(tree) && steps == PathLength(tree, elm.key) == Depth(x) + if tmp == null then 0 else 1
    {
      assert Sorted(Inorder(tree));
      hide Focus, Rep, RepC, Nodes, NodesC, RedBlack, Inorder, Sorted, Plug, Height, PathLength;
      tmp, parent, comp, x, t, steps := root, null, 0, Top, tree, 0;
      OpenTop(root, root, null, tree);
      hide Around;
      Surroundings(root, tmp, parent, x, t);
      while tmp != null
        invariant Focus(root, tmp, parent, x, t) && Plug(x, t) == tree && Around(x, elm.key)
        invariant tmp == null <==> t.Leaf?
        invariant t.Bin? ==> tmp == t.n
        invariant (x.LeftOf? ==> comp < 0) && (x.RightOf? ==> comp > 0)
        invariant steps + Height(t) <= Height(tree) && steps == Depth(x) && steps + PathLength(t, elm.key) == PathLength(tree, elm.key)
        decreases t
      {
        parent := tmp;
        comp := elm.key - parent.key;
        steps := steps + 1;
        Surroundings(root, tmp, parent.parent, x, t);
        OpenPath(t, elm.key);
        if comp < 0 {
          StepLeft(x, t, elm.key);
          tmp := tmp.left;
          ghost var y := LeftOf(x, t.n, t.c, t.r);
          assert Fill(y, t.l) == t;
          Descend(root, parent, parent.parent, y, t.l);
          x, t := y, t.l;
        } else if comp > 0 {
          StepRight(x, t, elm.key);
          tmp := tmp.right;
          ghost var y := RightOf(t.l, t.n, t.c, x);
          assert Fill(y, t.r) == t;
          Descend(root, parent, parent.parent, y, t.r);
          x, t := y, t.r;
        } else {
          return;
        }
        Surroundings(root, tmp, parent, x, t);
      }
      OpenPath(t, elm.key);
    }

    /** RB_INSERT: adds elm, unless a node with its key is there already. */
    method Insert(elm: Node) returns (r: Node?)
      requires Valid()
      modifies this, Nodes(tree), elm
      ensures Valid()
      ensures r != null ==> r in old(Nodes(tree)) && r.key == elm.key && unchanged(this)
      ensures r != null ==> forall n: Node | old(allocated(n)) ::
                n.left == old(n.left) && n.right == old(n.right) && n.parent == old(n.parent) && n.color == old(n.color)
      ensures r == null ==> (forall n <- old(Nodes(tree)) :: n.key != elm.key) && Nodes(tree) == old(Nodes(tree)) + {elm}
      ensures r == null ==> OneOut(Inorder(tree), elm, old(Inorder(tree)))
    {
      hide Rep, RepC, Nodes, NodesC, Inorder, Sorted, Plug, Colored, ColoredC, OneOut;
      var tmp, parent, comp;
      ghost var x, t, steps;
      assert allocated(Nodes(tree));
      tmp, parent, comp, x, t, steps := Search(elm);
      PlugNodes(x, t);
      if tmp != null {
        OpenBin(tmp, tmp.parent, t);
        return tmp;
      }
      EmptyHole(x, elm);
      UnplugRedBlack(x, Leaf);
      LinkLeaf(elm, parent, comp, x);
      Singleton(x, elm);
      ghost var s := InsertColor(elm, x, Bin(Leaf, elm, Red, Leaf));
      tree := s;
      return null;
    }

    /** RB_FIND, and how many comparisons it makes. */
    method Find(elm: Node) returns (r: Node?, ghost comparisons: nat)
      requires Valid()
      ensures r != null ==> r in Nodes(tree) && r.key == elm.key
      ensures r == null ==> forall n <- Nodes(tree) :: n.key != elm.key
      ensures comparisons == PathLength(tree, elm.key) <= Height(tree) && Pow2(comparisons) <= (Size(tree) + 1) * (Size(tree) + 1)
    {
      hide Rep, RepC, Nodes, NodesC, Inorder, Sorted, Plug, Colored, ColoredC, Height, Size;
      var parent, comp;
      ghost var x, t;
      r, parent, comp, x, t, comparisons := Search(elm);
      PlugNodes(x, t);
      HeightBound(tree);
      Pow2Monotone(comparisons, Height(tree));
      if r != null {
        OpenBin(r, r.parent, t);
      } else {
        EmptyHole(x, elm);
      }
    }

    // RB_REMOVE_COLOR, the hole being a left child of parent and tmp its sibling.

    method RemoveRedSiblingLeft(parent: Node, tmp: Node, ghost elm: Node?, ghost x: Ctx, ghost t: Tree) returns (ghost y: Ctx)
      requires DeleteInv(x, t) && !IsRed(t) && x.LeftOf? && IsRed(x.r)
      requires Focus(root, elm, parent, x, t) && tmp == x.r.n
      modifies this`root, NodesC(x), Nodes(t)
      ensures DeleteInv(y, t) && y.LeftOf? && y.n == parent && !IsRed(y.r) && Focus(root, elm, parent, y, t)
      ensures y.c.Red? && Depth(y) == Depth(x) + 1
      ensures Inorder(Plug(y, t)) == Inorder(Plug(x, t)) && NodesC(y) == NodesC(x)
    {
      hide Focus, Inorder, ColoredC, Colored;
      SiblingExists(x, t);
      RedSiblingLeft(x, t);
      Sidestep(root, elm, parent, x, t);
      ghost var s := x.r.(c := Black);
      Paint(tmp, Black, Across(x, t), x.r);
      PaintAbove(parent, Red, tmp, Across(x, t), s);
      ghost var q := RightOf(t, parent, Red, x.up);
      Ascend(root, tmp, parent, q, s);
      var r := RotateLeft(parent, x.up, Fill(q, s));
      ghost var y1 := LeftOf(x.up, tmp, Black, x.r.r);
      y := LeftOf(y1, parent, Red, x.r.l);
      Descend(root, tmp, tmp.parent, y1, Fill(y, t));
      Descend(root, parent, tmp, y, t);
    }

    method RemoveBlackNephewsLeft(parent: Node, tmp: Node, ghost elm: Node?, ghost x: Ctx, ghost t: Tree) returns (ghost u: Tree)
      requires DeleteInv(x, t) && !IsRed(t) && x.LeftOf? && x.r.Bin? && !IsRed(x.r) && !IsRed(x.r.l) && !IsRed(x.r.r)
      requires Focus(root, elm, parent, x, t) && tmp == x.r.n
      modifies this`root, NodesC(x), Nodes(t)
      ensures DeleteInv(x.up, u) && u.Bin? && u.c == x.c && Focus(root, parent, parent.parent, x.up, u)
      ensures Inorder(Plug(x.up, u)) == Inorder(Plug(x, t)) && NodesC(x.up) + Nodes(u) == NodesC(x) + Nodes(t)
    {
      hide Focus, Inorder, ColoredC, Colored;
      BlackNephewsLeft(x, t);
      Sidestep(root, elm, parent, x, t);
      Paint(tmp, Red, Across(x, t), x.r);
      Ascend(root, tmp, parent, Across(x, t), x.r.(c := Red));
      u := Bin(t, parent, x.c, x.r.(c := Red));
    }

    method RemoveNearNephewLeft(parent: Node, tmp: Node, ghost elm: Node?, ghost x: Ctx, ghost t: Tree) returns (ghost y: Ctx)
      requires DeleteInv(x, t) && !IsRed(t) && x.LeftOf? && x.r.Bin? && !IsRed(x.r) && IsRed(x.r.l) && !IsRed(x.r.r)
      requires Focus(root, elm, parent, x, t) && tmp == x.r.n
      modifies this`root, NodesC(x), Nodes(t)
      ensures DeleteInv(y, t) && y.LeftOf? && y.r.Bin? && !IsRed(y.r) && IsRed(y.r.r)
      ensures Focus(root, elm, parent, y, t) && Depth(y) == Depth(x)
      ensures Inorder(Plug(y, t)) == Inorder(Plug(x, t)) && NodesC(y) == NodesC(x)
    {
      hide Focus, Inorder, ColoredC, Colored;
      NearNephewLeft(x, t);
      Sidestep(root, elm, parent, x, t);
      ghost var q, s := Across(x, t), x.r;
      Children(root, tmp, tmp.parent, q, s);
      PaintChild(tmp.left, Black, tmp, q, s, true);
      s := Bin(s.l.(c := Black), tmp, Black, s.r);
      Paint(tmp, Red, q, s);
      s := s.(c := Red);
      var oleft := RotateRight(tmp, q, s);
      Ascend(root, oleft, oleft.parent, q, RotatedRight(s));
      y := LeftOf(x.up, parent, x.c, RotatedRight(s));
      Descend(root, parent, parent.parent, y, t);
    }

    method RemoveFarNephewLeft(parent: Node, tmp: Node, ghost elm: Node?, ghost x: Ctx, ghost t: Tree) returns (ghost u: Tree)
      requires DeleteInv(x, t) && !IsRed(t) && x.LeftOf? && x.r.Bin? && !IsRed(x.r) && IsRed(x.r.r)
      requires Focus(root, elm, parent, x, t) && tmp == x.r.n
      modifies this`root, NodesC(x), Nodes(t)
      ensures RedBlack(Plug(x.up, u)) && Focus(root, tmp, tmp.parent, x.up, u)
      ensures Inorder(Plug(x.up, u)) == Inorder(Plug(x, t)) && NodesC(x.up) + Nodes(u) == NodesC(x) + Nodes(t)
    {
      hide Focus, Inorder, ColoredC, Colored;
      FarNephewLeft(x, t);
      Sidestep(root, elm, parent, x, t);
      ghost var q, s := Across(x, t), x.r;
      Children(root, tmp, tmp.parent, q, s);
      Paint(tmp, parent.color, q, s);
      s := s.(c := x.c);
      PaintAbove(parent, Black, tmp, q, s);
      q := RightOf(t, parent, Black, x.up);
      PaintChild(tmp.right, Black, tmp, q, s, false);
      s := Bin(s.l, tmp, x.c, s.r.(c := Black));
      Ascend(root, tmp, parent, q, s);
      var r := RotateLeft(parent, x.up, Fill(q, s));
      u := RotatedLeft(Fill(q, s));
    }

    /** One turn of the RB_REMOVE_COLOR loop, the hole being a left child. */
    method RemoveStepLeft(elm: Node?, parent: Node, ghost x: Ctx, ghost t: Tree)
      returns (e: Node?, par: Node?, ghost y: Ctx, ghost u: Tree)
      requires DeleteInv(x, t) && !IsRed(t) && x.LeftOf? && Focus(root, elm, parent, x, t)
      modifies this`root, NodesC(x), Nodes(t)
      ensures DeleteInv(y, u) && Focus(root, e, par, y, u)
      ensures Depth(y) < Depth(x) || (Depth(y) == Depth(x) && IsRed(u))
      ensures Inorder(Plug(y, u)) == Inorder(Plug(x, t)) && NodesC(y) + Nodes(u) == NodesC(x) + Nodes(t)
    {
      hide Focus, Inorder, ColoredC, Colored, Nodes, NodesC, Plug;
      SiblingExists(x, t);
      Sidestep(root, elm, parent, x, t);
      var tmp := parent.right;
      y := x;
      if tmp.color.Red? {
        y := RemoveRedSiblingLeft(parent, tmp, elm, x, t);
        SiblingExists(y, t);
        Sidestep(root, elm, parent, y, t);
        tmp := parent.right;
      }
      Children(root, tmp, parent, Across(y, t), y.r);
      if (tmp.left == null || tmp.left.color.Black?) && (tmp.right == null || tmp.right.color.Black?) {
        u := RemoveBlackNephewsLeft(parent, tmp, elm, y, t);
        y, e, par := y.up, parent, parent.parent;
      } else {
        if tmp.right == null || tmp.right.color.Black? {
          y := RemoveNearNephewLeft(parent, tmp, elm, y, t);
          Sidestep(root, elm, parent, y, t);
          tmp := parent.right;
        }
        u := RemoveFarNephewLeft(parent, tmp, elm, y, t);
        u := Whole(tmp, y.up, u);
        y, e, par := Top, root, null;
      }
    }

    // RB_REMOVE_COLOR, the hole being a right child of parent and tmp its sibling.

    method RemoveRedSiblingRight(parent: Node, tmp: Node, ghost elm: Node?, ghost x: Ctx, ghost t: Tree) returns (ghost y: Ctx)
      requires DeleteInv(x, t) && !IsRed(t) && x.RightOf? && IsRed(x.l)
      requires Focus(root, elm, parent, x, t) && tmp == x.l.n
      modifies this`root, NodesC(x), Nodes(t)
      ensures DeleteInv(y, t) && y.RightOf? && y.n == parent && !IsRed(y.l) && Focus(root, elm, parent, y, t)
      ensures y.c.Red? && Depth(y) == Depth(x) + 1
      ensures Inorder(Plug(y, t)) == Inorder(Plug(x, t)) && NodesC(y) == NodesC(x)
    {
      hide Focus, Inorder, ColoredC, Colored;
      SiblingExists(x, t);
      RedSiblingRight(x, t);
      Sidestep(root, elm, parent, x, t);
      ghost var s := x.l.(c := Black);
      Paint(tmp, Black, Across(x, t), x.l);
      PaintAbove(parent, Red, tmp, Across(x, t), s);
      ghost var q := LeftOf(x.up, parent, Red, t);
      Ascend(root, tmp, parent, q, s);
      var r := RotateRight(parent, x.up, Fill(q, s));
      ghost var y1 := RightOf(x.l.l, tmp, Black, x.up);
      y := RightOf(x.l.r, parent, Red, y1);
      Descend(root, tmp, tmp.parent, y1, Fill(y, t));
      Descend(root, parent, tmp, y, t);
    }

    method RemoveBlackNephewsRight(parent: Node, tmp: Node, ghost elm: Node?, ghost x: Ctx, ghost t: Tree) returns (ghost u: Tree)
      requires DeleteInv(x, t) && !IsRed(t) && x.RightOf? && x.l.Bin? && !IsRed(x.l) && !IsRed(x.l.l) && !IsRed(x.l.r)
      requires Focus(root, elm, parent, x, t) && tmp == x.l.n
      modifies this`root, NodesC(x), Nodes(t)
      ensures DeleteInv(x.up, u) && u.Bin? && u.c == x.c && Focus(root, parent, parent.parent, x.up, u)
      ensures Inorder(Plug(x.up, u)) == Inorder(Plug(x, t)) && NodesC(x.up) + Nodes(u) == NodesC(x) + Nodes(t)
    {
      hide Focus, Inorder, ColoredC, Colored;
      BlackNephewsRight(x, t);
      Sidestep(root, elm, parent, x, t);
      Paint(tmp, Red, Across(x, t), x.l);
      Ascend(root, tmp, parent, Across(x, t), x.l.(c := Red));
      u := Bin(x.l.(c := Red), parent, x.c, t);
    }

    method RemoveNearNephewRight(parent: Node, tmp: Node, ghost elm: Node?, ghost x: Ctx, ghost t: Tree) returns (ghost y: Ctx)
      requires DeleteInv(x, t) && !IsRed(t) && x.RightOf? && x.l.Bin? && !IsRed(x.l) && IsRed(x.l.r) && !IsRed(x.l.l)
      requires Focus(root, elm, parent, x, t) && tmp == x.l.n
      modifies this`root, NodesC(x), Nodes(t)
      ensures DeleteInv(y, t) && y.RightOf? && y.l.Bin? && !IsRed(y.l) && IsRed(y.l.l)
      ensures Focus(root, elm, parent, y, t) && Depth(y) == Depth(x)
      ensures Inorder(Plug(y, t)) == Inorder(Plug(x, t)) && NodesC(y) == NodesC(x)
    {
      hide Focus, Inorder, ColoredC, Colored;
      NearNephewRight(x, t);
      Sidestep(root, elm, parent, x, t);
      ghost var q, s := Across(x, t), x.l;
      Children(root, tmp, tmp.parent, q, s);
      PaintChild(tmp.right, Black, tmp, q, s, false);
      s := Bin(s.l, tmp, Black, s.r.(c := Black));
      Paint(tmp, Red, q, s);
      s := s.(c := Red);
      var oright := RotateLeft(tmp, q, s);
      Ascend(root, oright, oright.parent, q, RotatedLeft(s));
      y := RightOf(RotatedLeft(s), parent, x.c, x.up);
      Descend(root, parent, parent.parent, y, t);
    }

    method RemoveFarNephewRight(parent: Node, tmp: Node, ghost elm: Node?, ghost x: Ctx, ghost t: Tree) returns (ghost u: Tree)
      requires DeleteInv(x, t) && !IsRed(t) && x.RightOf? && x.l.Bin? && !IsRed(x.l) && IsRed(x.l.l)
      requires Focus(root, elm, parent, x, t) && tmp == x.l.n
      modifies this`root, NodesC(x), Nodes(t)
      ensures RedBlack(Plug(x.up, u)) && Focus(root, tmp, tmp.parent, x.up, u)
      ensures Inorder(Plug(x.up, u)) == Inorder(Plug(x, t)) && NodesC(x.up) + Nodes(u) == NodesC(x) + Nodes(t)
    {
      hide Focus, Inorder, ColoredC, Colored;
      FarNephewRight(x, t);
      Sidestep(root, elm, parent, x, t);
      ghost var q, s := Across(x, t), x.l;
      Children(root, tmp, tmp.parent, q, s);
      Paint(tmp, parent.color, q, s);
      s := s.(c := x.c);
      PaintAbove(parent, Black, tmp, q, s);
      q := LeftOf(x.up, parent, Black, t);
      PaintChild(tmp.left, Black, tmp, q, s, true);
      s := Bin(s.l.(c := Black), tmp, x.c, s.r);
      Ascend(root, tmp, parent, q, s);
      var r := RotateRight(parent, x.up, Fill(q, s));
      u := RotatedRight(Fill(q, s));
    }

    /** One turn of the RB_REMOVE_COLOR loop, the hole being a right child. */
    method RemoveStepRight(elm: Node?, parent: Node, ghost x: Ctx, ghost t: Tree)
      returns (e: Node?, par: Node?, ghost y: Ctx, ghost u: Tree)
      requires DeleteInv(x, t) && !IsRed(t) && x.RightOf? && Focus(root, elm, parent, x, t)
      modifies this`root, NodesC(x), Nodes(t)
      ensures DeleteInv(y, u) && Focus(root, e, par, y, u)
      ensures Depth(y) < Depth(x) || (Depth(y) == Depth(x) && IsRed(u))
      ensures Inorder(Plug(y, u)) == Inorder(Plug(x, t)) && NodesC(y) + Nodes(u) == NodesC(x) + Nodes(t)
    {
      hide Focus, Inorder, ColoredC, Colored, Nodes, NodesC, Plug;
      SiblingExists(x, t);
      Sidestep(root, elm, parent, x, t);
      var tmp := parent.left;
      y := x;
      if tmp.color.Red? {
        y := RemoveRedSiblingRight(parent, tmp, elm, x, t);
        SiblingExists(y, t);
        Sidestep(root, elm, parent, y, t);
        tmp := parent.left;
      }
      Children(root, tmp, parent, Across(y, t), y.l);
      if (tmp.left == null || tmp.left.color.Black?) && (tmp.right == null || tmp.right.color.Black?) {
        u := RemoveBlackNephewsRight(parent, tmp, elm, y, t);
        y, e, par := y.up, parent, parent.parent;
      } else {
        if tmp.left == null || tmp.left.color.Black? {
          y := RemoveNearNephewRight(parent, tmp, elm, y, t);
          Sidestep(root, elm, parent, y, t);
          tmp := parent.left;
        }
        u := RemoveFarNephewRight(parent, tmp, elm, y, t);
        u := Whole(tmp, y.up, u);
        y, e, par := Top, root, null;
      }
    }

    method RemoveColor(parent0: Node?, elm0: Node?, ghost x0: Ctx, ghost t0: Tree) returns (ghost s: Tree)
      requires DeleteInv(x0, t0) && Focus(root, elm0, parent0, x0, t0)
      modifies this`root, NodesC(x0), Nodes(t0)
      ensures Rep(root, null, s) && RedBlack(s)
      ensures Inorder(s) == Inorder(Plug(x0, t0)) && Nodes(s) == NodesC(x0) + Nodes(t0)
    {
      hide Rep, RepC, Inorder, ColoredC, Colored, Nodes, NodesC, Plug;
      var elm, parent := elm0, parent0;
      ghost var x, t := x0, t0;
      Position(root, elm, parent, x, t);
      while (elm == null || elm.color.Black?) && elm != root
        invariant DeleteInv(x, t) && Focus(root, elm, parent, x, t)
        invariant elm == Ptr(t) && (elm != null ==> elm.color == t.c) && parent == Above(x, null)
        invariant elm == root <==> x.Top?
        invariant Inorder(Plug(x, t)) == Inorder(Plug(x0, t0)) && NodesC(x) + Nodes(t) == NodesC(x0) + Nodes(t0)
        decreases Depth(x), if IsRed(t) then 0 else 1
      {
        SiblingExists(x, t);
        Sidestep(root, elm, parent, x, t);
        Ascend(root, elm, parent, x, t);
        if parent.left == elm {
          elm, parent, x, t := RemoveStepLeft(elm, parent, x, t);
        } else {
          elm, parent, x, t := RemoveStepRight(elm, parent, x, t);
        }
        Position(root, elm, parent, x, t);
      }
      DeleteDone(x, t);
      SameInorder(x, t, Blacken(t));
      if elm != null {
        Surroundings(root, elm, parent, x, t);
        OpenBin(elm, elm.parent, t);
        Paint(elm, Black, x, t);
      }
      s := Plug(x, Blacken(t));
      PlugRep(root, null, elm, parent, x, Blacken(t));
      PlugNodes(x, Blacken(t));
    }

    /** The leftmost node of the subtree at elm0; y leads to it. */
    method Leftmost(elm0: Node, ghost b: Ctx, ghost r: Tree) returns (elm: Node, ghost y: Ctx, ghost m: Tree)
      requires r.Bin? && Focus(root, elm0, elm0.parent, b, r)
      ensures m.Bin? && m.l.Leaf? && m.n == elm && Focus(root, elm, elm.parent, Graft(y, b), m)
      ensures Plug(y, m) == r && Before(y) == []
      ensures NodesC(Graft(y, b)) + Nodes(m) == NodesC(b) + Nodes(r)
    {
      hide Focus, Inorder, Nodes, NodesC, Plug;
      elm, y, m := elm0, Top, r;
      Surroundings(root, elm, elm.parent, b, r);
      assert Plug(Top, r) == r by { OpenPlug(r); }
      Children(root, elm, elm.parent, Graft(y, b), m);
      while elm.left != null
        invariant m.Bin? && m.n == elm && Focus(root, elm, elm.parent, Graft(y, b), m)
        invariant elm.left == Ptr(m.l)
        invariant Plug(y, m) == r && Before(y) == []
        invariant NodesC(Graft(y, b)) + Nodes(m) == NodesC(b) + Nodes(r)
        decreases m
      {
        ghost var z := LeftOf(y, m.n, m.c, m.r);
        assert Fill(z, m.l) == Fill(Graft(z, b), m.l) == m;
        Descend(root, elm, elm.parent, Graft(z, b), m.l);
        elm := elm.left;
        y, m := z, m.l;
        Children(root, elm, elm.parent, Graft(y, b), m);
      }
    }

    /** Takes elm, which has at most the one child, out of the tree. */
    method Unlink(elm: Node, child: Node?, ghost x: Ctx, ghost t: Tree, ghost u: Tree) returns (parent: Node?)
      requires t.Bin? && Focus(root, elm, elm.parent, x, t) && child == Ptr(u)
      requires (t.l.Leaf? && u == t.r) || (t.r.Leaf? && u == t.l)
      modifies this`root, NodesC(x), Nodes(u)
      ensures parent == old(elm.parent) && Focus(root, child, parent, x, u)
      ensures elm !in NodesC(x) && elm !in Nodes(u) && Nodes(t) == Nodes(u) + {elm} && elm.parent == old(elm.parent)
    {
      hide Rep, RepC, Nodes, NodesC;
      OpenBin(elm, elm.parent, t);
      EmptyNodes();
      assert allocated(NodesC(x)) && allocated(Nodes(u));
      parent := elm.parent;
      SetParent(child, parent, elm, u);
      ReplaceChild(elm, child, parent, x);
    }

    /** Puts elm in the place of was. */
    method Transplant(was: Node, elm: Node, ghost x: Ctx, ghost t: Tree)
      requires t.Bin? && Focus(root, was, was.parent, x, t) && elm !in NodesC(x) && elm !in Nodes(t)
      modifies this`root, NodesC(x), Nodes(t), elm
      ensures Focus(root, elm, elm.parent, x, t.(n := elm)) && Nodes(t.(n := elm)) == Nodes(t) - {was} + {elm}
    {
      hide Rep, RepC, Nodes, NodesC;
      OpenBin(was, was.parent, t);
      assert allocated(NodesC(x)) && allocated(Nodes(t.l)) && allocated(Nodes(t.r));
      elm.left, elm.right, elm.parent, elm.color := was.left, was.right, was.parent, was.color;
      ReplaceChild(was, elm, was.parent, x);
      SetParent(was.left, elm, was, t.l);
      SetParent(was.right, elm, was, t.r);
      CloseBin(elm, t.l, t.c, t.r);
    }

    /** RB_REMOVE of a node with two children, up to the fix-up: its successor takes its place. */
    method RemoveTwo(was: Node, ghost x: Ctx, ghost t: Tree)
      returns (child: Node?, parent: Node?, color: Color, ghost z: Ctx, ghost u: Tree)
      requires RedBlack(Plug(x, t)) && t.Bin? && t.l.Bin? && t.r.Bin? && Focus(root, was, was.parent, x, t)
      modifies this`root, NodesC(x), Nodes(t)
      ensures Focus(root, child, parent, z, u)
      ensures (color.Black? ==> DeleteInv(z, u)) && (color.Red? ==> RedBlack(Plug(z, u)))
      ensures Inorder(Plug(z, u)) == (Before(x) + Inorder(t.l)) + (Inorder(t.r) + After(x))
      ensures NodesC(z) + Nodes(u) <= NodesC(x) + Nodes(t)
    {
      hide Focus, Inorder, Nodes, NodesC, Plug, Graft, DeleteInv, RedBlack;
      ghost var b := RightOf(t.l, was, t.c, x);
      Surroundings(root, was, was.parent, x, t);
      Descend(root, was, was.parent, b, t.r);
      var elm;
      ghost var y, m;
      elm, y, m := Leftmost(was.right, b, t.r);
      UnlinkedTwo(x, t, y, m);
      UnlinkedTwoInorder(x, t, y, m);
      Children(root, elm, elm.parent, Graft(y, b), m);
      GraftAbove(root, elm, elm.parent, y, b, m);
      SubtreeNodes(m);
      child, color, u := elm.right, elm.color, m.r;
      parent := Unlink(elm, child, Graft(y, b), m, u);
      ghost var q, qp := Widen(root, child, parent, y, b, u);
      Ascend(root, q, qp, b, Plug(y, u));
      if elm.parent == was {
        parent := elm;
      }
      ghost var f := Bin(t.l, was, t.c, Plug(y, u));
      Transplant(was, elm, x, f);
      z := RightOf(t.l, elm, t.c, x);
      Descend(root, elm, elm.parent, z, Plug(y, u));
      Narrow(root, Ptr(Plug(y, u)), elm, y, z, u);
      z := Graft(y, z);
    }

    /** RB_REMOVE of the node in focus. */
    method RemoveAt(elm: Node, ghost x: Ctx, ghost t: Tree) returns (ghost s: Tree)
      requires RedBlack(Plug(x, t)) && t.Bin? && Focus(root, elm, elm.parent, x, t)
      modifies this`root, NodesC(x), Nodes(t)
      ensures Rep(root, null, s) && RedBlack(s)
      ensures Inorder(s) == (Before(x) + Inorder(t.l)) + (Inorder(t.r) + After(x))
    {
      hide Focus, Rep, RepC, Inorder, Nodes, NodesC, Plug, DeleteInv, RedBlack;
      Children(root, elm, elm.parent, x, t);
      var child, parent, color := null, null, elm.color;
      ghost var z, u := x, t;
      if elm.left != null && elm.right != null {
        child, parent, color, z, u := RemoveTwo(elm, x, t);
      } else {
        child := if elm.left == null then elm.right else elm.left;
        u := if elm.left == null then t.r else t.l;
        UnlinkedOne(x, t, u);
        UnlinkedOneInorder(x, t, u);
        SubtreeNodes(t);
        parent := Unlink(elm, child, x, t, u);
      }
      s := Plug(z, u);
      if color.Black? {
        s := RemoveColor(parent, child, z, u);
      } else {
        Plugged(root, child, parent, z, u);
      }
    }

    /** RB_REMOVE: takes exactly elm out of the tree. */
    method Remove(elm: Node) returns (r: Node)
      requires Valid() && elm in Nodes(tree)
      modifies this, Nodes(tree)
      ensures Valid() && r == elm && Nodes(tree) == old(Nodes(tree)) - {elm} && OneOut(old(Inorder(tree)), elm, Inorder(tree))
    {
      hide Focus, Rep, RepC, Inorder, Nodes, NodesC, Plug, RedBlack, Sorted, OneOut;
      OpenTop(root, root, null, tree);
      ghost var x, t := Locate(root, root, null, Top, tree, elm);
      SplitInorder(x, t);
      ghost var a, b := Before(x) + Inorder(t.l), Inorder(t.r) + After(x);
      NodesInorder(tree);
      SortedWithout(a, elm, b);
      OneOutAt(a, elm, b);
      ghost var s := RemoveAt(elm, x, t);
      NodesInorder(s);
      tree := s;
      return elm;
    }

    /** RB_MINMAX: the first node in order for a negative val, else the last; NULL if there is none. */
    method MinMax(val: int) returns (parent: Node?)
      requires Valid()
      ensures parent == null <==> Inorder(tree) == []
      ensures parent != null ==> parent == Inorder(tree)[if val < 0 then 0 else |Inorder(tree)| - 1]
    {
      hide Focus, Rep, RepC, Nodes, NodesC, Plug, RedBlack, Sorted, Inorder;
      OpenTop(root, root, null, tree);
      Surroundings(root, root, null, Top, tree);
      OpenInorder(tree);
      var tmp := root;
      parent := null;
      ghost var x, t := Top, tree;
      while tmp != null
        invariant Focus(root, tmp, parent, x, t) && Plug(x, t) == tree && tmp == Ptr(t) && parent == Above(x, null)
        invariant val < 0 ==> Before(x) == [] && (!x.Top? ==> parent == After(x)[0])
        invariant val >= 0 ==> After(x) == [] && (!x.Top? ==> parent == Before(x)[|Before(x)| - 1])
        invariant x.Top? ==> t == tree
        invariant !x.Top? ==> if val < 0 then x.LeftOf? else x.RightOf?
        decreases t
      {
        Surroundings(root, tmp, parent, x, t);
        parent := tmp;
        if val < 0 {
          ghost var y := LeftOf(x, t.n, t.c, t.r);
          assert Fill(y, t.l) == t;
          Descend(root, parent, parent.parent, y, t.l);
          tmp, x, t := tmp.left, y, t.l;
        } else {
          ghost var y := RightOf(t.l, t.n, t.c, x);
          assert Fill(y, t.r) == t;
          Descend(root, parent, parent.parent, y, t.r);
          tmp, x, t := tmp.right, y, t.r;
        }
      }
      OpenInorder(t);
      PlugInorder(x, t);
    }

    /** The climb of RB_NEXT: to the nearest ancestor that has elm0 on its left. */
    method Climb(elm0: Node, ghost x0: Ctx, ghost t0: Tree) returns (r: Node?)
      requires Focus(root, elm0, elm0.parent, x0, t0)
      ensures r == if After(x0) == [] then null else After(x0)[0]
    {
      hide Focus, Nodes, NodesC, Plug, Inorder, Rep, RepC;
      var elm: Node := elm0;
      ghost var x, t := x0, t0;
      Position(root, elm, elm.parent, x, t);
      if !x.Top? { Ascend(root, elm, elm.parent, x, t); }
      if elm.parent != null && elm == elm.parent.left {
        return elm.parent;
      }
      while elm.parent != null && elm == elm.parent.right
        invariant Focus(root, elm, elm.parent, x, t) && After(x) == After(x0)
        invariant elm.parent == Above(x, null)
        invariant x.LeftOf? ==> x.n.left == elm != x.n.right
        invariant x.RightOf? ==> x.n.right == elm
        decreases Depth(x)
      {
        Ascend(root, elm, elm.parent, x, t);
        elm := elm.parent;
        x, t := x.up, Fill(x, t);
        Position(root, elm, elm.parent, x, t);
        if !x.Top? { Ascend(root, elm, elm.parent, x, t); }
      }
      return elm.parent;
    }

    /** RB_NEXT: the in-order successor. */
    method Next(elm: Node, ghost i: nat) returns (r: Node?)
      requires Valid() && i < |Inorder(tree)| && elm == Inorder(tree)[i]
      ensures r == if i + 1 < |Inorder(tree)| then Inorder(tree)[i + 1] else null
    {
      hide Focus, Rep, RepC, Nodes, NodesC, Plug, RedBlack, Inorder;
      NodesInorder(tree);
      OpenTop(root, root, null, tree);
      ghost var x, t := Locate(root, root, null, Top, tree, elm);
      SplitInorder(x, t);
      ghost var a := Before(x) + Inorder(t.l);
      assert Inorder(tree)[|a|] == elm;
      assert i == |a|;
      Children(root, elm, elm.parent, x, t);
      if elm.right != null {
        ghost var b := RightOf(t.l, elm, t.c, x);
        assert Fill(b, t.r) == t;
        Descend(root, elm, elm.parent, b, t.r);
        ghost var y, m;
        r, y, m := Leftmost(elm.right, b, t.r);
        SuccessorInorder(y, m);
      } else {
        OpenInorder(t.r);
        r := Climb(elm, x, t);
      }
    }

    /** RB_FOREACH: visits every node exactly once, in order. */
    method Foreach() returns (visited: seq<Node>)
      requires Valid()
      ensures visited == Inorder(tree)
    {
      hide Valid, Inorder;
      assert allocated(Nodes(tree));
      visited := [];
      var elm := MinMax(-1);
      while elm != null
        invariant Valid()
        invariant visited <= Inorder(tree)
        invariant elm == if |visited| < |Inorder(tree)| then Inorder(tree)[|visited|] else null
        decreases |Inorder(tree)| - |visited|
      {
        visited := visited + [elm];
        elm := Next(elm, |visited| - 1);
      }
    }
  }
}
