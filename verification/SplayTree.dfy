/** The splay tree operations of tree.h on the nodes themselves. */
module SplayTree {
  import opened Powers
  import opened Sequences
  import opened SplayShape
  import opened SplaySearch
  import opened SplayCost

  function RotatedRight(t: Tree): (u: Tree)
    requires t.Bin? && t.l.Bin?
    ensures Inorder(u) == Inorder(t) && Nodes(u) == Nodes(t)
  {
    Bin(t.l.l, t.l.n, Bin(t.l.r, t.n, t.r))
  }

  function RotatedLeft(t: Tree): (u: Tree)
    requires t.Bin? && t.r.Bin?
    ensures Inorder(u) == Inorder(t) && Nodes(u) == Nodes(t)
  {
    Bin(Bin(t.l, t.n, t.r.l), t.r.n, t.r.r)
  }

  /** Sets the open end of the smaller tree. */
  method EndSmaller(left: Node, p: Node?, ghost hd: Node, ghost sm: Spine)
    requires RepS(hd, sm) && left == Last(hd, sm) && hd !in NodesS(sm)
    modifies left`right
    ensures RepS(hd, sm) && left.right == p
  {
    left.right := p;
  }

  /** Sets the open end of the larger tree. */
  method EndLarger(right: Node, p: Node?, ghost hd: Node, ghost lg: Spine)
    requires RepL(hd, lg) && right == Last(hd, lg) && hd !in NodesS(lg)
    modifies right`left
    ensures RepL(hd, lg) && right.left == p
  {
    right.left := p;
  }

  lemma Start(root: Node?, hd: Node, t: Tree, k: int)
    requires Rep(root, t) && hd !in Nodes(t) && Sorted(Inorder(t))
    ensures Parts(root, hd, Nil, Nil, t) && NodesS(Nil) == {} && Between(Nil, t, Nil, k) && Whole(Nil, t, Nil) == Inorder(t)
  {
    assert [] + Inorder(t) + [] == Inorder(t);
  }

  lemma NoNodes(n: Node)
    ensures Sorted(Inorder(Bin(Leaf, n, Leaf))) && OneOut(Inorder(Bin(Leaf, n, Leaf)), n, Inorder(Leaf))
  {
    OneOutAt([], n, []);
  }

  lemma OneOutBefore<T>(l: seq<T>, n: T, m: T, r: seq<T>)
    ensures OneOut(l + [n] + ([] + [m] + r), n, l + [m] + r)
  {
    hide OneOut;
    OneOutAt(l, n, [] + [m] + r);
    assert l + ([] + [m] + r) == l + [m] + r;
  }

  lemma OneOutAfter<T>(l: seq<T>, m: T, n: T, r: seq<T>)
    ensures OneOut((l + [m] + []) + [n] + r, n, l + [m] + r)
  {
    hide OneOut;
    OneOutAt(l + [m] + [], n, r);
    assert (l + [m] + []) + r == l + [m] + r;
  }

  lemma InsertedLeft(l: Tree, n: Node, m: Node, r: Tree)
    requires Sorted(Inorder(l)) && Sorted(Inorder(r)) && Below(Inorder(l), n.key) && n.key < m.key && Above(m.key, Inorder(r))
    ensures Sorted(Inorder(Bin(l, n, Bin(Leaf, m, r)))) && OneOut(Inorder(Bin(l, n, Bin(Leaf, m, r))), n, Inorder(Bin(l, m, r)))
  {
    hide Inorder, OneOut, Sorted;
    OpenInorder(Bin(l, n, Bin(Leaf, m, r)));
    OpenInorder(Bin(Leaf, m, r));
    OpenInorder(Bin(l, m, r));
    OpenInorder(Leaf);
    NothingSorted();
    SortedJoin([], m, Inorder(r));
    SortedJoin(Inorder(l), n, [] + [m] + Inorder(r));
    OneOutBefore(Inorder(l), n, m, Inorder(r));
  }

  lemma InsertedRight(l: Tree, m: Node, n: Node, r: Tree)
    requires Sorted(Inorder(l)) && Sorted(Inorder(r)) && Below(Inorder(l), m.key) && m.key < n.key && Above(n.key, Inorder(r))
    ensures Sorted(Inorder(Bin(Bin(l, m, Leaf), n, r))) && OneOut(Inorder(Bin(Bin(l, m, Leaf), n, r)), n, Inorder(Bin(l, m, r)))
  {
    hide Inorder, OneOut, Sorted;
    OpenInorder(Bin(Bin(l, m, Leaf), n, r));
    OpenInorder(Bin(l, m, Leaf));
    OpenInorder(Bin(l, m, r));
    OpenInorder(Leaf);
    NothingSorted();
    SortedJoin(Inorder(l), m, []);
    SortedJoin(Inorder(l) + [m] + [], n, Inorder(r));
    OneOutAfter(Inorder(l), m, n, Inorder(r));
  }

  lemma NothingSorted()
    ensures Sorted([])
  {
  }

  lemma RootOut(l: Tree, n: Node, t: Tree)
    ensures OneOut(Inorder(Bin(l, n, t)), n, Inorder(l) + Inorder(t)) && (l.Leaf? ==> Inorder(l) + Inorder(t) == Inorder(t))
  {
    hide OneOut;
    OneOutAt(Inorder(l), n, Inorder(t));
  }

  /** Splaying the left tree for the removed key leaves its root without a right child. */
  lemma RemovedJoin(u: Tree, t: Tree, k: int)
    requires Splayed(u, k) && Sorted(Inorder(u)) && (forall m <- Nodes(u) :: m.key < k)
    requires Sorted(Inorder(t)) && Above(k, Inorder(t))
    ensures u.r == Leaf && Sorted(Inorder(Bin(u.l, u.n, t))) && Inorder(Bin(u.l, u.n, t)) == Inorder(u) + Inorder(t)
  {
    hide Inorder, Nodes;
    OpenInorder(u);
    OpenInorder(Leaf);
    SplayedRoot(u, k);
    OpenNodes(u);
    OpenNodes(u.r);
    OpenInorder(Bin(u.l, u.n, t));
    SortedJoin(Inorder(u.l), u.n, Inorder(t));
  }

  lemma OpenNodes(t: Tree)
    ensures t.Bin? ==> t.n in Nodes(t) && Nodes(t) == Nodes(t.l) + {t.n} + Nodes(t.r)
  {
  }

  /** Where the root of t stands in order. */
  lemma RootIndex(t: Tree, i: nat)
    requires t.Bin? && i < |Inorder(t)| && Inorder(t)[i] == t.n && Sorted(Inorder(t))
    ensures i + 1 < |Inorder(t)| <==> t.r.Bin?
    ensures t.r.Bin? ==> |Inorder(t.r)| > 0 && Inorder(t)[i + 1] == Inorder(t.r)[0]
  {
    hide Inorder;
    OpenInorder(t);
    OpenInorder(t.r);
    assert Inorder(t)[|Inorder(t.l)|] == t.n;
  }

  method Leftmost(elm: Node, ghost t0: Tree) returns (r: Node)
    requires t0.Bin? && Rep(elm, t0)
    ensures |Inorder(t0)| > 0 && r == Inorder(t0)[0]
  {
    hide Rep, Inorder;
    r := elm;
    ghost var t := t0;
    OpenBin(r, t);
    while r.left != null
      invariant t.Bin? && Rep(r, t) && r == t.n && r.left == Ptr(t.l) && Rep(r.left, t.l)
      invariant Inorder(t) <= Inorder(t0)
      decreases t
    {
      OpenInorder(t);
      r, t := r.left, t.l;
      OpenBin(r, t);
    }
    OpenInorder(t);
    OpenInorder(t.l);
  }

  /** The nodes inserted. */
  function Elements(os: seq<Op>): set<Node> { set i | 0 <= i < |os| && os[i].Insert? :: os[i].elm }

  lemma OneElement(os: seq<Op>, i: nat)
    requires i < |os|
    ensures Elements([os[i]]) <= Elements(os)
  {
  }

  lemma NoneApplied(t: Tree)
    ensures ApplyAll(t, []) == t && CostAll(t, []) == 0
  {
  }

  lemma RunBound(t: Tree, os: seq<Op>)
    ensures CostAll(t, os) <= 2 * (|Inorder(t)| * Lg(|Inorder(t)| + 1)) + |os| * (12 * Lg(|Inorder(t)| + Inserts(os) + 2) + 2)
  {
    hide Inorder, Lg, CostAll, Inserts, Weight, Size;
    WeightInorder(t);
    AmortisedTotal(t, os);
  }

  lemma StartRebuilt(t: Tree, k: int)
    requires t.Bin?
    ensures Rebuilt(Nil, Part(t, k), Nil) == SplayOf(t, k)
  {
    hide Part;
  }

  lemma EndRebuilt(sm: Spine, m: Tree, lg: Spine, k: int)
    requires Settled(m, k)
    ensures Rebuilt(sm, Part(m, k), lg) == Assembled(sm, m, lg) && (k == m.n.key ==> Turns(m, k) == 0)
  {
    ZigStops(m, k);
  }

  lemma OpenParts(root: Node?, hd: Node, sm: Spine, lg: Spine, m: Tree)
    requires Parts(root, hd, sm, lg, m) && m.Bin?
    ensures root == m.n && root.left == Ptr(m.l) && root.right == Ptr(m.r)
    ensures root in Nodes(m) && Nodes(m.l) <= Nodes(m) && Nodes(m.r) <= Nodes(m)
  {
    hide RepS, RepL, NodesS;
    OpenBin(root, m);
  }

  lemma SameWhole(sm: Spine, m: Tree, m': Tree, lg: Spine)
    requires Inorder(m) == Inorder(m')
    ensures Whole(sm, m', lg) == Whole(sm, m, lg)
  {
  }

  lemma SameBetween(sm: Spine, m: Tree, m': Tree, lg: Spine, k: int)
    requires Inorder(m) == Inorder(m')
    ensures Whole(sm, m', lg) == Whole(sm, m, lg) && (Between(sm, m, lg, k) ==> Between(sm, m', lg, k))
  {
    hide Inorder, Smaller, Larger, Sorted, Below, Above;
  }

  class Head {
    var root: Node?
    ghost var tree: Tree
    ghost var turns: nat   // of the loop of SPLAY, ever

    ghost predicate Valid()
      reads this, Nodes(tree)
    {
      Rep(root, tree) && Sorted(Inorder(tree))
    }

    constructor ()
      ensures Valid() && tree == Leaf && turns == 0
    {
      root, tree, turns := null, Leaf, 0;
    }

    method RotateRight(tmp: Node, ghost m: Tree)
      requires m.Bin? && m.l.Bin? && tmp == m.l.n && Rep(root, m)
      modifies this`root, Nodes(m)
      ensures Rep(root, RotatedRight(m))
    {
      hide Rep, Nodes;
      OpenBin(root, m);
      OpenBin(tmp, m.l);
      root.left := tmp.right;
      tmp.right := root;
      CloseBin(root, m.l.r, m.r);
      root := tmp;
      CloseBin(tmp, m.l.l, Bin(m.l.r, m.n, m.r));
    }

    method RotateLeft(tmp: Node, ghost m: Tree)
      requires m.Bin? && m.r.Bin? && tmp == m.r.n && Rep(root, m)
      modifies this`root, Nodes(m)
      ensures Rep(root, RotatedLeft(m))
    {
      hide Rep, Nodes;
      OpenBin(root, m);
      OpenBin(tmp, m.r);
      root.right := tmp.left;
      tmp.left := root;
      CloseBin(root, m.l, m.r.l);
      root := tmp;
      CloseBin(tmp, Bin(m.l, m.n, m.r.l), m.r.r);
    }

    /** Moves the root and its right subtree to the end of the larger tree. */
    method LinkLeft(right: Node, ghost hd: Node, ghost sm: Spine, ghost lg: Spine, ghost m: Tree) returns (r: Node)
      requires Parts(root, hd, sm, lg, m) && m.Bin? && right == Last(hd, lg)
      modifies this`root, right`left
      ensures Parts(root, hd, sm, Snoc(lg, m.n, m.r), m.l) && r == m.n
      ensures NodesS(Snoc(lg, m.n, m.r)) == NodesS(lg) + {m.n} + Nodes(m.r) && Nodes(m) == Nodes(m.l) + {m.n} + Nodes(m.r)
    {
      hide Rep, Nodes, NodesS;
      OpenBin(root, m);
      right.left := root;
      r := root;
      root := root.left;
      CloseL(hd, lg, r, m.r);
    }

    /** Moves the root and its left subtree to the end of the smaller tree. */
    method LinkRight(left: Node, ghost hd: Node, ghost sm: Spine, ghost lg: Spine, ghost m: Tree) returns (r: Node)
      requires Parts(root, hd, sm, lg, m) && m.Bin? && left == Last(hd, sm)
      modifies this`root, left`right
      ensures Parts(root, hd, Snoc(sm, m.n, m.l), lg, m.r) && r == m.n
      ensures NodesS(Snoc(sm, m.n, m.l)) == NodesS(sm) + {m.n} + Nodes(m.l) && Nodes(m) == Nodes(m.l) + {m.n} + Nodes(m.r)
    {
      hide Rep, Nodes, NodesS;
      OpenBin(root, m);
      left.right := root;
      r := root;
      root := root.right;
      CloseS(hd, sm, r, m.l);
    }

    method Assemble(hd: Node, left: Node, right: Node, ghost sm: Spine, ghost lg: Spine, ghost m: Tree)
      requires Parts(root, hd, sm, lg, m) && m.Bin? && left == Last(hd, sm) && right == Last(hd, lg)
      modifies root, hd, NodesS(sm), NodesS(lg)
      ensures Rep(root, Assembled(sm, m, lg))
      ensures Nodes(Assembled(sm, m, lg)) == NodesS(sm) + NodesS(lg) + Nodes(m)
    {
      hide Rep, RepS, RepL, Nodes, NodesS;
      OpenBin(root, m);
      assert allocated(Nodes(m.l)) && allocated(Nodes(m.r)) && allocated(NodesS(sm)) && allocated(NodesS(lg));
      EndSmaller(left, root.left, hd, sm);
      EndLarger(right, root.right, hd, lg);
      BuiltS(hd, sm, root.left, m.l);
      BuiltL(hd, lg, root.right, m.r);
      root.left := hd.right;
      root.right := hd.left;
      CloseBin(root, BuildS(sm, m.l), BuildL(lg, m.r));
    }

    /** The rotations inside the loop leave the two linked trees alone. */
    method TurnRight(tmp: Node, ghost hd: Node, ghost sm: Spine, ghost lg: Spine, ghost m: Tree)
      requires m.Bin? && m.l.Bin? && tmp == m.l.n && Parts(root, hd, sm, lg, m)
      modifies this`root, Nodes(m)
      ensures Parts(root, hd, sm, lg, RotatedRight(m))
    {
      hide Rep, RepS, RepL, Nodes, NodesS, RotatedRight;
      assert allocated(NodesS(sm)) && allocated(NodesS(lg));
      RotateRight(tmp, m);
    }

    method TurnLeft(tmp: Node, ghost hd: Node, ghost sm: Spine, ghost lg: Spine, ghost m: Tree)
      requires m.Bin? && m.r.Bin? && tmp == m.r.n && Parts(root, hd, sm, lg, m)
      modifies this`root, Nodes(m)
      ensures Parts(root, hd, sm, lg, RotatedLeft(m))
    {
      hide Rep, RepS, RepL, Nodes, NodesS, RotatedLeft;
      assert allocated(NodesS(sm)) && allocated(NodesS(lg));
      RotateLeft(tmp, m);
    }

    /** One turn of the SPLAY loop with elm smaller than the root. */
    method StepLeft(elm: Node, right: Node, ghost hd: Node, ghost sm: Spine, ghost lg: Spine, ghost m: Tree)
      returns (done: bool, r: Node, ghost lg': Spine, ghost m': Tree)
      requires Parts(root, hd, sm, lg, m) && m.Bin? && right == Last(hd, lg)
      requires Between(sm, m, lg, elm.key) && elm.key < m.n.key
      modifies this`root, right`left, Nodes(m)
      ensures Parts(root, hd, sm, lg', m') && m'.Bin? && r == Last(hd, lg')
      ensures Between(sm, m', lg', elm.key) && Whole(sm, m', lg') == Whole(sm, m, lg)
      ensures NodesS(lg') + Nodes(m') == NodesS(lg) + Nodes(m)
      ensures if done then Settled(m', elm.key) && Size(m') <= Size(m) else Size(m') < Size(m)
      ensures Rebuilt(sm, Part(m', elm.key), lg') == Rebuilt(sm, Part(m, elm.key), lg)
      ensures Turns(m, elm.key) == 1 + TurnsLeft(m', elm.key, done)
    {
      hide Parts, Between, Whole, Nodes, NodesS, Inorder, Rebuilt, Part, Turns;
      OpenParts(root, hd, sm, lg, m);
      r, lg', m' := right, lg, m;
      var tmp := root.left;
      if tmp == null {
        TurnedNot(m, elm.key);
        return true, r, lg', m';
      }
      TurnedLeft(sm, m, lg, elm.key);
      if elm.key < tmp.key {
        TurnRight(tmp, hd, sm, lg, m);
        m' := RotatedRight(m);
        OpenParts(root, hd, sm, lg, m');
        SameBetween(sm, m, m', lg, elm.key);
        if root.left == null {
          return true, r, lg', m';
        }
      }
      LinkedLeft(sm, m', lg', elm.key);
      LinkedLeftWhole(sm, m', lg');
      r := LinkLeft(right, hd, sm, lg', m');
      lg', m' := Snoc(lg', m'.n, m'.r), m'.l;
      return false, r, lg', m';
    }

    /** One turn of the SPLAY loop with elm larger than the root. */
    method StepRight(elm: Node, left: Node, ghost hd: Node, ghost sm: Spine, ghost lg: Spine, ghost m: Tree)
      returns (done: bool, r: Node, ghost sm': Spine, ghost m': Tree)
      requires Parts(root, hd, sm, lg, m) && m.Bin? && left == Last(hd, sm)
      requires Between(sm, m, lg, elm.key) && m.n.key < elm.key
      modifies this`root, left`right, Nodes(m)
      ensures Parts(root, hd, sm', lg, m') && m'.Bin? && r == Last(hd, sm')
      ensures Between(sm', m', lg, elm.key) && Whole(sm', m', lg) == Whole(sm, m, lg)
      ensures NodesS(sm') + Nodes(m') == NodesS(sm) + Nodes(m)
      ensures if done then Settled(m', elm.key) && Size(m') <= Size(m) else Size(m') < Size(m)
      ensures Rebuilt(sm', Part(m', elm.key), lg) == Rebuilt(sm, Part(m, elm.key), lg)
      ensures Turns(m, elm.key) == 1 + TurnsLeft(m', elm.key, done)
    {
      hide Parts, Between, Whole, Nodes, NodesS, Inorder, Rebuilt, Part, Turns;
      OpenParts(root, hd, sm, lg, m);
      r, sm', m' := left, sm, m;
      var tmp := root.right;
      if tmp == null {
        TurnedNot(m, elm.key);
        return true, r, sm', m';
      }
      TurnedRight(sm, m, lg, elm.key);
      if elm.key > tmp.key {
        TurnLeft(tmp, hd, sm, lg, m);
        m' := RotatedLeft(m);
        OpenParts(root, hd, sm, lg, m');
        SameBetween(sm, m, m', lg, elm.key);
        if root.right == null {
          return true, r, sm', m';
        }
      }
      LinkedRight(sm', m', lg, elm.key);
      LinkedRightWhole(sm', m', lg);
      r := LinkRight(left, hd, sm', lg, m');
      sm', m' := Snoc(sm', m'.n, m'.l), m'.r;
      return false, r, sm', m';
    }

    /**
     SPLAY: rearranges t0, keeping its order, so that the node with elm's key, or else a
     node next to where elm would be, is the root. Each turn of its loop is counted.
     */
    method Splay(elm: Node, ghost t0: Tree) returns (ghost u: Tree)
      requires t0.Bin? && Rep(root, t0) && Sorted(Inorder(t0))
      modifies this`root, this`turns, Nodes(t0)
      ensures Rep(root, u) && Nodes(u) == Nodes(t0) && Inorder(u) == Inorder(t0) && Splayed(u, elm.key)
      ensures u == SplayOf(t0, elm.key) && turns == old(turns) + Turns(t0, elm.key)
    {
      hide Rep, Parts, Between, Whole, Nodes, NodesS, Inorder, Sorted, Splayed, Rebuilt, Part, Turns, SplayOf, Assembled;
      assert allocated(Nodes(t0));
      var hd := new Node(0);
      var left, right := hd, hd;
      ghost var sm, lg, m := Nil, Nil, t0;
      Start(root, hd, t0, elm.key);
      StartRebuilt(t0, elm.key);
      OpenParts(root, hd, sm, lg, m);
      var done := false;
      while !done && elm.key != root.key
        invariant Parts(root, hd, sm, lg, m) && m.Bin? && root == m.n && left == Last(hd, sm) && right == Last(hd, lg)
        invariant Between(sm, m, lg, elm.key) && Whole(sm, m, lg) == Inorder(t0)
        invariant NodesS(sm) + NodesS(lg) + Nodes(m) == Nodes(t0)
        invariant (done ==> Settled(m, elm.key)) && root in Nodes(m)
        invariant Rebuilt(sm, Part(m, elm.key), lg) == SplayOf(t0, elm.key)
        invariant turns + TurnsLeft(m, elm.key, done) == old(turns) + Turns(t0, elm.key)
        decreases Size(m), !done
      {
        if elm.key < root.key {
          done, right, lg, m := StepLeft(elm, right, hd, sm, lg, m);
        } else {
          done, left, sm, m := StepRight(elm, left, hd, sm, lg, m);
        }
        turns := turns + 1;
        OpenParts(root, hd, sm, lg, m);
      }
      EndRebuilt(sm, m, lg, elm.key);
      AssembledInorder(sm, m, lg);
      AssembledSplayed(sm, m, lg, elm.key);
      Assemble(hd, left, right, sm, lg, m);
      u := Assembled(sm, m, lg);
    }

    /** SPLAY_FIND. */
    method Find(elm: Node) returns (r: Node?)
      requires Valid()
      modifies this, Nodes(tree)
      ensures Valid() && Inorder(tree) == old(Inorder(tree)) && Nodes(tree) == old(Nodes(tree))
      ensures tree == Apply(old(tree), Op.Find(elm.key)) && turns == old(turns) + Cost(old(tree), Op.Find(elm.key))
      ensures r != null ==> r in Nodes(tree) && r.key == elm.key
      ensures r == null ==> forall n <- Nodes(tree) :: n.key != elm.key
    {
      hide Rep, Nodes, Inorder, Sorted, SplayOf, Turns;
      OpenLeaf(root, tree);
      if root == null {
        return null;
      }
      tree := Splay(elm, tree);
      SplayedRoot(tree, elm.key);
      OpenBin(root, tree);
      if elm.key == root.key {
        return root;
      }
      return null;
    }

    /** The assignments of SPLAY_INSERT that put elm above the root, on its left or its right. */
    method HangLeft(elm: Node, ghost l: Tree, ghost n: Node, ghost t: Tree)
      requires Rep(root, Bin(l, n, t)) && elm !in Nodes(Bin(l, n, t))
      modifies this`root, n, elm
      ensures Rep(root, Bin(l, elm, Bin(Leaf, n, t))) && Nodes(Bin(l, elm, Bin(Leaf, n, t))) == Nodes(Bin(l, n, t)) + {elm}
    {
      hide Rep, Nodes;
      OpenBin(root, Bin(l, n, t));
      OpenLeaf(null, Leaf);
      elm.left := root.left;
      elm.right := root;
      root.left := null;
      root := elm;
      CloseBin(n, Leaf, t);
      CloseBin(elm, l, Bin(Leaf, n, t));
    }

    method HangRight(elm: Node, ghost l: Tree, ghost n: Node, ghost t: Tree)
      requires Rep(root, Bin(l, n, t)) && elm !in Nodes(Bin(l, n, t))
      modifies this`root, n, elm
      ensures Rep(root, Bin(Bin(l, n, Leaf), elm, t)) && Nodes(Bin(Bin(l, n, Leaf), elm, t)) == Nodes(Bin(l, n, t)) + {elm}
    {
      hide Rep, Nodes;
      OpenBin(root, Bin(l, n, t));
      OpenLeaf(null, Leaf);
      elm.right := root.right;
      elm.left := root;
      root.right := null;
      root := elm;
      CloseBin(n, l, Leaf);
      CloseBin(elm, Bin(l, n, Leaf), t);
    }

    /** SPLAY_INSERT: adds elm, unless a node with its key is there already. */
    method Insert(elm: Node) returns (r: Node?)
      requires Valid()
      modifies this, Nodes(tree), elm
      ensures Valid()
      ensures tree == Apply(old(tree), Op.Insert(elm)) && turns == old(turns) + Cost(old(tree), Op.Insert(elm))
      ensures r != null ==> r in old(Nodes(tree)) && r.key == elm.key && Inorder(tree) == old(Inorder(tree)) && Nodes(tree) == old(Nodes(tree))
      ensures r == null ==> (forall n <- old(Nodes(tree)) :: n.key != elm.key) && Nodes(tree) == old(Nodes(tree)) + {elm}
      ensures r == null ==> OneOut(Inorder(tree), elm, old(Inorder(tree)))
    {
      hide Rep, Nodes, Inorder, Sorted, Below, Above, SplayOf, Turns, OneOut;
      OpenLeaf(root, tree);
      OpenLeaf(null, Leaf);
      if root == null {
        elm.left, elm.right := null, null;
        CloseBin(elm, Leaf, Leaf);
        NoNodes(elm);
        tree := Bin(Leaf, elm, Leaf);
        root := elm;
        return null;
      }
      tree := Splay(elm, tree);
      SplayedRoot(tree, elm.key);
      OpenBin(root, tree);
      ghost var l, n, t := tree.l, tree.n, tree.r;
      if elm.key < root.key {
        HangLeft(elm, l, n, t);
        InsertedLeft(l, elm, n, t);
        tree := Bin(l, elm, Bin(Leaf, n, t));
      } else if elm.key > root.key {
        HangRight(elm, l, n, t);
        InsertedRight(l, n, elm, t);
        tree := Bin(Bin(l, n, Leaf), elm, t);
      } else {
        return root;
      }
      return null;
    }

    /** SPLAY_REMOVE: takes the node with elm's key out; the result is elm itself, or NULL. */
    method Remove(elm: Node) returns (r: Node?)
      requires Valid()
      modifies this, Nodes(tree)
      ensures Valid()
      ensures tree == Apply(old(tree), Op.Remove(elm.key)) && turns == old(turns) + Cost(old(tree), Op.Remove(elm.key))
      ensures r == if exists n <- old(Nodes(tree)) :: n.key == elm.key then elm else null
      ensures Nodes(tree) == Others(old(Nodes(tree)), elm.key)
      ensures r == null ==> Inorder(tree) == old(Inorder(tree))
      ensures r != null ==> exists n <- old(Nodes(tree)) :: n.key == elm.key && OneOut(old(Inorder(tree)), n, Inorder(tree))
    {
      hide Rep, Nodes, Inorder, Sorted, Below, Above, SplayOf, Turns, OneOut;
      OpenLeaf(root, tree);
      OpenLeaf(null, Leaf);
      if root == null {
        return null;
      }
      tree := Splay(elm, tree);
      SplayedRoot(tree, elm.key);
      OpenBin(root, tree);
      if elm.key == root.key {
        ghost var l, n, t := tree.l, tree.n, tree.r;
        RootOut(l, n, t);
        if root.left == null {
          root := root.right;
          OpenLeaf(null, l);
          tree := t;
        } else {
          assert allocated(Nodes(t)) && allocated(Nodes(l));
          var tmp := root.right;
          root := root.left;
          ghost var u := Splay(elm, l);
          RemovedJoin(u, t, elm.key);
          OpenBin(root, u);
          OpenLeaf(root.right, u.r);
          root.right := tmp;
          CloseBin(root, u.l, t);
          tree := Bin(u.l, u.n, t);
        }
        return elm;
      }
      return null;
    }

    /** SPLAY_NEXT: the in-order successor of elm, which becomes the root. */
    method Next(elm: Node, ghost i: nat) returns (r: Node?)
      requires Valid() && i < |Inorder(tree)| && elm == Inorder(tree)[i]
      modifies this, Nodes(tree)
      ensures Valid() && Inorder(tree) == old(Inorder(tree)) && Nodes(tree) == old(Nodes(tree)) && root == elm
      ensures turns == old(turns) + Turns(old(tree), elm.key)
      ensures r == if i + 1 < |Inorder(tree)| then Inorder(tree)[i + 1] else null
    {
      hide Rep, Nodes, Inorder, Below, Above, Sorted;
      NodesInorder(tree);
      OpenInorder(tree);
      tree := Splay(elm, tree);
      SplayedRoot(tree, elm.key);
      OpenBin(root, tree);
      RootIndex(tree, i);
      assert allocated(Nodes(tree));
      if elm.right != null {
        r := Leftmost(elm.right, tree.r);
      } else {
        r := null;
      }
    }

    /** One turn of the SPLAY_MINMAX loop, towards the smallest node or the largest. */
    method MinMaxStep(comp: int, left: Node, right: Node, ghost hd: Node, ghost sm: Spine, ghost lg: Spine, ghost m: Tree)
      returns (done: bool, l: Node, r: Node, ghost sm': Spine, ghost lg': Spine, ghost m': Tree)
      requires comp != 0 && Parts(root, hd, sm, lg, m) && m.Bin? && left == Last(hd, sm) && right == Last(hd, lg)
      modifies this`root, left`right, right`left, Nodes(m)
      ensures Parts(root, hd, sm', lg', m') && m'.Bin? && l == Last(hd, sm') && r == Last(hd, lg')
      ensures Whole(sm', m', lg') == Whole(sm, m, lg)
      ensures NodesS(sm') + NodesS(lg') + Nodes(m') == NodesS(sm) + NodesS(lg) + Nodes(m)
      ensures comp < 0 ==> sm' == sm && (done ==> m'.l.Leaf?)
      ensures comp > 0 ==> lg' == lg && (done ==> m'.r.Leaf?)
      ensures !done ==> Size(m') < Size(m)
    {
      hide Parts, Whole, Nodes, NodesS, Inorder;
      OpenParts(root, hd, sm, lg, m);
      done, l, r, sm', lg', m' := true, left, right, sm, lg, m;
      if comp < 0 {
        var tmp := root.left;
        if tmp == null { return; }
        TurnRight(tmp, hd, sm, lg, m);
        m' := RotatedRight(m);
        OpenParts(root, hd, sm, lg, m');
        SameWhole(sm, m, m', lg);
        if root.left == null { return; }
        LinkedLeftWhole(sm, m', lg);
        r := LinkLeft(right, hd, sm, lg, m');
        lg', m' := Snoc(lg, m'.n, m'.r), m'.l;
      } else {
        var tmp := root.right;
        if tmp == null { return; }
        TurnLeft(tmp, hd, sm, lg, m);
        m' := RotatedLeft(m);
        OpenParts(root, hd, sm, lg, m');
        SameWhole(sm, m, m', lg);
        if root.right == null { return; }
        LinkedRightWhole(sm, m', lg);
        l := LinkRight(left, hd, sm, lg, m');
        sm', m' := Snoc(sm, m'.n, m'.l), m'.r;
      }
      done := false;
    }

    /** SPLAY_MINMAX: the smallest node for a negative comp, the largest for a positive one, becomes the root. */
    method MinMax(comp: int) returns (r: Node?)
      requires Valid() && tree.Bin? && comp != 0
      modifies this, Nodes(tree)
      ensures Valid() && Inorder(tree) == old(Inorder(tree)) && Nodes(tree) == old(Nodes(tree)) && r == root
      ensures |Inorder(tree)| > 0 && r == Inorder(tree)[if comp < 0 then 0 else |Inorder(tree)| - 1]
    {
      hide Rep, RepS, RepL, Nodes, NodesS, Inorder, Smaller, Larger, Sorted;
      assert allocated(Nodes(tree));
      var hd := new Node(0);
      var left, right := hd, hd;
      ghost var sm, lg, m := Nil, Nil, tree;
      Start(root, hd, tree, 0);
      OpenBin(root, tree);
      var done := false;
      while !done
        invariant Parts(root, hd, sm, lg, m) && m.Bin? && root == m.n && left == Last(hd, sm) && right == Last(hd, lg)
        invariant Whole(sm, m, lg) == Inorder(tree) && tree == old(tree) && root in Nodes(m)
        invariant NodesS(sm) + NodesS(lg) + Nodes(m) == Nodes(tree)
        invariant if comp < 0 then sm.Nil? && (done ==> m.l.Leaf?) else lg.Nil? && (done ==> m.r.Leaf?)
        decreases if done then 0 else 1 + Size(m)
      {
        done, left, right, sm, lg, m := MinMaxStep(comp, left, right, hd, sm, lg, m);
        OpenBin(root, m);
      }
      AssembledInorder(sm, m, lg);
      OpenWhole(sm, m, lg);
      OpenInorder(Leaf);
      OpenSnoc(Nil, m.n, Leaf);
      Assemble(hd, left, right, sm, lg, m);
      tree := Assembled(sm, m, lg);
      r := root;
    }

    /** SPLAY_MIN and SPLAY_MAX. */
    method MinOrMax(max: bool) returns (r: Node?)
      requires Valid()
      modifies this, Nodes(tree)
      ensures Valid() && Inorder(tree) == old(Inorder(tree)) && Nodes(tree) == old(Nodes(tree))
      ensures r == null <==> Inorder(tree) == []
      ensures r != null ==> r == Inorder(tree)[if max then |Inorder(tree)| - 1 else 0]
    {
      hide Rep, Nodes, Inorder, Sorted;
      OpenLeaf(root, tree);
      OpenInorder(tree);
      if root == null {
        return null;
      }
      r := MinMax(if max then 1 else -1);
    }

    /** SPLAY_FOREACH: visits every node exactly once, in order. */
    method Foreach() returns (visited: seq<Node>)
      requires Valid()
      modifies this, Nodes(tree)
      ensures Valid() && visited == Inorder(tree) == old(Inorder(tree)) && Nodes(tree) == old(Nodes(tree))
    {
      hide Rep, Nodes, Inorder, Sorted;
      visited := [];
      var elm := MinOrMax(false);
      while elm != null
        invariant Valid() && Inorder(tree) == old(Inorder(tree)) && Nodes(tree) == old(Nodes(tree))
        invariant visited <= Inorder(tree)
        invariant elm == if |visited| < |Inorder(tree)| then Inorder(tree)[|visited|] else null
        decreases |Inorder(tree)| - |visited|
      {
        visited := visited + [elm];
        elm := Next(elm, |visited| - 1);
      }
    }

    /**
     Any operations one after the other. However they are mixed, the turns of SPLAY they take
     together are bounded as tree.h promises.
     */
    method Run(os: seq<Op>)
      requires Valid()
      modifies this, Nodes(tree), Elements(os)
      ensures Valid() && tree == ApplyAll(old(tree), os) && turns == old(turns) + CostAll(old(tree), os)
      ensures turns - old(turns) <= 2 * (|old(Inorder(tree))| * Lg(|old(Inorder(tree))| + 1))
                                    + |os| * (12 * Lg(|old(Inorder(tree))| + Inserts(os) + 2) + 2)
    {
      hide Rep, Nodes, Inorder, Sorted, Apply, Cost, ApplyAll, CostAll, OneOut, Others;
      NoneApplied(tree);
      for i := 0 to |os|
        invariant Valid() && Nodes(tree) <= old(Nodes(tree)) + Elements(os)
        invariant tree == ApplyAll(old(tree), os[..i]) && turns == old(turns) + CostAll(old(tree), os[..i])
      {
        assert os[..i + 1] == os[..i] + [os[i]];
        AllAndOne(old(tree), os[..i], os[i]);
        RunOne(os[i]);
        OneElement(os, i);
      }
      assert os[..|os|] == os;
      RunBound(old(tree), os);
    }

    method RunOne(o: Op)
      requires Valid()
      modifies this, Nodes(tree), Elements([o])
      ensures Valid() && tree == Apply(old(tree), o) && turns == old(turns) + Cost(old(tree), o)
      ensures Nodes(tree) <= old(Nodes(tree)) + Elements([o])
    {
      hide Rep, Nodes, Inorder, Sorted, Apply, Cost, OneOut;
      assert allocated(Nodes(tree));
      match o
      case Find(k) =>
        var elm := new Node(k);
        var r := Find(elm);
      case Insert(elm) =>
        assert [o][0] == o;
        var r := Insert(elm);
      case Remove(k) =>
        var elm := new Node(k);
        var r := Remove(elm);
    }
  }
}
