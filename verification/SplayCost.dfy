/**
 What SPLAY makes of a tree, as a function, and how many turns of its loop that takes. With the
 potential of a tree, the sum of the ranks of its subtrees, the turns average out: a sequence
 of operations takes O(lg n) turns each.
 */
module SplayCost {
  import opened Powers
  import opened SplayShape
  import opened SplaySearch

  /** One more than the number of nodes. */
  function Weight(t: Tree): (w: nat)
    ensures w == Size(t) + 1
  {
    match t
    case Leaf => 1
    case Bin(l, _, r) => Weight(l) + Weight(r)
  }

  /** The middle tree when the loop stops, and what has been linked to the left and right of it. */
  datatype Parted = Parted(l: Tree, n: Node, r: Tree)

  function Part(t: Tree, k: int): (p: Parted)
    requires t.Bin?
    ensures Weight(p.l) + Weight(p.r) == Weight(t)
    decreases t
  {
    if k == t.n.key || (k < t.n.key && t.l.Leaf?) || (t.n.key < k && t.r.Leaf?) then Parted(t.l, t.n, t.r)
    else if k < t.n.key then
      var x := t.l;
      if k >= x.n.key then LinkR(Part(x, k), t.n, t.r)
      else if x.l.Leaf? then Parted(Leaf, x.n, Bin(x.r, t.n, t.r))
      else LinkR(Part(x.l, k), x.n, Bin(x.r, t.n, t.r))
    else
      var x := t.r;
      if k <= x.n.key then LinkL(t.l, t.n, Part(x, k))
      else if x.r.Leaf? then Parted(Bin(t.l, t.n, x.l), x.n, Leaf)
      else LinkL(Bin(t.l, t.n, x.l), x.n, Part(x.r, k))
  }

  /** n and its right tree are linked into the tree of larger nodes before the loop goes on; mirrored in LinkL. */
  function LinkR(p: Parted, n: Node, r: Tree): Parted { Parted(p.l, p.n, Bin(p.r, n, r)) }

  function LinkL(l: Tree, n: Node, p: Parted): Parted { Parted(Bin(l, n, p.l), p.n, p.r) }

  /** The turns of the loop. */
  function Turns(t: Tree, k: int): nat
    requires t.Bin?
    decreases t
  {
    if k == t.n.key then 0
    else if k < t.n.key then
      if t.l.Leaf? then 1
      else if k >= t.l.n.key then 1 + Turns(t.l, k)
      else if t.l.l.Leaf? then 1
      else 1 + Turns(t.l.l, k)
    else
      if t.r.Leaf? then 1
      else if k <= t.r.n.key then 1 + Turns(t.r, k)
      else if t.r.r.Leaf? then 1
      else 1 + Turns(t.r.r, k)
  }

  /** The nodes met on the way to k, or to where k would be. */
  function PathLength(t: Tree, k: int): nat {
    if t.Leaf? then 0
    else 1 + if k == t.n.key then 0 else if k < t.n.key then PathLength(t.l, k) else PathLength(t.r, k)
  }

  /** A turn goes down at most two levels of the tree, and at least one. */
  lemma {:induction false} TurnsPath(t: Tree, k: int)
    requires t.Bin?
    ensures PathLength(t, k) <= 2 * Turns(t, k) + 1 && Turns(t, k) <= PathLength(t, k)
    decreases t
  {
    if k < t.n.key && t.l.Bin? {
      if k >= t.l.n.key {
        TurnsPath(t.l, k);
      } else {
        assert PathLength(t.l, k) == 1 + PathLength(t.l.l, k);
        if t.l.l.Bin? { TurnsPath(t.l.l, k); }
      }
    } else if k > t.n.key && t.r.Bin? {
      if k <= t.r.n.key {
        TurnsPath(t.r, k);
      } else {
        assert PathLength(t.r, k) == 1 + PathLength(t.r.r, k);
        if t.r.r.Bin? { TurnsPath(t.r.r, k); }
      }
    }
  }

  lemma {:induction false} WeightInorder(t: Tree)
    ensures Weight(t) == |Inorder(t)| + 1
  {
    if t.Bin? {
      WeightInorder(t.l);
      WeightInorder(t.r);
    }
  }

  function SplayOf(t: Tree, k: int): (u: Tree)
    requires t.Bin?
    ensures u.Bin? && Weight(u) == Weight(t)
  {
    var p := Part(t, k);
    Bin(p.l, p.n, p.r)
  }

  /** The whole tree once the middle tree is parted as p. */
  function Rebuilt(sm: Spine, p: Parted, lg: Spine): Tree { Bin(BuildS(sm, p.l), p.n, BuildL(lg, p.r)) }

  /** The turns still to come if the middle tree is m. */
  function TurnsLeft(m: Tree, k: int, done: bool): nat
    requires m.Bin?
  {
    if done then 0 else Turns(m, k)
  }

  /** A turn to the left, and one to the right, leave what the loop is going to make of the tree. */
  lemma TurnedLeft(sm: Spine, m: Tree, lg: Spine, k: int)
    requires m.Bin? && k < m.n.key && m.l.Bin?
    ensures k >= m.l.n.key ==> Rebuilt(sm, Part(m.l, k), Snoc(lg, m.n, m.r)) == Rebuilt(sm, Part(m, k), lg)
    ensures k >= m.l.n.key ==> Turns(m, k) == 1 + Turns(m.l, k)
    ensures k < m.l.n.key ==> var u := Bin(m.l.l, m.l.n, Bin(m.l.r, m.n, m.r));
              if u.l.Leaf? then Turns(m, k) == 1 && Part(u, k) == Part(m, k)
              else Turns(m, k) == 1 + Turns(u.l, k) && Rebuilt(sm, Part(u.l, k), Snoc(lg, u.n, u.r)) == Rebuilt(sm, Part(m, k), lg)
  {
  }

  lemma TurnedRight(sm: Spine, m: Tree, lg: Spine, k: int)
    requires m.Bin? && k > m.n.key && m.r.Bin?
    ensures k <= m.r.n.key ==> Rebuilt(Snoc(sm, m.n, m.l), Part(m.r, k), lg) == Rebuilt(sm, Part(m, k), lg)
    ensures k <= m.r.n.key ==> Turns(m, k) == 1 + Turns(m.r, k)
    ensures k > m.r.n.key ==> var u := Bin(Bin(m.l, m.n, m.r.l), m.r.n, m.r.r);
              if u.r.Leaf? then Turns(m, k) == 1 && Part(u, k) == Part(m, k)
              else Turns(m, k) == 1 + Turns(u.r, k) && Rebuilt(Snoc(sm, u.n, u.l), Part(u.r, k), lg) == Rebuilt(sm, Part(m, k), lg)
  {
  }

  lemma TurnedNot(m: Tree, k: int)
    requires m.Bin? && k != m.n.key && (if k < m.n.key then m.l.Leaf? else m.r.Leaf?)
    ensures Turns(m, k) == 1
  {
  }

  function Rank(t: Tree): nat { Lg(Weight(t)) }

  function Phi(t: Tree): nat {
    match t
    case Leaf => 0
    case Bin(l, _, r) => Rank(t) + Phi(l) + Phi(r)
  }

  /** The turns are paid for by the potential and four times the rank. */
  predicate Paid(t: Tree, k: int)
    requires t.Bin?
  {
    Turns(t, k) + 2 * (Phi(Part(t, k).l) + Phi(Part(t, k).r)) <= 2 * Phi(t) + 4 * Rank(t) + 1
  }

  lemma OpenPhi(l: Tree, n: Node, r: Tree)
    ensures Phi(Bin(l, n, r)) == Lg(Weight(l) + Weight(r)) + Phi(l) + Phi(r)
    ensures Weight(Bin(l, n, r)) == Weight(l) + Weight(r) && Weight(l) >= 1 && Weight(r) >= 1
  {
  }

  /** The ranks in a turn that goes two levels down: f is the part of a that goes with b and c. */
  lemma ZigZigRanks(a: nat, b: nat, c: nat, f: nat)
    requires a >= 1 && b >= 1 && c >= 1 && f <= a
    ensures 1 + 4 * Lg(a) + 2 * Lg(f + b + c) + 2 * Lg(b + c) <= 6 * Lg(a + b + c) + 2 * Lg(a + b)
  {
    hide Lg;
    LgSum(a, b + c);
    LgMonotone(f + b + c, a + b + c);
    LgMonotone(a, a + b);
  }

  lemma OpenZigZigLeft(t: Tree, k: int)
    requires t.Bin? && t.l.Bin? && t.l.l.Bin? && k < t.n.key && k < t.l.n.key
    ensures Part(t, k) == LinkR(Part(t.l.l, k), t.l.n, Bin(t.l.r, t.n, t.r)) && Turns(t, k) == 1 + Turns(t.l.l, k)
  {
  }

  lemma OpenZigZigRight(t: Tree, k: int)
    requires t.Bin? && t.r.Bin? && t.r.r.Bin? && k > t.n.key && k > t.r.n.key
    ensures Part(t, k) == LinkL(Bin(t.l, t.n, t.r.l), t.r.n, Part(t.r.r, k)) && Turns(t, k) == 1 + Turns(t.r.r, k)
  {
  }

  lemma ZigZigLeft(t: Tree, k: int)
    requires t.Bin? && t.l.Bin? && t.l.l.Bin? && k < t.n.key && k < t.l.n.key && Paid(t.l.l, k)
    ensures Paid(t, k)
  {
    hide Phi, Weight, Lg, Part, Turns, Size;
    var a, b, c, p := t.l.l, t.l.r, t.r, Part(t.l.l, k);
    OpenZigZigLeft(t, k);
    OpenPhi(t.l, t.n, c);
    OpenPhi(a, t.l.n, b);
    OpenPhi(p.r, t.l.n, Bin(b, t.n, c));
    OpenPhi(b, t.n, c);
    ZigZigRanks(Weight(a), Weight(b), Weight(c), Weight(p.r));
  }

  lemma ZigZigRight(t: Tree, k: int)
    requires t.Bin? && t.r.Bin? && t.r.r.Bin? && k > t.n.key && k > t.r.n.key && Paid(t.r.r, k)
    ensures Paid(t, k)
  {
    hide Phi, Weight, Lg, Part, Turns, Size;
    var a, b, c, p := t.r.r, t.r.l, t.l, Part(t.r.r, k);
    OpenZigZigRight(t, k);
    OpenPhi(c, t.n, t.r);
    OpenPhi(b, t.r.n, a);
    OpenPhi(Bin(c, t.n, b), t.r.n, p.l);
    OpenPhi(c, t.n, b);
    ZigZigRanks(Weight(a), Weight(b), Weight(c), Weight(p.l));
  }

  /** The ranks in two turns in opposite directions, one level each; the rest of r is split into f and g. */
  lemma ZigZagRanks(a: nat, r: nat, c: nat, f: nat, g: nat)
    requires a >= 1 && r >= 1 && c >= 1 && f + g == r
    ensures 2 + 4 * Lg(r) + 2 * Lg(a + f) + 2 * Lg(g + c) <= 6 * Lg(a + r + c) + 2 * Lg(a + r)
  {
    hide Lg;
    LgSum(a + f, g + c);
    LgMonotone(r, a + r);
    LgMonotone(r, a + r + c);
  }

  /** The ranks in two turns in opposite directions, the second two levels down. */
  lemma ZigZagZigRanks(a: nat, b: nat, d: nat, c: nat, f: nat, g: nat)
    requires a >= 1 && b >= 1 && d >= 1 && c >= 1 && f + g == d
    ensures 2 + 4 * Lg(d) + 2 * Lg(a + b + f) + 2 * Lg(g + c) + 2 * Lg(a + b)
            <= 6 * Lg(a + b + d + c) + 2 * Lg(a + b + d) + 2 * Lg(b + d)
  {
    hide Lg;
    LgSum(a + b + f, g + c);
    LgMonotone(a + b, a + b + d);
    LgMonotone(d, b + d);
    LgMonotone(d, a + b + d + c);
  }

  /** The ranks where the loop stops. */
  lemma StopRanks(a: nat, b: nat, c: nat)
    requires a >= 1 && b >= 1 && c >= 1
    ensures Lg(b + c) <= Lg(a + b + c) && Lg(a + b) <= Lg(a + b + c) && 1 <= Lg(a + b) && 1 <= Lg(a + b + c)
  {
    LgMonotone(b + c, a + b + c);
    LgMonotone(a + b, a + b + c);
    LgMonotone(2, a + b);
  }

  lemma ZigStops(t: Tree, k: int)
    requires t.Bin? && (k == t.n.key || (k < t.n.key && t.l.Leaf?) || (t.n.key < k && t.r.Leaf?))
    ensures Part(t, k) == Parted(t.l, t.n, t.r) && Turns(t, k) <= 1
  {
  }

  lemma OpenZigLeft(t: Tree, k: int)
    requires t.Bin? && t.l.Bin? && k < t.n.key && k >= t.l.n.key
    ensures Part(t, k) == LinkR(Part(t.l, k), t.n, t.r) && Turns(t, k) == 1 + Turns(t.l, k)
  {
  }

  lemma OpenStopLeft(t: Tree, k: int)
    requires t.Bin? && t.l.Bin? && k < t.n.key && k < t.l.n.key && t.l.l.Leaf?
    ensures Part(t, k) == Parted(Leaf, t.l.n, Bin(t.l.r, t.n, t.r)) && Turns(t, k) == 1
  {
  }

  /** The loop stops after a rotation. */
  lemma StopLeft(t: Tree, k: int)
    requires t.Bin? && t.l.Bin? && k < t.n.key && k < t.l.n.key && t.l.l.Leaf?
    ensures Paid(t, k)
  {
    hide Phi, Weight, Lg, Part, Turns, Size;
    var b, c := t.l.r, t.r;
    OpenStopLeft(t, k);
    OpenPhi(t.l, t.n, c);
    OpenPhi(Leaf, t.l.n, b);
    OpenPhi(b, t.n, c);
    StopRanks(Weight(Leaf), Weight(b), Weight(c));
  }

  /** One link, and the loop stops at once. */
  lemma ZigStopLeft(t: Tree, k: int)
    requires t.Bin? && t.l.Bin? && k < t.n.key && (k == t.l.n.key || (k > t.l.n.key && t.l.r.Leaf?))
    ensures Paid(t, k)
  {
    hide Phi, Weight, Lg, Part, Turns, Size;
    ZigStops(t.l, k);
    var a, r, c := t.l.l, t.l.r, t.r;
    OpenZigLeft(t, k);
    OpenPhi(t.l, t.n, c);
    OpenPhi(a, t.l.n, r);
    OpenPhi(r, t.n, c);
    StopRanks(Weight(a), Weight(r), Weight(c));
  }

  /** One link, a rotation the other way, and the loop stops. */
  lemma ZigZagStopLeft(t: Tree, k: int)
    requires t.Bin? && t.l.Bin? && k < t.n.key && k > t.l.n.key && t.l.r.Bin? && k > t.l.r.n.key && t.l.r.r.Leaf?
    ensures Paid(t, k)
  {
    hide Phi, Weight, Lg, Part, Turns, Size;
    var a, r, c := t.l.l, t.l.r, t.r;
    var b := r.l;
    OpenZigLeft(t, k);
    OpenStopRight(t.l, k);
    OpenPhi(t.l, t.n, c);
    OpenPhi(a, t.l.n, r);
    OpenPhi(b, r.n, Leaf);
    OpenPhi(a, t.l.n, b);
    OpenPhi(Leaf, t.n, c);
    StopRanks(Weight(a) + Weight(b), Weight(Leaf), Weight(c));
    LgMonotone(Weight(a) + Weight(b), Weight(a) + Weight(b) + Weight(Leaf));
  }

  /** One level down, and one the other way. */
  lemma ZigZagLeft(t: Tree, k: int)
    requires t.Bin? && t.l.Bin? && k < t.n.key && k > t.l.n.key && t.l.r.Bin? && k <= t.l.r.n.key && Paid(t.l.r, k)
    ensures Paid(t, k)
  {
    hide Phi, Weight, Lg, Part, Turns, Size;
    var a, r, c, p := t.l.l, t.l.r, t.r, Part(t.l.r, k);
    OpenZigLeft(t, k);
    OpenZigRight(t.l, k);
    OpenPhi(t.l, t.n, c);
    OpenPhi(a, t.l.n, r);
    OpenPhi(a, t.l.n, p.l);
    OpenPhi(p.r, t.n, c);
    ZigZagRanks(Weight(a), Weight(r), Weight(c), Weight(p.l), Weight(p.r));
  }

  /** One level down, and two the other way. */
  lemma ZigZagZigLeft(t: Tree, k: int)
    requires t.Bin? && t.l.Bin? && k < t.n.key && k > t.l.n.key && t.l.r.Bin? && k > t.l.r.n.key && t.l.r.r.Bin? && Paid(t.l.r.r, k)
    ensures Paid(t, k)
  {
    hide Phi, Weight, Lg, Part, Turns, Size;
    var a, r, c := t.l.l, t.l.r, t.r;
    var b, d, p := r.l, r.r, Part(r.r, k);
    OpenZigLeft(t, k);
    OpenZigZigRight(t.l, k);
    OpenPhi(t.l, t.n, c);
    OpenPhi(a, t.l.n, r);
    OpenPhi(b, r.n, d);
    OpenPhi(a, t.l.n, b);
    OpenPhi(Bin(a, t.l.n, b), r.n, p.l);
    OpenPhi(p.r, t.n, c);
    ZigZagZigRanks(Weight(a), Weight(b), Weight(d), Weight(c), Weight(p.l), Weight(p.r));
  }

  lemma {:induction false} PaidLeft(t: Tree, k: int)
    requires t.Bin? && t.l.Bin? && k < t.n.key
    requires t.l.l.Bin? ==> Paid(t.l.l, k)
    requires t.l.r.Bin? ==> Paid(t.l.r, k)
    requires t.l.r.Bin? && t.l.r.r.Bin? ==> Paid(t.l.r.r, k)
    ensures Paid(t, k)
  {
    hide *;
    var x := t.l;
    if k < x.n.key {
      if x.l.Leaf? { StopLeft(t, k); } else { ZigZigLeft(t, k); }
    } else if k == x.n.key || x.r.Leaf? {
      ZigStopLeft(t, k);
    } else if k <= x.r.n.key {
      ZigZagLeft(t, k);
    } else if x.r.r.Leaf? {
      ZigZagStopLeft(t, k);
    } else {
      ZigZagZigLeft(t, k);
    }
  }

  lemma OpenZigRight(t: Tree, k: int)
    requires t.Bin? && t.r.Bin? && k > t.n.key && k <= t.r.n.key
    ensures Part(t, k) == LinkL(t.l, t.n, Part(t.r, k)) && Turns(t, k) == 1 + Turns(t.r, k)
  {
  }

  lemma OpenStopRight(t: Tree, k: int)
    requires t.Bin? && t.r.Bin? && k > t.n.key && k > t.r.n.key && t.r.r.Leaf?
    ensures Part(t, k) == Parted(Bin(t.l, t.n, t.r.l), t.r.n, Leaf) && Turns(t, k) == 1
  {
  }

  /** The loop stops after a rotation. */
  lemma StopRight(t: Tree, k: int)
    requires t.Bin? && t.r.Bin? && k > t.n.key && k > t.r.n.key && t.r.r.Leaf?
    ensures Paid(t, k)
  {
    hide Phi, Weight, Lg, Part, Turns, Size;
    var b, c := t.r.l, t.l;
    OpenStopRight(t, k);
    OpenPhi(c, t.n, t.r);
    OpenPhi(b, t.r.n, Leaf);
    OpenPhi(c, t.n, b);
    StopRanks(Weight(Leaf), Weight(b), Weight(c));
  }

  /** One link, and the loop stops at once. */
  lemma ZigStopRight(t: Tree, k: int)
    requires t.Bin? && t.r.Bin? && k > t.n.key && (k == t.r.n.key || (k < t.r.n.key && t.r.l.Leaf?))
    ensures Paid(t, k)
  {
    hide Phi, Weight, Lg, Part, Turns, Size;
    ZigStops(t.r, k);
    var a, r, c := t.r.r, t.r.l, t.l;
    OpenZigRight(t, k);
    OpenPhi(c, t.n, t.r);
    OpenPhi(r, t.r.n, a);
    OpenPhi(c, t.n, r);
    StopRanks(Weight(a), Weight(r), Weight(c));
  }

  /** One link, a rotation the other way, and the loop stops. */
  lemma ZigZagStopRight(t: Tree, k: int)
    requires t.Bin? && t.r.Bin? && k > t.n.key && k < t.r.n.key && t.r.l.Bin? && k < t.r.l.n.key && t.r.l.l.Leaf?
    ensures Paid(t, k)
  {
    hide Phi, Weight, Lg, Part, Turns, Size;
    var a, r, c := t.r.r, t.r.l, t.l;
    var b := r.r;
    OpenZigRight(t, k);
    OpenStopLeft(t.r, k);
    OpenPhi(c, t.n, t.r);
    OpenPhi(r, t.r.n, a);
    OpenPhi(Leaf, r.n, b);
    OpenPhi(b, t.r.n, a);
    OpenPhi(c, t.n, Leaf);
    StopRanks(Weight(a) + Weight(b), Weight(Leaf), Weight(c));
    LgMonotone(Weight(a) + Weight(b), Weight(a) + Weight(b) + Weight(Leaf));
  }

  /** One level down, and one the other way. */
  lemma ZigZagRight(t: Tree, k: int)
    requires t.Bin? && t.r.Bin? && k > t.n.key && k < t.r.n.key && t.r.l.Bin? && k >= t.r.l.n.key && Paid(t.r.l, k)
    ensures Paid(t, k)
  {
    hide Phi, Weight, Lg, Part, Turns, Size;
    var a, r, c, p := t.r.r, t.r.l, t.l, Part(t.r.l, k);
    OpenZigRight(t, k);
    OpenZigLeft(t.r, k);
    OpenPhi(c, t.n, t.r);
    OpenPhi(r, t.r.n, a);
    OpenPhi(p.r, t.r.n, a);
    OpenPhi(c, t.n, p.l);
    ZigZagRanks(Weight(a), Weight(r), Weight(c), Weight(p.r), Weight(p.l));
  }

  /** One level down, and two the other way. */
  lemma ZigZagZigRight(t: Tree, k: int)
    requires t.Bin? && t.r.Bin? && k > t.n.key && k < t.r.n.key && t.r.l.Bin? && k < t.r.l.n.key && t.r.l.l.Bin? && Paid(t.r.l.l, k)
    ensures Paid(t, k)
  {
    hide Phi, Weight, Lg, Part, Turns, Size;
    var a, r, c := t.r.r, t.r.l, t.l;
    var b, d, p := r.r, r.l, Part(r.l, k);
    OpenZigRight(t, k);
    OpenZigZigLeft(t.r, k);
    OpenPhi(c, t.n, t.r);
    OpenPhi(r, t.r.n, a);
    OpenPhi(d, r.n, b);
    OpenPhi(b, t.r.n, a);
    OpenPhi(p.r, r.n, Bin(b, t.r.n, a));
    OpenPhi(c, t.n, p.l);
    ZigZagZigRanks(Weight(a), Weight(b), Weight(d), Weight(c), Weight(p.r), Weight(p.l));
  }

  lemma {:induction false} PaidRight(t: Tree, k: int)
    requires t.Bin? && t.r.Bin? && k > t.n.key
    requires t.r.r.Bin? ==> Paid(t.r.r, k)
    requires t.r.l.Bin? ==> Paid(t.r.l, k)
    requires t.r.l.Bin? && t.r.l.l.Bin? ==> Paid(t.r.l.l, k)
    ensures Paid(t, k)
  {
    hide *;
    var x := t.r;
    if k > x.n.key {
      if x.r.Leaf? { StopRight(t, k); } else { ZigZigRight(t, k); }
    } else if k == x.n.key || x.l.Leaf? {
      ZigStopRight(t, k);
    } else if k >= x.l.n.key {
      ZigZagRight(t, k);
    } else if x.l.l.Leaf? {
      ZigZagStopRight(t, k);
    } else {
      ZigZagZigRight(t, k);
    }
  }

  /** The turns of SPLAY, and what becomes of the potential. */
  lemma {:induction false} AllPaid(t: Tree, k: int)
    requires t.Bin?
    ensures Paid(t, k)
    decreases t
  {
    hide Paid;
    if k == t.n.key || (k < t.n.key && t.l.Leaf?) || (t.n.key < k && t.r.Leaf?) {
      StopPaid(t, k);
    } else if k < t.n.key {
      if t.l.l.Bin? { AllPaid(t.l.l, k); }
      if t.l.r.Bin? { AllPaid(t.l.r, k); }
      if t.l.r.Bin? && t.l.r.r.Bin? { AllPaid(t.l.r.r, k); }
      PaidLeft(t, k);
    } else {
      if t.r.r.Bin? { AllPaid(t.r.r, k); }
      if t.r.l.Bin? { AllPaid(t.r.l, k); }
      if t.r.l.Bin? && t.r.l.l.Bin? { AllPaid(t.r.l.l, k); }
      PaidRight(t, k);
    }
  }

  lemma StopPaid(t: Tree, k: int)
    requires t.Bin? && (k == t.n.key || (k < t.n.key && t.l.Leaf?) || (t.n.key < k && t.r.Leaf?))
    ensures Paid(t, k)
  {
    ZigStops(t, k);
  }

  /** One SPLAY takes, amortised, at most 6 lg(n + 1) + 1 turns. */
  lemma SplayPaid(t: Tree, k: int)
    requires t.Bin?
    ensures Turns(t, k) + 2 * Phi(SplayOf(t, k)) <= 2 * Phi(t) + 6 * Rank(t) + 1
  {
    AllPaid(t, k);
    var p := Part(t, k);
    OpenPhi(p.l, p.n, p.r);
  }

  // ---- Sequences of operations ----

  /** SPLAY_INSERT and SPLAY_REMOVE, as functions of the tree. */
  function InsertOf(t: Tree, elm: Node): Tree {
    if t.Leaf? then Bin(Leaf, elm, Leaf) else
    var u := SplayOf(t, elm.key);
    if elm.key < u.n.key then Bin(u.l, elm, Bin(Leaf, u.n, u.r))
    else if elm.key > u.n.key then Bin(Bin(u.l, u.n, Leaf), elm, u.r)
    else u
  }

  function RemoveOf(t: Tree, k: int): Tree {
    if t.Leaf? then Leaf else
    var u := SplayOf(t, k);
    if k != u.n.key then u
    else if u.l.Leaf? then u.r
    else var v := SplayOf(u.l, k); Bin(v.l, v.n, u.r)
  }

  function RemoveTurns(t: Tree, k: int): nat {
    if t.Leaf? then 0 else
    var u := SplayOf(t, k);
    Turns(t, k) + if k == u.n.key && u.l.Bin? then Turns(u.l, k) else 0
  }

  datatype Op = Find(k: int) | Insert(elm: Node) | Remove(k: int)

  function Apply(t: Tree, o: Op): Tree {
    match o
    case Find(k) => if t.Leaf? then t else SplayOf(t, k)
    case Insert(elm) => InsertOf(t, elm)
    case Remove(k) => RemoveOf(t, k)
  }

  function Cost(t: Tree, o: Op): nat {
    match o
    case Find(k) => if t.Leaf? then 0 else Turns(t, k)
    case Insert(elm) => if t.Leaf? then 0 else Turns(t, elm.key)
    case Remove(k) => RemoveTurns(t, k)
  }

  lemma InsertPaid(t: Tree, elm: Node)
    ensures Cost(t, Insert(elm)) + 2 * Phi(InsertOf(t, elm)) <= 2 * Phi(t) + 8 * Lg(Weight(t) + 1) + 1
    ensures Weight(InsertOf(t, elm)) <= Weight(t) + 1
  {
    hide Phi, Weight, Lg, Part, Turns, Size, SplayOf;
    OpenLeafPhi();
    if t.Leaf? {
      OpenPhi(Leaf, elm, Leaf);
    } else {
      var u := SplayOf(t, elm.key);
      SplayPaid(t, elm.key);
      OpenPhi(u.l, u.n, u.r);
      LgMonotone(Weight(t), Weight(t) + 1);
      LgMonotone(Weight(u.r) + 1, Weight(t));
      LgMonotone(Weight(u.l) + 1, Weight(t));
      OpenPhi(u.l, elm, Bin(Leaf, u.n, u.r));
      OpenPhi(Leaf, u.n, u.r);
      OpenPhi(Bin(u.l, u.n, Leaf), elm, u.r);
      OpenPhi(u.l, u.n, Leaf);
    }
  }

  lemma OpenLeafPhi()
    ensures Phi(Leaf) == 0 && Weight(Leaf) == 1 && Lg(1) == 0 && Lg(2) == 1
  {
  }

  lemma RemovePaid(t: Tree, k: int)
    ensures RemoveTurns(t, k) + 2 * Phi(RemoveOf(t, k)) <= 2 * Phi(t) + 12 * Rank(t) + 2
    ensures Weight(RemoveOf(t, k)) <= Weight(t)
  {
    hide Phi, Weight, Lg, Part, Turns, Size, SplayOf;
    OpenLeafPhi();
    if t.Bin? {
      var u := SplayOf(t, k);
      SplayPaid(t, k);
      OpenPhi(u.l, u.n, u.r);
      if u.l.Bin? {
        var v := SplayOf(u.l, k);
        SplayPaid(u.l, k);
        OpenPhi(v.l, v.n, v.r);
        OpenPhi(v.l, v.n, u.r);
        LgMonotone(Weight(v.l) + Weight(u.r), Weight(t));
        LgMonotone(Weight(u.l), Weight(t));
      }
    }
  }

  /** Every operation, amortised: 12 lg(n + 2) + 2 turns on a tree of n nodes. */
  lemma OpPaid(t: Tree, o: Op)
    ensures Cost(t, o) + 2 * Phi(Apply(t, o)) <= 2 * Phi(t) + 12 * Lg(Weight(t) + 1) + 2
    ensures Weight(Apply(t, o)) <= Weight(t) + if o.Insert? then 1 else 0
  {
    hide Phi, Weight, Lg, Turns, SplayOf, InsertOf, RemoveOf, RemoveTurns, Size;
    LgMonotone(Weight(t), Weight(t) + 1);
    match o
    case Find(k) => if t.Bin? { SplayPaid(t, k); }
    case Insert(elm) => InsertPaid(t, elm);
    case Remove(k) => RemovePaid(t, k);
  }

  function ApplyAll(t: Tree, os: seq<Op>): Tree
    decreases |os|
  {
    if os == [] then t else ApplyAll(Apply(t, os[0]), os[1..])
  }

  function CostAll(t: Tree, os: seq<Op>): nat
    decreases |os|
  {
    if os == [] then 0 else Cost(t, os[0]) + CostAll(Apply(t, os[0]), os[1..])
  }

  /** One operation more: it works on the tree the others leave, and its cost comes on top. */
  lemma {:induction false} AllAndOne(t: Tree, os: seq<Op>, o: Op)
    ensures ApplyAll(t, os + [o]) == Apply(ApplyAll(t, os), o)
    ensures CostAll(t, os + [o]) == CostAll(t, os) + Cost(ApplyAll(t, os), o)
    ensures Inserts(os + [o]) == Inserts(os) + if o.Insert? then 1 else 0
    decreases |os|
  {
    hide Apply, Cost;
    var all := os + [o];
    if os == [] {
      assert all == [o] && all[1..] == [];
    } else {
      assert all[0] == os[0] && all[1..] == os[1..] + [o];
      AllAndOne(Apply(t, os[0]), os[1..], o);
    }
  }

  /** The tree never gets heavier than n while os are applied. */
  predicate Within(t: Tree, os: seq<Op>, n: nat)
    decreases |os|
  {
    Weight(t) <= n && (os != [] ==> Within(Apply(t, os[0]), os[1..], n))
  }

  /**
   m operations on a tree that never has n or more nodes take O(m lg n) turns, beyond what the
   potential of the tree they start with pays for.
   */
  lemma {:induction false} Amortised(t: Tree, os: seq<Op>, n: nat)
    requires Within(t, os, n)
    ensures CostAll(t, os) + 2 * Phi(ApplyAll(t, os)) <= 2 * Phi(t) + |os| * (12 * Lg(n + 1) + 2)
    decreases |os|
  {
    hide Phi, Weight, Lg, Apply, Cost, Size;
    if os != [] {
      var u := Apply(t, os[0]);
      OpPaid(t, os[0]);
      LgMonotone(Weight(t) + 1, n + 1);
      Amortised(u, os[1..], n);
      Distribute(|os| - 1, 12 * Lg(n + 1) + 2);
    }
  }

  lemma Distribute(m: nat, c: nat)
    ensures (m + 1) * c == m * c + c
  {
  }

  function Inserts(os: seq<Op>): nat {
    if os == [] then 0 else (if os[0].Insert? then 1 else 0) + Inserts(os[1..])
  }

  lemma {:induction false} GrowsSlowly(t: Tree, os: seq<Op>)
    ensures Within(t, os, Weight(t) + Inserts(os))
    decreases |os|
  {
    hide Weight, Apply, Size;
    if os != [] {
      var u := Apply(t, os[0]);
      OpPaid(t, os[0]);
      GrowsSlowly(u, os[1..]);
      WithinMore(u, os[1..], Weight(u) + Inserts(os[1..]), Weight(t) + Inserts(os));
    }
  }

  /**
   Any operations on any tree of n nodes: what its potential pays for is at most n lg(n + 1), and
   each operation costs O(lg n) for the n reached. For accesses alone, n stays what it was.
   */
  lemma AmortisedTotal(t: Tree, os: seq<Op>)
    ensures CostAll(t, os) <= 2 * (Size(t) * Rank(t)) + |os| * (12 * Lg(Weight(t) + Inserts(os) + 1) + 2)
  {
    hide *;
    PhiBound(t);
    GrowsSlowly(t, os);
    Amortised(t, os, Weight(t) + Inserts(os));
  }

  /** The Balance Theorem of tree.h: on an initially empty tree, with n inserts among the operations. */
  lemma Balance(os: seq<Op>)
    ensures CostAll(Leaf, os) <= |os| * (12 * Lg(Inserts(os) + 2) + 2)
  {
    hide Lg, Phi, Weight, ApplyAll, CostAll, Inserts, Within;
    OpenLeafPhi();
    GrowsSlowly(Leaf, os);
    Amortised(Leaf, os, Inserts(os) + 1);
  }

  lemma {:induction false} WithinMore(t: Tree, os: seq<Op>, n: nat, m: nat)
    requires Within(t, os, n) && n <= m
    ensures Within(t, os, m)
    decreases |os|
  {
    if os != [] { WithinMore(Apply(t, os[0]), os[1..], n, m); }
  }

  lemma {:induction false} PhiBound(t: Tree)
    ensures Phi(t) <= Size(t) * Rank(t)
  {
    hide Lg;
    if t.Bin? {
      PhiBound(t.l);
      PhiBound(t.r);
      LgMonotone(Weight(t.l), Weight(t));
      LgMonotone(Weight(t.r), Weight(t));
      Scaled(Size(t.l), Size(t.r), Rank(t.l), Rank(t.r), Rank(t));
    }
  }

  lemma Scaled(a: nat, b: nat, p: nat, q: nat, r: nat)
    requires p <= r && q <= r
    ensures r + a * p + b * q <= (a + 1 + b) * r
  {
    assert a * p <= a * r && b * q <= b * r;
    assert (a + 1 + b) * r == a * r + r + b * r;
  }
}
