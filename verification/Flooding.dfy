/**
 A frame broadcast by one node and relayed by every other one, as udp.c does it: each
 receiver sends the packet on to every peer but the one it came from, and writes the
 frame to its device. The network delivers the packets in flight in any order.
 */
module Flooding {
  import opened Sequences
  import opened ByteOrder
  import opened Endpoints
  import opened PeerGraph
  import opened UdpFrames

  type Peers = Graph<Addr>

  /** A datagram in flight; trail is the way it has come, ending with src. */
  datatype Packet = Packet(src: Addr, dst: Addr, bytes: seq<byte>, trail: seq<Addr>)

  function Full(p: Packet): seq<Addr> { p.trail + [p.dst] }

  datatype Net = Net(
    flight: seq<Packet>,
    received: seq<Packet>,                // every packet received so far
    writes: seq<(Addr, seq<byte>)>)       // every frame written to a device, and by whom

  function Sends(src: Addr, to: seq<Addr>, bytes: seq<byte>, trail: seq<Addr>): (ps: seq<Packet>)
    ensures |ps| == |to|
  {
    seq(|to|, i requires 0 <= i < |to| => Packet(src, to[i], bytes, trail))
  }

  /** _broadcast_udp_to_peers for one frame. */
  function Broadcast(g: Peers, o: Addr, frame: seq<byte>): Net
    requires o in g && |frame| < 0x1_0000
  {
    Net(Sends(o, g[o], Packed(frame), [o]), [], [])
  }

  /** What the receiver of p sends: forward_udp_frame_to_other_peers. */
  function Relay(g: Peers, p: Packet): seq<Packet>
    requires p.dst in g
  {
    Sends(p.dst, Others(g[p.dst], p.src), p.bytes, Full(p))
  }

  predicate CanReceive(n: Net, g: Peers, i: nat) { i < |n.flight| && n.flight[i].dst in g }

  /** One turn of the server_udp loop at the receiver of the i-th packet in flight. */
  function Receive(n: Net, g: Peers, i: nat): Net
    requires CanReceive(n, g, i)
  {
    var p := n.flight[i];
    Net(n.flight[..i] + n.flight[i + 1..] + Relay(g, p), n.received + [p], n.writes + [(p.dst, Unpacked(p.bytes))])
  }

  function Paths(ps: seq<Packet>): set<seq<Addr>> { set i | 0 <= i < |ps| :: Full(ps[i]) }

  predicate Different(ps: seq<Packet>) { forall i, j :: 0 <= i < j < |ps| ==> Full(ps[i]) != Full(ps[j]) }

  /** A packet on a path from o, carrying frame. */
  predicate OnPath(g: Peers, o: Addr, frame: seq<byte>, p: Packet)
    requires |frame| < 0x1_0000
  {
    p.bytes == Packed(frame) && Path(g, Full(p)) && p.trail != [] && p.trail[0] == o && p.src == Last(p.trail)
  }

  predicate AllOnPath(g: Peers, o: Addr, frame: seq<byte>, ps: seq<Packet>)
    requires |frame| < 0x1_0000
  {
    forall p <- ps :: OnPath(g, o, frame, p)
  }

  /** No path is taken twice. */
  predicate Once(n: Net) {
    Different(n.received) && Different(n.flight) && Paths(n.received) !! Paths(n.flight)
  }

  /** A packet sent on was received before. */
  predicate Rooted(ps: seq<Packet>, received: seq<Packet>) {
    forall p <- ps :: |p.trail| >= 2 ==> p.trail in Paths(received)
  }

  /** Whoever received the packet, and the origin, has sent it to all it has to. */
  ghost predicate Spread(n: Net, g: Peers, o: Addr) {
    && (forall p, w :: p in n.received && Edge(g, p.dst, w) && w != p.src ==> Full(p) + [w] in Paths(n.received) + Paths(n.flight))
    && (forall w :: Edge(g, o, w) ==> [o, w] in Paths(n.received) + Paths(n.flight))
  }

  predicate Recorded(n: Net, frame: seq<byte>) {
    |n.writes| == |n.received| && forall i :: 0 <= i < |n.writes| ==> n.writes[i] == (n.received[i].dst, frame)
  }

  /** What every order of delivery keeps. */
  ghost predicate Flooded(n: Net, g: Peers, o: Addr, frame: seq<byte>)
    requires |frame| < 0x1_0000
  {
    && AllOnPath(g, o, frame, n.received) && AllOnPath(g, o, frame, n.flight)
    && Once(n) && Rooted(n.received, n.received) && Rooted(n.flight, n.received)
    && Spread(n, g, o) && Recorded(n, frame)
  }

  lemma PathsAppend(a: seq<Packet>, b: seq<Packet>)
    ensures Paths(a + b) == Paths(a) + Paths(b)
  {
    forall x | x in Paths(a) + Paths(b) ensures x in Paths(a + b) {
      if x in Paths(a) {
        var i :| 0 <= i < |a| && Full(a[i]) == x;
        assert (a + b)[i] == a[i];
      } else {
        var i :| 0 <= i < |b| && Full(b[i]) == x;
        assert (a + b)[|a| + i] == b[i];
      }
    }
  }

  lemma DifferentAppend(a: seq<Packet>, b: seq<Packet>)
    requires Different(a) && Different(b) && Paths(a) !! Paths(b)
    ensures Different(a + b)
  {
    var c := a + b;
    forall i, j | 0 <= i < j < |c| ensures Full(c[i]) != Full(c[j]) {
      if i < |a| <= j {
        assert Full(a[i]) in Paths(a) && Full(b[j - |a|]) in Paths(b);
      }
    }
  }

  /** The packet received leaves the others in flight. */
  lemma Removed(f: seq<Packet>, i: nat)
    requires i < |f| && Different(f)
    ensures Different(f[..i] + f[i + 1..]) && Paths(f[..i] + f[i + 1..]) == Paths(f) - {Full(f[i])}
  {
    var r := f[..i] + f[i + 1..];
    assert forall j :: 0 <= j < |r| ==> r[j] == f[if j < i then j else j + 1];
    forall x | x in Paths(f) && x != Full(f[i]) ensures x in Paths(r) {
      var j :| 0 <= j < |f| && Full(f[j]) == x;
      assert r[if j < i then j else j - 1] == f[j];
    }
    assert Different(r);
  }

  lemma SentPaths(src: Addr, to: seq<Addr>, bytes: seq<byte>, trail: seq<Addr>)
    ensures forall w :: w in to ==> trail + [w] in Paths(Sends(src, to, bytes, trail))
    ensures forall x :: x in Paths(Sends(src, to, bytes, trail)) ==> x != [] && x[..|x| - 1] == trail && Last(x) in to
    ensures Distinct(to) ==> Different(Sends(src, to, bytes, trail))
  {
    var ps := Sends(src, to, bytes, trail);
    forall w | w in to ensures trail + [w] in Paths(ps) {
      var i :| 0 <= i < |to| && to[i] == w;
      assert Full(ps[i]) == trail + [w];
    }
    forall i, j | 0 <= i < j < |ps| && Distinct(to) ensures Full(ps[i]) != Full(ps[j]) {
      assert Last(Full(ps[i])) == to[i] && Last(Full(ps[j])) == to[j];
    }
  }

  lemma BroadcastFlooded(g: Peers, o: Addr, frame: seq<byte>)
    requires Peering(g) && o in g && |frame| < 0x1_0000
    ensures Flooded(Broadcast(g, o, frame), g, o, frame)
  {
    hide Packed, Paths, OnPath, Spread;
    var n := Broadcast(g, o, frame);
    SentPaths(o, g[o], Packed(frame), [o]);
    NoPaths();
    forall p | p in n.flight ensures OnPath(g, o, frame, p) {
      FirstHop(g, o, frame, p.dst);
    }
    BroadcastSpread(g, o, frame);
  }

  lemma NoPaths()
    ensures Paths([]) == {}
  {
  }

  lemma FirstHop(g: Peers, o: Addr, frame: seq<byte>, w: Addr)
    requires Peering(g) && |frame| < 0x1_0000 && Edge(g, o, w)
    ensures OnPath(g, o, frame, Packet(o, w, Packed(frame), [o]))
  {
    hide Packed;
    assert Full(Packet(o, w, Packed(frame), [o])) == [o, w];
  }

  lemma BroadcastSpread(g: Peers, o: Addr, frame: seq<byte>)
    requires o in g && |frame| < 0x1_0000
    ensures Spread(Broadcast(g, o, frame), g, o)
  {
    hide Packed, Paths;
    var n := Broadcast(g, o, frame);
    SentPaths(o, g[o], Packed(frame), [o]);
    forall w | Edge(g, o, w) ensures [o, w] in Paths(n.received) + Paths(n.flight) {
      assert [o] + [w] == [o, w];
    }
  }

  /** The packets relayed are on paths from the origin too. */
  lemma RelayOnPath(g: Peers, o: Addr, frame: seq<byte>, p: Packet)
    requires Peering(g) && Acyclic(g) && |frame| < 0x1_0000 && OnPath(g, o, frame, p) && p.dst in g
    ensures AllOnPath(g, o, frame, Relay(g, p))
  {
    hide Packed, Path, Others, Acyclic;
    OthersExact(g[p.dst], p.src);
    forall q <- Relay(g, p) ensures OnPath(g, o, frame, q) {
      assert Edge(g, Last(Full(p)), q.dst);
      NoReturn(g, Full(p), q.dst);
      assert Full(q) == Full(p) + [q.dst];
    }
  }

  /** The paths relayed to are new. */
  lemma RelayNew(n: Net, g: Peers, p: Packet)
    requires Once(n) && Rooted(n.received, n.received) && Rooted(n.flight, n.received)
    requires p in n.flight && p.dst in g && p.trail != []
    ensures Paths(Relay(g, p)) !! Paths(n.received) + Paths(n.flight)
  {
    hide Others, Different;
    SentPaths(p.dst, Others(g[p.dst], p.src), p.bytes, Full(p));
    assert Full(p) in Paths(n.flight) by { InPaths(n.flight, p); }
    forall x | x in Paths(n.received) + Paths(n.flight) && |x| >= 3 ensures x[..|x| - 1] in Paths(n.received) {
      var q := OfPath(if x in Paths(n.received) then n.received else n.flight, x);
      assert q.trail == x[..|x| - 1];
    }
  }

  lemma InPaths(ps: seq<Packet>, p: Packet)
    requires p in ps
    ensures Full(p) in Paths(ps)
  {
  }

  lemma OfPath(ps: seq<Packet>, x: seq<Addr>) returns (p: Packet)
    requires x in Paths(ps)
    ensures p in ps && Full(p) == x
  {
    var i :| 0 <= i < |ps| && Full(ps[i]) == x;
    p := ps[i];
  }

  /** The paths after one packet was received: none lost, the relayed ones added. */
  lemma ReceivedPaths(n: Net, g: Peers, i: nat)
    requires CanReceive(n, g, i) && Different(n.flight)
    ensures var n', p := Receive(n, g, i), n.flight[i];
            && Paths(n'.received) == Paths(n.received) + {Full(p)}
            && Paths(n'.flight) == Paths(n.flight) - {Full(p)} + Paths(Relay(g, p))
  {
    hide Different, Others;
    var p := n.flight[i];
    PathsAppend(n.received, [p]);
    assert Paths([p]) == {Full(p)} by { assert Full([p][0]) in Paths([p]); }
    Removed(n.flight, i);
    PathsAppend(n.flight[..i] + n.flight[i + 1..], Relay(g, p));
  }

  lemma ReceiveOnce(n: Net, g: Peers, i: nat)
    requires Peering(g) && CanReceive(n, g, i) && Once(n) && n.flight[i].trail != []
    requires Rooted(n.received, n.received) && Rooted(n.flight, n.received)
    ensures Once(Receive(n, g, i))
  {
    hide Different, Others, Rooted, Paths;
    var p := n.flight[i];
    ReceivedPaths(n, g, i);
    RelayNew(n, g, p);
    InPaths(n.flight, p);
    OthersDistinct(g[p.dst], p.src);
    SentPaths(p.dst, Others(g[p.dst], p.src), p.bytes, Full(p));
    Removed(n.flight, i);
    DifferentAppend(n.flight[..i] + n.flight[i + 1..], Relay(g, p));
    Single(p);
    DifferentAppend(n.received, [p]);
  }

  lemma Single(p: Packet)
    ensures Different([p]) && Paths([p]) == {Full(p)}
  {
    assert Full([p][0]) in Paths([p]);
  }

  lemma ReceiveRooted(n: Net, g: Peers, i: nat)
    requires CanReceive(n, g, i) && Different(n.flight)
    requires Rooted(n.received, n.received) && Rooted(n.flight, n.received)
    ensures var n' := Receive(n, g, i); Rooted(n'.received, n'.received) && Rooted(n'.flight, n'.received)
  {
    hide Different, Others, Paths;
    ReceivedPaths(n, g, i);
  }

  lemma ReceiveSpread(n: Net, g: Peers, o: Addr, i: nat)
    requires CanReceive(n, g, i) && Different(n.flight) && Spread(n, g, o)
    ensures Spread(Receive(n, g, i), g, o)
  {
    hide Different, Others, Paths;
    var n', p := Receive(n, g, i), n.flight[i];
    ReceivedPaths(n, g, i);
    var was, now := Paths(n.received) + Paths(n.flight), Paths(n'.received) + Paths(n'.flight);
    assert was <= now && Paths(Relay(g, p)) <= now;
    forall q, w | q in n'.received && Edge(g, q.dst, w) && w != q.src ensures Full(q) + [w] in now {
      if q == p {
        OthersExact(g[p.dst], p.src);
        SentPaths(p.dst, Others(g[p.dst], p.src), p.bytes, Full(p));
      } else {
        assert q in n.received;
      }
    }
  }

  lemma ReceiveKeeps(n: Net, g: Peers, o: Addr, frame: seq<byte>, i: nat)
    requires Peering(g) && Acyclic(g) && |frame| < 0x1_0000 && Flooded(n, g, o, frame) && CanReceive(n, g, i)
    ensures Flooded(Receive(n, g, i), g, o, frame)
  {
    hide Different, Others, Paths, Acyclic, Peering, Rooted, Spread, Path, Packed, Unpacked;
    var p := n.flight[i];
    RelayOnPath(g, o, frame, p);
    ReceiveOnce(n, g, i);
    ReceiveRooted(n, g, i);
    ReceiveSpread(n, g, o, i);
    UnpackPacked(frame);
  }

  /** Any order of delivery: which packet in flight arrives next, again and again. */
  predicate Delivers(n: Net, g: Peers, order: seq<nat>)
    decreases |order|
  {
    order == [] || (CanReceive(n, g, order[0]) && Delivers(Receive(n, g, order[0]), g, order[1..]))
  }

  function Delivered(n: Net, g: Peers, order: seq<nat>): Net
    requires Delivers(n, g, order)
    decreases |order|
  {
    if order == [] then n else Delivered(Receive(n, g, order[0]), g, order[1..])
  }

  lemma {:induction false} DeliveryKeeps(n: Net, g: Peers, o: Addr, frame: seq<byte>, order: seq<nat>)
    requires Peering(g) && Acyclic(g) && |frame| < 0x1_0000 && Flooded(n, g, o, frame) && Delivers(n, g, order)
    ensures Flooded(Delivered(n, g, order), g, o, frame)
    ensures |Delivered(n, g, order).received| == |n.received| + |order|
    decreases |order|
  {
    hide Flooded, Peering, Acyclic;
    if order != [] {
      ReceiveKeeps(n, g, o, frame, order[0]);
      DeliveryKeeps(Receive(n, g, order[0]), g, o, frame, order[1..]);
    }
  }

  /** No two packets, received or in flight, are for the same node, and none is for the origin. */
  lemma OnePacketEach(n: Net, g: Peers, o: Addr, frame: seq<byte>)
    requires Peering(g) && Acyclic(g) && |frame| < 0x1_0000 && Flooded(n, g, o, frame)
    ensures var all := n.received + n.flight;
            && (forall i, j :: 0 <= i < j < |all| ==> all[i].dst != all[j].dst)
            && (forall i :: 0 <= i < |all| ==> all[i].dst != o && all[i].dst in g)
  {
    hide Paths, Spread, Rooted, Packed, Acyclic, Recorded;
    var all := n.received + n.flight;
    DifferentAppend(n.received, n.flight);
    forall i | 0 <= i < |all| ensures all[i].dst != o && all[i].dst in g {
      assert all[i] in n.received || all[i] in n.flight;
      assert OnPath(g, o, frame, all[i]);
      LastOfPath(g, Full(all[i]));
    }
    forall i, j | 0 <= i < j < |all| ensures all[i].dst != all[j].dst {
      assert all[i] in n.received || all[i] in n.flight;
      assert all[j] in n.received || all[j] in n.flight;
      assert OnPath(g, o, frame, all[i]) && OnPath(g, o, frame, all[j]);
      if all[i].dst == all[j].dst {
        UniquePath(g, Full(all[i]), Full(all[j]));
      }
    }
  }

  lemma LastOfPath(g: Peers, p: seq<Addr>)
    requires Peering(g) && Path(g, p) && |p| >= 2
    ensures Last(p) != p[0] && Last(p) in g
  {
    WalkIn(g, p, |p| - 1);
  }

  lemma {:induction false} DistinctFit<T>(s: seq<T>, u: set<T>)
    requires Distinct(s) && forall i :: 0 <= i < |s| ==> s[i] in u
    ensures |s| <= |u|
  {
    if s != [] {
      var t, x := s[..|s| - 1], s[|s| - 1];
      DistinctFit(t, u - {x});
    }
  }

  /** There are never more packets than other nodes, so every order of delivery ends. */
  lemma Bounded(n: Net, g: Peers, o: Addr, frame: seq<byte>)
    requires Peering(g) && Acyclic(g) && |frame| < 0x1_0000 && o in g && Flooded(n, g, o, frame)
    ensures |n.received| + |n.flight| <= |g| - 1
    ensures forall i :: 0 <= i < |n.flight| ==> CanReceive(n, g, i)
  {
    hide Flooded, Acyclic, Peering;
    OnePacketEach(n, g, o, frame);
    var all := n.received + n.flight;
    var to := seq(|all|, i requires 0 <= i < |all| => all[i].dst);
    DistinctFit(to, g.Keys - {o});
    assert forall i :: 0 <= i < |n.flight| ==> n.flight[i] == all[|n.received| + i];
  }

  /** With nothing in flight, every path from the origin has been taken. */
  lemma {:induction false} AllPaths(n: Net, g: Peers, o: Addr, frame: seq<byte>, x: seq<Addr>)
    requires |frame| < 0x1_0000 && Flooded(n, g, o, frame) && n.flight == [] && Path(g, x) && |x| >= 2 && x[0] == o
    ensures x in Paths(n.received)
    decreases |x|
  {
    hide Paths, Once, Rooted, Recorded, Packed;
    NoPaths();
    var w, y := Last(x), x[..|x| - 1];
    if |x| == 2 {
      assert x == [o, w] && Edge(g, x[0], x[1]);
    } else {
      assert Path(g, y);
      AllPaths(n, g, o, frame, y);
      var q := OfPath(n.received, y);
      assert OnPath(g, o, frame, q);
      assert Edge(g, x[|x| - 2], x[|x| - 1]) && q.dst == Last(y) == x[|x| - 2] && q.src == x[|x| - 3];
      assert Full(q) + [w] == x;
    }
  }

  /**
   Flooding on an acyclic peering. However the packets are delivered, nobody writes the
   frame twice and the origin never gets it back; there is an end, after at most as many
   deliveries as there are other nodes; and then exactly the nodes the origin is
   connected to have written the frame, unchanged.
   */
  lemma Flood(g: Peers, o: Addr, frame: seq<byte>, order: seq<nat>)
    requires Peering(g) && Acyclic(g) && o in g && |frame| < 0x1_0000
    requires Delivers(Broadcast(g, o, frame), g, order)
    ensures var n := Delivered(Broadcast(g, o, frame), g, order);
            && |order| <= |g| - 1
            && (forall i, j :: 0 <= i < j < |n.writes| ==> n.writes[i].0 != n.writes[j].0)
            && (forall i :: 0 <= i < |n.writes| ==> n.writes[i].0 != o && n.writes[i].1 == frame)
            && (forall i :: 0 <= i < |n.flight| ==> CanReceive(n, g, i))
            && (forall i :: 0 <= i < |n.writes| ==> Connected(g, o, n.writes[i].0))
            && (n.flight == [] ==> forall v :: v != o && Connected(g, o, v) ==> (v, frame) in n.writes)
  {
    hide Peering, Acyclic, Delivers, Broadcast, Spread, Rooted, Once, AllOnPath, Edge;
    BroadcastFlooded(g, o, frame);
    assert Broadcast(g, o, frame).received == [] by { NothingReceived(g, o, frame); }
    DeliveryKeeps(Broadcast(g, o, frame), g, o, frame, order);
    var n := Delivered(Broadcast(g, o, frame), g, order);
    Bounded(n, g, o, frame);
    OnePacketEach(n, g, o, frame);
    var all := n.received + n.flight;
    assert forall i :: 0 <= i < |n.received| ==> n.received[i] == all[i];
    forall i | 0 <= i < |n.writes| ensures Connected(g, o, n.writes[i].0) {
      WriterConnected(n, g, o, frame, i);
    }
    if n.flight == [] {
      forall v | v != o && Connected(g, o, v) ensures (v, frame) in n.writes {
        var p :| Walk(g, p) && p[0] == o && Last(p) == v;
        Reached(n, g, o, frame, p);
      }
    }
  }

  ghost predicate Connected(g: Peers, u: Addr, v: Addr) { exists p :: Walk(g, p) && p[0] == u && Last(p) == v }

  lemma WriterConnected(n: Net, g: Peers, o: Addr, frame: seq<byte>, i: nat)
    requires |frame| < 0x1_0000 && Flooded(n, g, o, frame) && i < |n.writes|
    ensures Connected(g, o, n.writes[i].0)
  {
    hide Spread, Rooted, Once, Paths, Packed;
    assert OnPath(g, o, frame, n.received[i]);
    assert Walk(g, Full(n.received[i]));
  }

  lemma NothingReceived(g: Peers, o: Addr, frame: seq<byte>)
    requires o in g && |frame| < 0x1_0000
    ensures Broadcast(g, o, frame).received == []
  {
  }

  lemma Reached(n: Net, g: Peers, o: Addr, frame: seq<byte>, p: seq<Addr>)
    requires Peering(g) && Acyclic(g) && |frame| < 0x1_0000 && Flooded(n, g, o, frame) && n.flight == []
    requires Walk(g, p) && p[0] == o && Last(p) != o
    ensures (Last(p), frame) in n.writes
  {
    hide Acyclic, Spread, Rooted, Once, AllOnPath, Paths;
    var x := WalkPath(g, p);
    AllPaths(n, g, o, frame, x);
    var q := OfPath(n.received, x);
    var i :| 0 <= i < |n.received| && n.received[i] == q;
    assert n.writes[i] == (Last(p), frame);
  }

  /** On a cycle the frame comes back: a way to deliver packets around c until c[0] writes its own frame. */
  lemma {:induction false} Circulate(n: Net, g: Peers, c: seq<Addr>, k: nat, i: nat) returns (order: seq<nat>)
    requires Cycle(g, c) && 1 <= k <= |c| && CanReceive(n, g, i)
    requires n.flight[i].src == c[k - 1] && n.flight[i].dst == c[if k < |c| then k else 0]
    requires forall j :: 0 <= j < |c| ==> c[j] in g
    ensures Delivers(n, g, order) && exists w <- Delivered(n, g, order).writes :: w.0 == c[0]
    decreases |c| - k
  {
    var n', p := Receive(n, g, i), n.flight[i];
    if k == |c| {
      order := [i];
      assert Delivered(n', g, []) == n';
      assert (p.dst, Unpacked(p.bytes)) in n'.writes;
      return;
    }
    var w := c[if k + 1 < |c| then k + 1 else 0];
    assert Edge(g, c[k], w) && w != c[k - 1];
    OthersExact(g[c[k]], c[k - 1]);
    var to := Others(g[p.dst], p.src);
    var j :| 0 <= j < |to| && to[j] == w;
    var m := |n.flight| - 1 + j;
    assert n'.flight[m] == Relay(g, p)[j];
    order := Circulate(n', g, c, k + 1, m);
    order := [i] + order;
  }

  lemma Echo(g: Peers, c: seq<Addr>, frame: seq<byte>) returns (order: seq<nat>)
    requires Peering(g) && Cycle(g, c) && |frame| < 0x1_0000
    ensures c[0] in g && Delivers(Broadcast(g, c[0], frame), g, order)
    ensures exists w <- Delivered(Broadcast(g, c[0], frame), g, order).writes :: w.0 == c[0]
  {
    forall j | 0 <= j < |c| ensures c[j] in g { WalkIn(g, c, j); }
    assert Edge(g, c[0], c[1]);
    var i :| 0 <= i < |g[c[0]]| && g[c[0]][i] == c[1];
    order := Circulate(Broadcast(g, c[0], frame), g, c, 1, i);
  }

  /** No origin ever gets a frame of its own back. */
  ghost predicate EchoFree(g: Peers) {
    forall o, frame, order | o in g && |frame| < 0x1_0000 && Delivers(Broadcast(g, o, frame), g, order) ::
      forall w <- Delivered(Broadcast(g, o, frame), g, order).writes :: w.0 != o
  }

  /** The peerings on which no frame comes back are exactly the acyclic ones. */
  lemma EchoFreeExactly(g: Peers)
    requires Peering(g)
    ensures EchoFree(g) <==> Acyclic(g)
  {
    if Acyclic(g) {
      forall o, frame, order | o in g && |frame| < 0x1_0000 && Delivers(Broadcast(g, o, frame), g, order)
        ensures forall w <- Delivered(Broadcast(g, o, frame), g, order).writes :: w.0 != o
      {
        Flood(g, o, frame, order);
      }
    } else {
      var c :| Cycle(g, c);
      var order := Echo(g, c, []);
    }
  }

  /** On a cycle a packet can go round for as long as one likes. */
  lemma {:induction false} GoesRound(n: Net, g: Peers, c: seq<Addr>, k: nat, i: nat, len: nat) returns (order: seq<nat>)
    requires Cycle(g, c) && 1 <= k <= |c| && CanReceive(n, g, i)
    requires n.flight[i].src == c[k - 1] && n.flight[i].dst == c[if k < |c| then k else 0]
    requires forall j :: 0 <= j < |c| ==> c[j] in g
    ensures Delivers(n, g, order) && |order| == len
    decreases len
  {
    if len == 0 {
      return [];
    }
    var n', p := Receive(n, g, i), n.flight[i];
    var here := if k < |c| then k else 0;
    var w := c[if here + 1 < |c| then here + 1 else 0];
    assert Edge(g, c[here], w) && w != c[k - 1];
    OthersExact(g[c[here]], c[k - 1]);
    var to := Others(g[p.dst], p.src);
    var j :| 0 <= j < |to| && to[j] == w;
    var m := |n.flight| - 1 + j;
    assert n'.flight[m] == Relay(g, p)[j];
    order := GoesRound(n', g, c, here + 1, m, len - 1);
    order := [i] + order;
  }

  /** No frame is delivered more than b times, whoever sends it and in whatever order. */
  ghost predicate Halts(g: Peers, b: int) {
    forall o, frame, order | o in g && |frame| < 0x1_0000 && Delivers(Broadcast(g, o, frame), g, order) :: |order| <= b
  }

  /**
   The peerings on which flooding ends are exactly the acyclic ones: there every frame is
   delivered fewer times than there are nodes, and on any other no bound holds.
   */
  lemma HaltsExactly(g: Peers, b: int)
    requires Peering(g) && |g| - 1 <= b
    ensures Halts(g, b) <==> Acyclic(g)
  {
    if Acyclic(g) {
      forall o, frame, order | o in g && |frame| < 0x1_0000 && Delivers(Broadcast(g, o, frame), g, order)
        ensures |order| <= b
      {
        Flood(g, o, frame, order);
      }
    } else {
      var c :| Cycle(g, c);
      forall j | 0 <= j < |c| ensures c[j] in g { WalkIn(g, c, j); }
      assert Edge(g, c[0], c[1]);
      var i :| 0 <= i < |g[c[0]]| && g[c[0]][i] == c[1];
      var order := GoesRound(Broadcast(g, c[0], []), g, c, 1, i, if b < 0 then 0 else b + 1);
    }
  }
}
