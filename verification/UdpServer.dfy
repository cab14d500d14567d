/** udp.c at one node: the loops over frames and peers. */
module UdpServer {
  import opened Sequences
  import opened ByteOrder
  import opened Endpoints
  import opened UdpFrames
  import opened Flooding

  /** A datagram handed to async_sendto. */
  datatype Send = Send(to: Addr, bytes: seq<byte>)

  function SendAll(to: seq<Addr>, bytes: seq<byte>): (s: seq<Send>)
    ensures |s| == |to|
  {
    seq(|to|, i requires 0 <= i < |to| => Send(to[i], bytes))
  }

  /** The receivers reached if the first k sends succeed and the next one, if any, fails. */
  function UntilFailure(to: seq<Addr>, k: nat): (r: seq<Addr>)
    ensures r <= to && |r| == if k < |to| then k else |to|
  {
    if k < |to| then to[..k] else to
  }

  /** What broadcasting a queue of frames sends: frame by frame, each to every peer up to the first failure. */
  function BroadcastAll(frames: seq<seq<byte>>, peers: seq<Addr>, sendable: seq<nat>): seq<Send>
    requires |sendable| >= |frames| && forall f <- frames :: |f| < 0x1_0000
  {
    if frames == [] then []
    else
      var n := |frames| - 1;
      BroadcastAll(frames[..n], peers, sendable) + SendAll(UntilFailure(peers, sendable[n]), Packed(frames[n]))
  }

  lemma FailedAt(to: seq<Addr>, all: seq<Addr>)
    requires to < all
    ensures UntilFailure(all, |to|) == to
  {
  }

  lemma NoFailure(to: seq<Addr>, k: nat)
    requires |to| <= k
    ensures UntilFailure(to, k) == to
  {
  }

  lemma SendNone(bytes: seq<byte>)
    ensures SendAll([], bytes) == []
  {
  }

  lemma SendOneMore(to: seq<Addr>, a: Addr, bytes: seq<byte>)
    ensures SendAll(to + [a], bytes) == SendAll(to, bytes) + [Send(a, bytes)]
  {
  }

  class Server {
    var peers: seq<Addr>         // udp_peers
    var frames: seq<seq<byte>>   // frames_to_send
    var outbox: seq<Send>        // datagrams sent
    var device: seq<seq<byte>>   // frames written to the device

    constructor ()
      ensures peers == [] && frames == [] && outbox == [] && device == []
    {
      peers, frames, outbox, device := [], [], [], [];
    }

    /**
     forward_udp_frame_to_other_peers. The first send that fails ends the loop; sendable
     is how many succeed before that.
     */
    method Forward(raw: seq<byte>, from: Addr, sendable: nat)
      modifies this`outbox
      ensures var to := Others(peers, from);
              outbox == old(outbox) + SendAll(UntilFailure(to, sendable), raw)
    {
      hide SendAll, Others, UntilFailure;
      var sent := 0;
      ghost var to := Others(peers, from);
      OthersPrefix(peers, from, 0);
      SendNone(raw);
      for i := 0 to |peers|
        invariant sent == |Others(peers[..i], from)| <= sendable
        invariant outbox == old(outbox) + SendAll(Others(peers[..i], from), raw)
      {
        OthersPrefix(peers, from, i);
        if peers[i] == from {
          assert Others(peers[..i + 1], from) == Others(peers[..i], from);
          continue;
        }
        if sent == sendable {
          FailedAt(Others(peers[..i], from), to);
          return;
        }
        SendOneMore(Others(peers[..i], from), peers[i], raw);
        Assoc(old(outbox), SendAll(Others(peers[..i], from), raw), [Send(peers[i], raw)]);
        outbox := outbox + [Send(peers[i], raw)];
        sent := sent + 1;
      }
      assert peers[..|peers|] == peers;
      NoFailure(to, sendable);
    }

    /** The inner loop of _broadcast_udp_to_peers. */
    method SendToPeers(raw: seq<byte>, sendable: nat)
      modifies this`outbox
      ensures outbox == old(outbox) + SendAll(UntilFailure(peers, sendable), raw)
    {
      for j := 0 to |peers|
        invariant j <= sendable && outbox == old(outbox) + SendAll(peers[..j], raw)
      {
        if j == sendable {
          return;
        }
        outbox := outbox + [Send(peers[j], raw)];
        assert SendAll(peers[..j + 1], raw) == SendAll(peers[..j], raw) + [Send(peers[j], raw)];
      }
      assert peers[..|peers|] == peers;
    }

    /**
     _broadcast_udp_to_peers: every queued frame goes to every peer, and the queue is emptied.
     A send that fails ends the turn of its frame only; sendable says how many succeed before.
     */
    method Broadcast(sendable: seq<nat>)
      requires |sendable| == |frames| && forall f <- frames :: |f| < 0x1_0000
      modifies this`outbox, this`frames
      ensures outbox == old(outbox) + BroadcastAll(old(frames), peers, sendable) && frames == []
    {
      hide SendAll, Packed, UntilFailure;
      for i := 0 to |frames|
        invariant frames == old(frames) && outbox == old(outbox) + BroadcastAll(frames[..i], peers, sendable)
      {
        assert frames[..i + 1][..i] == frames[..i];
        SendToPeers(Packed(frames[i]), sendable[i]);
      }
      assert frames[..|frames|] == frames;
      frames := [];
    }

    /**
     One turn of server_udp: frame_recvfrom, relay, write to the device. The header is
     peeked into hdrJunk's place, the packet received into memory holding bufJunk.
     */
    method Receive(d: seq<byte>, from: Addr, hdrJunk: seq<byte>, bufJunk: seq<byte>, sendable: nat)
      requires |hdrJunk| >= PACKET_HDR && |bufJunk| >= 0x1_0000 + PACKET_HDR
      modifies this`outbox, this`device
      ensures var h := d + hdrJunk; var size := 0x100 * h[0] as int + h[1] as int; var raw := (d + bufJunk)[..2 + size];
              && outbox == old(outbox) + SendAll(UntilFailure(Others(peers, from), sendable), raw)
              && device == old(device) + [raw[2..]]
              && (2 + size <= |d| ==> raw <= d && raw[2..] == Unpacked(d))
    {
      var hdr := (d + hdrJunk)[..2];
      var size := GetPort(hdr);
      var raw := (d + bufJunk)[..PACKET_HDR + size];
      if PACKET_HDR + size <= |d| {
        assert hdr == d[..2] && raw == d[..PACKET_HDR + size];
      }
      Forward(raw, from, sendable);
      device := device + [raw[2..]];
    }
  }

  lemma {:induction false} OthersPrefix(peers: seq<Addr>, from: Addr, i: nat)
    requires i <= |peers|
    ensures i == 0 ==> Others(peers[..i], from) == []
    ensures Others(peers[..i], from) <= Others(peers, from)
    ensures i < |peers| ==> Others(peers[..i + 1], from) == Others(peers[..i], from) + Unless(peers[i], from)
    ensures i < |peers| ==> Others(peers[..i + 1], from) <= Others(peers, from)
    decreases |peers| - i
  {
    if i < |peers| {
      OthersAppend(peers[..i], [peers[i]], from);
      assert peers[..i + 1] == peers[..i] + [peers[i]];
      OthersPrefix(peers, from, i + 1);
    } else {
      assert peers[..i] == peers;
    }
  }

  lemma {:induction false} OthersAppend(a: seq<Addr>, b: seq<Addr>, from: Addr)
    ensures Others(a + b, from) == Others(a, from) + Others(b, from)
  {
    hide Others, Unless;
    OpenOthers(a, from);
    if a == [] {
      assert a + b == b;
    } else {
      OthersAppend(a[1..], b, from);
      OpenOthers(a + b, from);
      assert (a + b)[1..] == a[1..] + b;
      Assoc(Unless(a[0], from), Others(a[1..], from), Others(b, from));
    }
  }

  lemma OpenOthers(peers: seq<Addr>, from: Addr)
    ensures Others(peers, from) == if peers == [] then [] else Unless(peers[0], from) + Others(peers[1..], from)
  {
  }

  /** How many datagrams the first n frames of a broadcast take. */
  function SentBefore(peers: seq<Addr>, sendable: seq<nat>, n: nat): nat
    requires n <= |sendable|
  {
    if n == 0 then 0
    else SentBefore(peers, sendable, n - 1) + if sendable[n - 1] < |peers| then sendable[n - 1] else |peers|
  }

  lemma {:induction false} BroadcastCount(frames: seq<seq<byte>>, peers: seq<Addr>, sendable: seq<nat>)
    requires |sendable| >= |frames| && forall f <- frames :: |f| < 0x1_0000
    ensures |BroadcastAll(frames, peers, sendable)| == SentBefore(peers, sendable, |frames|)
  {
    if frames != [] { BroadcastCount(frames[..|frames| - 1], peers, sendable); }
  }

  lemma OpenBroadcast(frames: seq<seq<byte>>, peers: seq<Addr>, sendable: seq<nat>)
    requires |sendable| >= |frames| > 0 && forall f <- frames :: |f| < 0x1_0000
    ensures var n := |frames| - 1;
            BroadcastAll(frames, peers, sendable)
              == BroadcastAll(frames[..n], peers, sendable) + SendAll(UntilFailure(peers, sendable[n]), Packed(frames[n]))
  {
    hide Packed, SendAll, UntilFailure;
  }

  /**
   A broadcast sends, one after the other, the i-th frame to the j-th peer, for every frame and
   every peer before the one at which sending that frame failed.
   */
  lemma {:induction false} BroadcastExact(frames: seq<seq<byte>>, peers: seq<Addr>, sendable: seq<nat>, i: nat, j: nat)
    requires |sendable| >= |frames| && forall f <- frames :: |f| < 0x1_0000
    requires i < |frames| && j < |peers| && j < sendable[i]
    ensures var sent, at := BroadcastAll(frames, peers, sendable), SentBefore(peers, sendable, i) + j;
            |sent| == SentBefore(peers, sendable, |frames|) && at < |sent| && sent[at] == Send(peers[j], Packed(frames[i]))
    decreases |frames|
  {
    hide Packed, BroadcastAll, SentBefore;
    var n := |frames| - 1;
    OpenBroadcast(frames, peers, sendable);
    BroadcastCount(frames, peers, sendable);
    BroadcastCount(frames[..n], peers, sendable);
    if i < n {
      BroadcastExact(frames[..n], peers, sendable, i, j);
    }
  }

  /** The datagrams among packets in flight. */
  function Datagrams(ps: seq<Packet>): (s: seq<Send>)
    ensures |s| == |ps|
  {
    seq(|ps|, i requires 0 <= i < |ps| => Send(ps[i].dst, ps[i].bytes))
  }

  /** Broadcasting one frame without a failure puts the packets of the flooding model on the wire. */
  lemma BroadcastIsStart(g: Peers, o: Addr, frame: seq<byte>)
    requires o in g && |frame| < 0x1_0000
    ensures BroadcastAll([frame], g[o], [|g[o]|]) == Datagrams(Flooding.Broadcast(g, o, frame).flight)
  {
    hide Packed;
    assert [frame][..0] == [];
  }

  /**
   Receiving a broadcast packet without a failure is the step of the flooding model: what Receive
   sends and writes, whatever memory held before, is what the model relays and writes.
   */
  lemma ReceiveIsStep(g: Peers, p: Packet, frame: seq<byte>, hdrJunk: seq<byte>, bufJunk: seq<byte>)
    requires p.dst in g && |frame| < 0x1_0000 && p.bytes == Packed(frame)
    ensures |p.bytes| == 2 + |frame|
    ensures var h := p.bytes + hdrJunk; var size := 0x100 * h[0] as int + h[1] as int; var raw := (p.bytes + bufJunk)[..2 + size];
            && SendAll(Others(g[p.dst], p.src), raw) == Datagrams(Relay(g, p))
            && raw[2..] == Unpacked(p.bytes) == frame
  {
    ReceivesPacked(frame, hdrJunk, bufJunk);
    UnpackPacked(frame);
  }

  /** A broadcast packet is received whole, whatever memory held before. */
  lemma ReceivesPacked(frame: seq<byte>, hdrJunk: seq<byte>, bufJunk: seq<byte>)
    requires |frame| < 0x1_0000
    ensures var d := Packed(frame);
            && |d| == 2 + |frame| && 0x100 * (d + hdrJunk)[0] as int + (d + hdrJunk)[1] as int == |frame|
            && (d + bufJunk)[..2 + |frame|] == d && d[2..] == frame
  {
    PortRoundTrip(|frame|);
    assert (Packed(frame) + hdrJunk)[..2] == PutPort(|frame|);
  }
}
