/** udp.c and frame.c: the packet header, and what a node sends and writes. */
module UdpFrames {
  import opened Sequences
  import opened ByteOrder
  import opened Endpoints

  /** struct packet_hdr holds the size of the frame in network order. */
  const PACKET_HDR: nat := 2

  /** A frame with its header in front. */
  function Packed(frame: seq<byte>): seq<byte>
    requires |frame| < 0x1_0000
  {
    PutPort(|frame|) + frame
  }

  /** frame_recvfrom on a whole packet: as much as the header announces. */
  function Unpacked(packet: seq<byte>): seq<byte> {
    if |packet| < PACKET_HDR then [] else
    var size := GetPort(packet[..2]);
    if PACKET_HDR + size <= |packet| then packet[2..2 + size] else packet[2..]
  }

  /** The first two bytes are the length of the frame, most significant first; the frame follows. */
  lemma PackedBytes(frame: seq<byte>)
    requires |frame| < 0x1_0000
    ensures |Packed(frame)| == 2 + |frame| && Packed(frame)[2..] == frame
    ensures 0x100 * Packed(frame)[0] as int + Packed(frame)[1] as int == |frame|
  {
  }

  /** As much is taken as the first two bytes say, or as there is. */
  lemma UnpackedBytes(packet: seq<byte>)
    requires |packet| >= 2
    ensures var size := 0x100 * packet[0] as int + packet[1] as int;
            Unpacked(packet) <= packet[2..] && |Unpacked(packet)| == if size <= |packet| - 2 then size else |packet| - 2
  {
  }

  lemma UnpackPacked(frame: seq<byte>)
    requires |frame| < 0x1_0000
    ensures Unpacked(Packed(frame)) == frame
  {
    var p := Packed(frame);
    assert p[..2] == PutPort(|frame|) && p[2..] == frame;
    PortRoundTrip(|frame|);
  }

  /** The peers a packet from one of them is relayed to, in the order of the list. */
  function Others(peers: seq<Addr>, from: Addr): seq<Addr> {
    if peers == [] then []
    else Unless(peers[0], from) + Others(peers[1..], from)
  }

  function Unless(peer: Addr, from: Addr): seq<Addr> { if peer == from then [] else [peer] }

  lemma {:induction false} OthersExact(peers: seq<Addr>, from: Addr)
    ensures forall w :: w in Others(peers, from) <==> w in peers && w != from
  {
    if peers != [] {
      OthersExact(peers[1..], from);
    }
  }

  lemma {:induction false} OthersDistinct(peers: seq<Addr>, from: Addr)
    requires Distinct(peers)
    ensures Distinct(Others(peers, from))
  {
    if peers != [] {
      OthersDistinct(peers[1..], from);
      OthersExact(peers[1..], from);
      var o, n := Others(peers[1..], from), Others(peers, from);
      assert peers[0] !in peers[1..];
      assert forall i :: 0 <= i < |o| ==> o[i] in o;
      if peers[0] != from {
        assert n == [peers[0]] + o;
      }
    }
  }
}
