/** endpoint.c: a socket address as the bytes of a sockaddr_storage, and the length in use. */
module Endpoints {
  import opened ByteOrder

  const AF_INET: u16 := 2
  const AF_INET6: u16 := 10
  const STORAGE: nat := 128

  /** What evutil_sockaddr_cmp looks at. */
  datatype Addr = Addr(family: u16, port: u16, ip: seq<byte>)

  /** htons and the bytes of sin_port, most significant first. */
  function PutPort(port: u16): (b: seq<byte>)
    ensures |b| == 2
  {
    [port / 0x100, port % 0x100]
  }

  function GetPort(b: seq<byte>): u16
    requires |b| == 2
  {
    0x100 * b[0] as int + b[1] as int
  }

  lemma PortRoundTrip(port: u16)
    ensures GetPort(PutPort(port)) == port
  {
  }

  /** sa_family. */
  function Family(a: seq<byte>): u16
    requires |a| >= 2
  {
    GetU16(a[..2])
  }

  predicate Internet(a: seq<byte>) { |a| == STORAGE && (Family(a) == AF_INET || Family(a) == AF_INET6) }

  /** How much of the storage an address of a family takes: sockaddr_in or sockaddr_in6. */
  function Used(family: u16): nat { if family == AF_INET then 16 else 28 }

  function View(a: seq<byte>): Addr
    requires Internet(a)
  {
    Addr(Family(a), GetPort(a[2..4]), if Family(a) == AF_INET then a[4..8] else a[8..24])
  }

  class Endpoint {
    const addr: array<byte>
    var addrlen: nat

    ghost predicate Valid()
      reads this
    {
      addr.Length == STORAGE && addrlen <= STORAGE
    }

    /** endpoint_init on zeroed storage. */
    constructor (sa: seq<byte>)
      requires |sa| <= STORAGE
      ensures Valid() && fresh(addr) && addrlen == |sa| && addr[..] == sa + seq(STORAGE - |sa|, _ => 0)
    {
      addrlen := |sa|;
      addr := new byte[STORAGE](i => if 0 <= i < |sa| then sa[i] else 0);
    }

    /** endpoint_port; with any other family it returns what an uninitialised variable happens to hold. */
    method Port() returns (port: int)
      requires Valid()
      ensures Internet(addr[..]) ==> port == View(addr[..]).port == 0x100 * addr[2] as int + addr[3] as int
    {
      port := *;
      assert addr[..2] == addr[..][..2];
      var family := Family(addr[..2]);
      if family == AF_INET || family == AF_INET6 {
        port := GetPort(addr[2..4]);
        assert addr[2..4] == addr[..][2..4];
      }
    }

    /** endpoint_set_port; families other than the two are left alone. */
    method SetPort(port: int)
      requires Valid()
      modifies addr
      ensures Internet(old(addr[..])) ==> Internet(addr[..]) && View(addr[..]) == View(old(addr[..])).(port := port % 0x1_0000)
      ensures Internet(old(addr[..])) ==> addr[2] == port % 0x1_0000 / 0x100 && addr[3] == port % 0x100
      ensures addr[..2] == old(addr[..2]) && addr[4..] == old(addr[4..])
      ensures !Internet(old(addr[..])) ==> addr[..] == old(addr[..])
    {
      assert addr[..2] == addr[..][..2];
      var family := Family(addr[..2]);
      if family == AF_INET || family == AF_INET6 {
        var b := PutPort(port % 0x1_0000);
        PortRoundTrip(port % 0x1_0000);
        addr[2], addr[3] := b[0], b[1];
        assert addr[..][2..4] == b && addr[..][..2] == old(addr[..][..2]) && addr[..][4..] == old(addr[..][4..]);
        assert addr[..][4..8] == addr[..][4..][..4] && addr[..][8..24] == addr[..][4..][4..20];
        assert old(addr[..])[4..8] == old(addr[..][4..][..4]) && old(addr[..])[8..24] == old(addr[..][4..][4..20]);
      }
    }

    /** endpoint_copy: only the first addrlen bytes of the storage move. */
    method CopyFrom(src: Endpoint)
      requires Valid() && src.Valid() && src != this && src.addr != addr
      modifies this, addr
      ensures Valid() && addrlen == src.addrlen
      ensures addr[..] == src.addr[..src.addrlen] + old(addr[src.addrlen..])
    {
      for i := 0 to src.addrlen
        invariant addr[..i] == src.addr[..i] && addr[i..] == old(addr[i..])
      {
        ghost var rest := addr[i..];
        addr[i] := src.addr[i];
        assert addr[i + 1..] == rest[1..] == old(addr[i + 1..]);
        assert addr[..i + 1] == addr[..i] + [addr[i]] && src.addr[..i + 1] == src.addr[..i] + [src.addr[i]];
      }
      assert addr[..] == addr[..src.addrlen] + addr[src.addrlen..];
      addrlen := src.addrlen;
    }

    /**
     endpoint_cmp: zero exactly if lengths, families, addresses and ports agree; in bytes, the
     first eight for IPv4 and, for IPv6, the first four and the sixteen of the address. libevent
     calls addresses of any other family different.
     */
    method Cmp(b: Endpoint) returns (r: int)
      requires Valid() && b.Valid()
      ensures r == 0 <==> addrlen == b.addrlen && Internet(addr[..]) && Internet(b.addr[..]) && View(addr[..]) == View(b.addr[..])
      ensures addr[0] == 2 && addr[1] == 0 ==> (r == 0 <==> addrlen == b.addrlen && addr[..8] == b.addr[..8])
      ensures addr[0] == 10 && addr[1] == 0 ==>
                (r == 0 <==> addrlen == b.addrlen && addr[..4] == b.addr[..4] && addr[8..24] == b.addr[8..24])
      ensures r == 0 ==> addr[1] == 0 && (addr[0] == 2 || addr[0] == 10)
    {
      SameBytes(addr[..], b.addr[..]);
      assert addr[..8] == addr[..][..8] && b.addr[..8] == b.addr[..][..8] && addr[..4] == addr[..][..4] && b.addr[..4] == b.addr[..][..4];
      assert addr[8..24] == addr[..][8..24] && b.addr[8..24] == b.addr[..][8..24];
      if addrlen != b.addrlen {
        return -1;
      }
      var x, y := addr[..], b.addr[..];
      if Family(x) != Family(y) {
        return Family(x) - Family(y);
      }
      if Family(x) != AF_INET && Family(x) != AF_INET6 {
        return 1;
      }
      var ip, ip' := if Family(x) == AF_INET then x[4..8] else x[8..24], if Family(y) == AF_INET then y[4..8] else y[8..24];
      if ip != ip' {
        return 1;
      }
      return GetPort(x[2..4]) - GetPort(y[2..4]);
    }
  }

  lemma FamilyBytes(a: seq<byte>)
    requires |a| >= 2
    ensures Family(a) == AF_INET <==> a[0] == 2 && a[1] == 0
    ensures Family(a) == AF_INET6 <==> a[0] == 10 && a[1] == 0
  {
  }

  lemma PortBytes(x: seq<byte>, y: seq<byte>)
    requires |x| == |y| == 2
    ensures GetPort(x) == GetPort(y) <==> x == y
  {
  }

  /** The parts of an address that View looks at, as bytes. */
  lemma SameBytes(a: seq<byte>, b: seq<byte>)
    requires |a| == |b| == STORAGE
    ensures a[1] == 0 && a[0] == 2 ==> (Internet(b) && View(a) == View(b) <==> a[..8] == b[..8])
    ensures a[1] == 0 && a[0] == 10 ==> (Internet(b) && View(a) == View(b) <==> a[..4] == b[..4] && a[8..24] == b[8..24])
    ensures Internet(a) <==> a[1] == 0 && (a[0] == 2 || a[0] == 10)
  {
    hide GetPort, Family;
    FamilyBytes(a);
    FamilyBytes(b);
    PortBytes(a[2..4], b[2..4]);
    assert a[..4] == [a[0], a[1]] + a[2..4] && b[..4] == [b[0], b[1]] + b[2..4];
    assert a[..8] == a[..4] + a[4..8] && b[..8] == b[..4] + b[4..8];
  }

  /** An address survives endpoint_copy if the length in use covers it. */
  lemma CopyView(s: seq<byte>, n: nat, rest: seq<byte>)
    requires Internet(s) && Used(Family(s)) <= n <= STORAGE && |rest| == STORAGE - n
    ensures Internet(s[..n] + rest) && View(s[..n] + rest) == View(s)
  {
    var t := s[..n] + rest;
    assert t[..2] == s[..2] && t[2..4] == s[2..4] && t[4..8] == s[4..8];
    if Family(s) == AF_INET6 {
      assert t[8..24] == s[8..24];
    }
  }
}
