/** The udp_port announcement: printed by mc.c, read back and registered by server.c. */
module MetaAnnounce {
  import opened ByteOrder
  import opened Endpoints
  import opened MetaLine

  const COMMAND := "udp_port"

  function Digit(d: nat): char
    requires d < 10
  {
    ['0', '1', '2', '3', '4', '5', '6', '7', '8', '9'][d]
  }

  function Value(c: char): (v: nat)
    requires '0' <= c <= '9'
    ensures v < 10
  {
    c as int - '0' as int
  }

  /** %d of a number that is not negative. */
  function Print(n: nat): (s: string)
    ensures s != "" && forall i :: 0 <= i < |s| ==> '0' <= s[i] <= '9'
  {
    if n < 10 then [Digit(n)] else Print(n / 10) + [Digit(n % 10)]
  }

  /** The number the leading digits of s spell, after acc. */
  function Number(s: string, acc: nat): nat {
    if s == "" || !('0' <= s[0] <= '9') then acc else Number(s[1..], 10 * acc + Value(s[0]))
  }

  /** atoi: white space and a sign may come first. */
  function Atoi(s: string): int {
    if s == "" then 0
    else if s[0] == ' ' || '\t' <= s[0] <= '\r' then Atoi(s[1..])
    else if s[0] == '-' then 0 - Number(s[1..], 0)
    else if s[0] == '+' then Number(s[1..], 0)
    else Number(s, 0)
  }

  lemma {:induction false} NumberAppend(s: string, c: char, acc: nat)
    requires (forall i :: 0 <= i < |s| ==> '0' <= s[i] <= '9') && '0' <= c <= '9'
    ensures Number(s + [c], acc) == 10 * Number(s, acc) + Value(c)
  {
    if s == "" {
      assert s + [c] == [c];
    } else {
      assert (s + [c])[1..] == s[1..] + [c];
      NumberAppend(s[1..], c, 10 * acc + Value(s[0]));
    }
  }

  lemma {:induction false} PrintNumber(n: nat)
    ensures Number(Print(n), 0) == n
  {
    if n >= 10 {
      PrintNumber(n / 10);
      NumberAppend(Print(n / 10), Digit(n % 10), 0);
    }
  }

  /** atoi reads back what %d printed. */
  lemma AtoiPrint(n: nat)
    ensures Atoi(Print(n)) == n
  {
    PrintNumber(n);
  }

  predicate Digits(s: string) { forall i :: 0 <= i < |s| ==> 48 <= s[i] as int <= 57 }

  /** Decimal notation, in character codes: the last digit, and before it the rest of the number. */
  lemma PrintDecimal(n: nat)
    ensures var s := Print(n); var k := |s| - 1;
            && k >= 0 && Digits(s) && s[k] as int == 48 + n % 10
            && (if n < 10 then k == 0 else s[..k] == Print(n / 10))
  {
    assert forall d :: 0 <= d < 10 ==> Digit(d) as int == 48 + d;
  }

  /** atoi reads a digit string as decimal notation, most significant digit first. */
  lemma AtoiDecimal(s: string, c: char)
    requires Digits(s) && Digits([c])
    ensures Atoi("") == 0 && Atoi(s + [c]) == 10 * Atoi(s) + (c as int - 48)
  {
    AtoiDigits(s);
    AtoiDigits(s + [c]);
    assert [c][0] == c;
    NumberAppend(s, c, 0);
  }

  lemma AtoiDigits(s: string)
    requires Digits(s)
    ensures Atoi(s) == Number(s, 0)
  {
  }

  /** It skips white space, then takes one sign, and stops at the first character that is no digit. */
  lemma AtoiAround(w: char, s: string, c: char, rest: string)
    requires (w as int == 32 || 9 <= w as int <= 13) && Digits(s) && !Digits([c])
    ensures Atoi([w] + rest) == Atoi(rest)
    ensures Atoi("-" + s) == 0 - Atoi(s) && Atoi("+" + s) == Atoi(s)
    ensures s != "" ==> Atoi(s + [c] + rest) == Atoi(s)
  {
    hide Number;
    assert ([w] + rest)[1..] == rest && ("-" + s)[1..] == s && ("+" + s)[1..] == s;
    AtoiDigits(s);
    assert [c][0] == c;
    if s != "" {
      assert (s + [c] + rest)[0] == s[0];
      NumberStops(s, c, rest, 0);
    }
  }

  lemma {:induction false} NumberStops(s: string, c: char, rest: string, acc: nat)
    requires Digits(s) && !(48 <= c as int <= 57)
    ensures Number(s + [c] + rest, acc) == Number(s, acc)
  {
    var all := s + [c] + rest;
    if s == "" {
      assert all[0] == c;
    } else {
      assert all[0] == s[0] && all[1..] == s[1..] + [c] + rest;
      NumberStops(s[1..], c, rest, 10 * acc + Value(s[0]));
    }
  }

  /** mc_establish_tunnel: the line, without its CRLF. */
  function Announcement(port: u16): string { COMMAND + ":" + Print(port) }

  /** strncmp(cmd, "udp_port", strlen(cmd)) == 0. */
  predicate IsCommand(cmd: string) { cmd <= COMMAND }

  datatype Reading =
    | Ignored
    | Announced(port: u16)
    | NoArgument            // reads past the vector of fields

  /** What server_mc_read_cb does with a line. */
  function Understand(line: string): Reading {
    var fields := Fields(line[Leading(line)..]);
    if !IsCommand(fields[0]) then Ignored
    else if |fields| < 2 then NoArgument
    else Announced(Atoi(fields[1]) % 0x1_0000)
  }

  /** Every printed announcement, the command, a colon and the port in decimal, is read back as exactly that port. */
  lemma AnnouncementUnderstood(port: u16)
    ensures Announcement(port) == "udp_port:" + Print(port) && Understand(Announcement(port)) == Announced(port)
  {
    CommandColon();
    ReadBack(port);
  }

  lemma CommandColon()
    ensures COMMAND + ":" == "udp_port:"
  {
  }

  lemma ReadBack(port: u16)
    ensures Understand(Announcement(port)) == Announced(port)
  {
    hide Print, Atoi, Span;
    var line, digits := Announcement(port), Print(port);
    var fields, erased := [COMMAND, digits], ":";
    NothingLeading(line);
    assert line[0..] == line;
    WeaveTwo(COMMAND, digits);
    assert NoDelim(digits) by { assert forall i :: 0 <= i < |digits| ==> '0' <= digits[i] <= '9'; }
    FieldsUnique(fields, erased);
    AtoiPrint(port);
  }

  /** What a line announces: the number its second field spells, modulo 2 to the 16. */
  lemma AnnouncedPort(cmd: string, d: char, field: string, tail: string)
    requires cmd != "" && cmd <= COMMAND && (d == ' ' || d == ':') && NoDelim(field) && (tail == "" || tail[0] == ' ' || tail[0] == ':')
    ensures Understand(cmd + [d] + field + tail) == Announced(Atoi(field) % 0x1_0000)
  {
    hide Atoi, Fields, Span, Leading;
    var line := cmd + [d] + field + tail;
    CommandPlain();
    assert NoDelim(cmd);
    NothingLeading(line);
    assert line[0..] == line;
    FirstField(cmd, [d] + field + tail);
    assert line == cmd + ([d] + field + tail);
    assert ([d] + field + tail)[1..] == field + tail;
    FirstField(field, tail);
  }

  lemma FirstField(f: string, rest: string)
    requires NoDelim(f) && (rest == "" || Delim(rest[0]))
    ensures Fields(f + rest)[0] == f
    ensures rest == "" ==> |Fields(f + rest)| == 1
    ensures rest != "" ==> Fields(f + rest) == [f] + Fields(rest[1..])
  {
    SpanOf(f, rest);
    assert (f + rest)[..|f|] == f;
    if rest != "" {
      assert (f + rest)[|f| + 1..] == rest[1..];
    } else {
      assert f + rest == f;
    }
  }

  lemma NothingLeading(s: string)
    requires s != "" && !Delim(s[0])
    ensures Leading(s) == 0
  {
  }

  lemma WeaveTwo(a: string, b: string)
    ensures Weave([a, b], ":") == a + ":" + b
  {
    assert [a, b][1..] == [b] && ":"[1..] == "";
  }

  /** A line announces a port if and only if its first field is a non-empty prefix of the command and there is a second one. */
  lemma AnnouncedExactly(line: string)
    ensures Understand(line).Announced? <==>
              exists cmd, rest, d :: cmd != "" && NoDelim(cmd) && cmd <= COMMAND && Delim(d) && line[Leading(line)..] == cmd + [d] + rest
  {
    hide Atoi, Leading;
    var s := line[Leading(line)..];
    var k := Span(s);
    if Understand(line).Announced? {
      assert s == s[..k] + [s[k]] + s[k + 1..];
      assert s[..k] != "" by { assert s[0] == line[Leading(line)]; }
    }
    if cmd, rest, d :| cmd != "" && NoDelim(cmd) && cmd <= COMMAND && Delim(d) && s == cmd + [d] + rest {
      SpanOf(cmd, [d] + rest);
      assert s == cmd + ([d] + rest);
      assert s[..k] == cmd;
    }
  }

  /** A line has no argument to read exactly if it is, after its leading delimiters, a prefix of the command. */
  lemma NoArgumentExactly(line: string)
    ensures Understand(line).NoArgument? <==> NoDelim(line[Leading(line)..]) && line[Leading(line)..] <= COMMAND
  {
    hide Atoi, Leading;
    var s := line[Leading(line)..];
    if NoDelim(s) {
      SpanOf(s, "");
      assert s + "" == s && s[..|s|] == s;
    }
  }

  /** The empty line, the command on its own and all that lies between are such lines. */
  lemma NoArgumentAt(s: string)
    requires s <= COMMAND
    ensures Understand(s) == NoArgument
  {
    hide Understand, Leading, Fields, Span;
    CommandPlain();
    if s != "" { NothingLeading(s); }
    assert s[Leading(s)..] == s;
    NoArgumentExactly(s);
  }

  lemma CommandPlain()
    ensures NoDelim(COMMAND)
  {
  }

  /** A socket address as accept or connect delivers it: no longer than the storage, long enough for its family. */
  predicate SockAddr(sa: seq<byte>) {
    2 <= |sa| <= STORAGE && (Family(sa) == AF_INET || Family(sa) == AF_INET6) && Used(Family(sa)) <= |sa|
  }

  function Padded(sa: seq<byte>): (s: seq<byte>)
    requires |sa| <= STORAGE
    ensures |s| == STORAGE
  {
    sa + seq(STORAGE - |sa|, _ => 0)
  }

  lemma PaddedInternet(sa: seq<byte>)
    requires SockAddr(sa)
    ensures Internet(Padded(sa)) && Family(Padded(sa)) == Family(sa)
  {
    assert Padded(sa)[..2] == sa[..2];
  }

  lemma WithPort(sa: seq<byte>, p: seq<byte>)
    requires SockAddr(sa) && |p| == 2
    ensures (sa[..2] + p + Padded(sa)[4..])[..|sa|] == sa[..2] + p + sa[4..]
  {
  }

  const DTLS_ENABLE := 1
  const DTLS_DISABLE := 2

  /** struct udp_peer; dtls says whether there is an ssl state. */
  datatype UdpPeer = UdpPeer(endpoint: Endpoint, sslFlags: int, dtls: bool)

  class MetaServer {
    var peers: seq<UdpPeer>   // udp_peers
    var overreads: nat        // lines of which a field was read that is not there

    constructor ()
      ensures peers == [] && overreads == 0
    {
      peers, overreads := [], 0;
    }

    /** udp_register_new_peer; dtlsOk is whether dtls_new_peer would succeed. A failure does not keep the peer out. */
    method Register(remote: Endpoint, sslFlags: int, dtlsOk: bool)
      requires remote.Valid()
      modifies this`peers
      ensures |peers| == |old(peers)| + 1 && peers[..|old(peers)|] == old(peers)
      ensures var p := peers[|old(peers)|];
              && p.sslFlags == sslFlags && p.dtls == (sslFlags == DTLS_ENABLE && dtlsOk)
              && fresh(p.endpoint) && fresh(p.endpoint.addr) && p.endpoint.Valid() && p.endpoint.addrlen == remote.addrlen
              && p.endpoint.addr[..] == remote.addr[..remote.addrlen] + seq(STORAGE - remote.addrlen, _ => 0)
              && (Internet(remote.addr[..]) && Used(Family(remote.addr[..])) <= remote.addrlen ==>
                    Internet(p.endpoint.addr[..]) && View(p.endpoint.addr[..]) == View(remote.addr[..]))
    {
      var e := new Endpoint([]);
      ghost var s, n := remote.addr[..], remote.addrlen;
      ghost var zeros: seq<byte> := seq(STORAGE - n, _ => 0);
      assert e.addr[n..] == zeros;
      e.CopyFrom(remote);
      assert remote.addr[..n] == s[..n];
      if Internet(s) && Used(Family(s)) <= n {
        CopyView(s, n, zeros);
      }
      var dtls := false;
      if sslFlags == DTLS_ENABLE {
        dtls := dtlsOk;
      }
      peers := peers + [UdpPeer(e, sslFlags, dtls)];
    }

    /** The address of the connection with another port. */
    method RegisterAt(sa: seq<byte>, port: u16)
      requires SockAddr(sa)
      modifies this`peers
      ensures Internet(Padded(sa)) && |peers| == |old(peers)| + 1 && peers[..|old(peers)|] == old(peers)
      ensures var p := peers[|old(peers)|]; var e := p.endpoint;
              && p.sslFlags == DTLS_DISABLE && !p.dtls
              && fresh(e) && e.Valid() && e.addrlen == |sa| && Internet(e.addr[..]) && View(e.addr[..]) == View(Padded(sa)).(port := port)
              && e.addr[..] == sa[..2] + [port as int / 0x100, port as int % 0x100] + sa[4..] + seq(STORAGE - |sa|, _ => 0)
    {
      hide View;
      PaddedInternet(sa);
      var e := new Endpoint(sa);
      assert e.addr[..] == Padded(sa);
      e.SetPort(port);
      assert Family(e.addr[..]) == Family(Padded(sa)) by { assert e.addr[..][..2] == e.addr[..2] && Padded(sa)[..2] == sa[..2]; }
      assert e.addr[..] == sa[..2] + [port as int / 0x100, port as int % 0x100] + Padded(sa)[4..];
      WithPort(sa, [port as int / 0x100, port as int % 0x100]);
      assert e.addr[..|sa|] == e.addr[..][..|sa|];
      Register(e, DTLS_DISABLE, false);
    }

    /**
     The body of the loop of server_mc_read_cb: a line that announces a port registers the
     address of the meta-connexion with that port; any other line registers nothing. A line
     whose argument is missing is only counted, as the original then reads past its fields.
     */
    method ReadLine(line: array<char>, n: nat, sa: seq<byte>)
      requires n < line.Length && line[n] == '\0' && Plain(line[..n]) && SockAddr(sa)
      modifies this, line
      ensures overreads == old(overreads) + (if Understand(old(line[..n])).NoArgument? then 1 else 0)
      ensures !Understand(old(line[..n])).Announced? ==> peers == old(peers)
      ensures Understand(old(line[..n])).Announced? ==>
                && |peers| == |old(peers)| + 1 && peers[..|old(peers)|] == old(peers)
                && var p := peers[|old(peers)|]; var e := p.endpoint;
                   && p.sslFlags == DTLS_DISABLE && !p.dtls
                   && fresh(e) && e.Valid() && e.addrlen == |sa| && Internet(e.addr[..]) && Internet(Padded(sa))
                   && View(e.addr[..]) == View(Padded(sa)).(port := Understand(old(line[..n])).port)
                   && var port := Understand(old(line[..n])).port as int;
                      e.addr[..] == sa[..2] + [port / 0x100, port % 0x100] + sa[4..] + seq(STORAGE - |sa|, _ => 0)
    {
      hide Fields, Leading, CStr, Atoi, Plain, View;
      PaddedInternet(sa);
      var splited := Split(line, n);
      var cmd := CStr(line[..], splited[0]);
      if IsCommand(cmd) {
        if |splited| < 2 {
          overreads := overreads + 1;
        } else {
          var port := Atoi(CStr(line[..], splited[1])) % 0x1_0000;
          RegisterAt(sa, port);
        }
      }
    }
  }
}
