/** Machine integers and their little-endian bytes. */
module ByteOrder {

  type byte = x: int | 0 <= x < 0x100
  type u16 = x: int | 0 <= x < 0x1_0000
  type u32 = x: int | 0 <= x < 0x1_0000_0000

  function PutU16(n: u16): (b: seq<byte>)
    ensures |b| == 2
  {
    [n % 0x100, n / 0x100]
  }

  function PutU32(n: u32): (b: seq<byte>)
    ensures |b| == 4
  {
    PutU16(n % 0x1_0000) + PutU16(n / 0x1_0000)
  }

  function GetU16(b: seq<byte>): u16
    requires |b| == 2
  {
    b[0] as int + 0x100 * b[1] as int
  }

  function GetU32(b: seq<byte>): u32
    requires |b| == 4
  {
    GetU16(b[..2]) as int + 0x1_0000 * GetU16(b[2..]) as int
  }

  /** Least significant byte first. */
  lemma U16Bytes(n: u16)
    ensures PutU16(n)[0] == n % 0x100 && PutU16(n)[1] == n / 0x100
  {
  }

  lemma U32Bytes(n: u32)
    ensures var b := PutU32(n);
            b[0] == n % 0x100 && b[1] == n / 0x100 % 0x100 && b[2] == n / 0x1_0000 % 0x100 && b[3] == n / 0x100_0000
  {
    U16Bytes(n % 0x1_0000);
    U16Bytes(n / 0x1_0000);
  }

  lemma U16RoundTrip(n: u16)
    ensures GetU16(PutU16(n)) == n
  {
  }

  lemma U32RoundTrip(n: u32)
    ensures GetU32(PutU32(n)) == n
  {
    hide GetU16, PutU16;
    var b := PutU32(n);
    assert b[..2] == PutU16(n % 0x1_0000) && b[2..] == PutU16(n / 0x1_0000);
    U16RoundTrip(n % 0x1_0000);
    U16RoundTrip(n / 0x1_0000);
  }
}
