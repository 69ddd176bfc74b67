/** Bytes and the big-endian numbers that packets are made of. */
module Bytes {

  type Byte = b: int | 0 <= b < 256

  const SHORT_VALUES := 0x1_0000
  const LONG_VALUES := 0x1_0000_0000

  // Two's complement reading of an unsigned value.
  function Signed(u: int, values: int): int { if u >= values / 2 then u - values else u }

  function GetShort(s: seq<Byte>): (r: int)
    requires |s| == 2
    ensures -0x8000 <= r < 0x8000
  {
    Signed(s[0] as int * 0x100 + s[1], SHORT_VALUES)
  }

  function GetUShort(s: seq<Byte>): (r: int)
    requires |s| == 2
    ensures 0 <= r < 0x1_0000
  {
    s[0] as int * 0x100 + s[1]
  }

  function GetULong(s: seq<Byte>): (r: int)
    requires |s| == 4
    ensures 0 <= r < LONG_VALUES
  {
    s[0] as int * 0x100_0000 + s[1] as int * 0x1_0000 + s[2] as int * 0x100 + s[3]
  }

  function GetLong(s: seq<Byte>): (r: int)
    requires |s| == 4
    ensures -0x8000_0000 <= r < 0x8000_0000
  {
    Signed(GetULong(s), LONG_VALUES)
  }

  function PutShort(v: int): (s: seq<Byte>)
    ensures |s| == 2
  {
    [(v / 0x100) % 0x100, v % 0x100]
  }

  // Only the low 32 bits of a number are sent.
  function PutLong(v: int): (s: seq<Byte>)
    ensures |s| == 4
  {
    [(v / 0x100_0000) % 0x100, (v / 0x1_0000) % 0x100, (v / 0x100) % 0x100, v % 0x100]
  }

  lemma ShortRoundTrip(v: int)
    ensures GetShort(PutShort(v)) == v <==> -0x8000 <= v < 0x8000
  {
  }

  // A number comes back unchanged exactly when it fits 32 bits with a sign.
  lemma LongRoundTrip(v: int)
    ensures GetULong(PutLong(v)) == v % LONG_VALUES
    ensures GetLong(PutLong(v)) == v <==> -0x8000_0000 <= v < 0x8000_0000
  {
    var a := v / 0x100;
    var b := a / 0x100;
    assert v / 0x1_0000 == b;
    assert v / 0x100_0000 == b / 0x100;
  }
}
