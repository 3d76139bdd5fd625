/** Bytes, machine widths and big-endian integers. */
module Bytes {
  const U16_MAX: nat := 0xFFFF
  const U32_MAX: nat := 0xFFFF_FFFF
  const U64_MAX: nat := 0xFFFF_FFFF_FFFF_FFFF

  type Byte = b: int | 0 <= b < 256
  type U16 = n: int | 0 <= n <= U16_MAX
  type U32 = n: int | 0 <= n <= U32_MAX
  type U64 = n: int | 0 <= n <= U64_MAX

  /** A 16-bit number in its two bytes, most significant first; likewise the wider ones. */
  function Two(n: U16): (r: seq<Byte>)
    ensures |r| == 2
  {
    [n / 256, n % 256]
  }

  function FromTwo(bytes: seq<Byte>): (r: U16)
    requires |bytes| == 2
  {
    bytes[0] as int * 256 + bytes[1] as int
  }

  function Four(n: U32): (r: seq<Byte>)
    ensures |r| == 4
  {
    [n / 256 / 256 / 256, n / 256 / 256 % 256, n / 256 % 256, n % 256]
  }

  function FromFour(bytes: seq<Byte>): (r: U32)
    requires |bytes| >= 4
  {
    ((bytes[0] as int * 256 + bytes[1] as int) * 256 + bytes[2] as int) * 256 + bytes[3] as int
  }

  function Eight(n: U64): (r: seq<Byte>)
    ensures |r| == 8
  {
    Four(n / 0x1_0000_0000) + Four(n % 0x1_0000_0000)
  }

  function FromEight(bytes: seq<Byte>): (r: U64)
    requires |bytes| == 8
  {
    FromFour(bytes[..4]) as int * 0x1_0000_0000 + FromFour(bytes[4..]) as int
  }

  lemma FourDecodes(n: U32)
    ensures FromFour(Four(n)) == n
  {
    var a, b := n / 256, n / 256 / 256;
    assert a == 256 * b + a % 256 && n == 256 * a + n % 256;
  }

  lemma FourEncodes(bytes: seq<Byte>)
    requires |bytes| == 4
    ensures Four(FromFour(bytes)) == bytes
  {
    var b: int := bytes[0] as int * 256 + bytes[1];
    var a: int := b * 256 + bytes[2];
    var n: int := a * 256 + bytes[3];
    assert n / 256 == a && n % 256 == bytes[3];
    assert a / 256 == b && a % 256 == bytes[2];
    assert b / 256 == bytes[0] && b % 256 == bytes[1];
  }

  lemma EightDecodes(n: U64)
    ensures FromEight(Eight(n)) == n
  {
    var high, low := n / 0x1_0000_0000, n % 0x1_0000_0000;
    assert Eight(n)[..4] == Four(high) && Eight(n)[4..] == Four(low);
    FourDecodes(high);
    FourDecodes(low);
  }

  lemma EightEncodes(bytes: seq<Byte>)
    requires |bytes| == 8
    ensures Eight(FromEight(bytes)) == bytes
  {
    FourEncodes(bytes[..4]);
    FourEncodes(bytes[4..]);
    assert bytes == bytes[..4] + bytes[4..];
    var high, low := FromFour(bytes[..4]), FromFour(bytes[4..]);
    assert FromEight(bytes) / 0x1_0000_0000 == high && FromEight(bytes) % 0x1_0000_0000 == low;
  }
}
