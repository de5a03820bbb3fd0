/** Bytes, and the little-endian fields of 16, 32 and 64 bits made of them. */
module Words {

  type Byte = x: int | 0 <= x < 256

  lemma Associate<T>(a: seq<T>, b: seq<T>, c: seq<T>)
    ensures a + b + c == a + (b + c)
  {
  }

  /** A uint16_t field, which keeps the low 16 bits. */
  function Le16(x: nat): (r: seq<Byte>)
    ensures |r| == 2
  {
    [x % 256, x / 256 % 256]
  }

  function GetLe16(d: seq<Byte>): (r: nat)
    requires |d| >= 2
    ensures r < 0x1_0000
  {
    d[0] + 256 * d[1] as int
  }

  /** A uint32_t field, which keeps the low 32 bits. */
  function Le32(x: nat): (r: seq<Byte>)
    ensures |r| == 4
  {
    [x % 256, x / 256 % 256, x / 0x1_0000 % 256, x / 0x100_0000 % 256]
  }

  function GetLe32(d: seq<Byte>): (r: nat)
    requires |d| >= 4
  {
    d[0] + 256 * d[1] as int + 0x1_0000 * d[2] as int + 0x100_0000 * d[3] as int
  }

  /** A uint64_t field, which keeps the low 64 bits. */
  function Le64(x: nat): (r: seq<Byte>)
    ensures |r| == 8
  {
    Le32(x % 0x1_0000_0000) + Le32(x / 0x1_0000_0000)
  }

  function GetLe64(d: seq<Byte>): (r: nat)
    requires |d| >= 8
  {
    GetLe32(d) + 0x1_0000_0000 * GetLe32(d[4..])
  }

  lemma Le16RoundTrip(x: nat)
    requires x < 0x1_0000
    ensures GetLe16(Le16(x)) == x
  {
  }

  lemma Le32RoundTrip(x: nat)
    requires x < 0x1_0000_0000
    ensures GetLe32(Le32(x)) == x
  {
    var q := x / 256;
    assert x / 0x1_0000 == q / 256 && x / 0x100_0000 == q / 256 / 256;
  }

  lemma Le64RoundTrip(x: nat)
    requires x < 0x1_0000_0000_0000_0000
    ensures GetLe64(Le64(x)) == x
  {
    var low, high := x % 0x1_0000_0000, x / 0x1_0000_0000;
    Le32RoundTrip(low);
    Le32RoundTrip(high);
    hide Le32;
    assert Le64(x)[4..] == Le32(high);
    assert GetLe32(Le64(x)) == GetLe32(Le32(low));
  }
}
