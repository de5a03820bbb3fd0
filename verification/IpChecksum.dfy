/** ipChecksum of the Go test client: the Internet checksum of RFC 1071. */
module IpChecksum {
  import opened Bits
  import opened Words

  const WRAP: nat := 0x1_0000_0000  // of the 32-bit sum

  /** The sum of the 16-bit words, an odd last byte being the high half of one. */
  function Sum(buf: seq<Byte>): nat {
    if |buf| == 0 then 0
    else if |buf| == 1 then 256 * buf[0]
    else 256 * buf[0] + buf[1] + Sum(buf[2..])
  }

  /** The one's-complement sum: zero only for zero, else from 1 to 65535. */
  function Fold(x: nat): (r: nat)
    ensures r <= 65535 && (r == 0 <==> x == 0)
  {
    if x == 0 then 0 else (x - 1) % 65535 + 1
  }

  /** Two sums that differ by a multiple of 65535. */
  lemma FoldSame(x: nat, k: nat)
    requires x > 0
    ensures Fold(x + 65535 * k) == Fold(x)
  {
    assert (x - 1 + 65535 * k) % 65535 == (x - 1) % 65535;
  }

  lemma Folded(x: nat, r: nat, k: nat)
    requires 1 <= r <= 65535 && x == r + 65535 * k
    ensures Fold(x) == r
  {
    FoldSame(r, k);
  }

  /** The complement, with all ones in place of zero. */
  function Complement(f: nat): nat
    requires f <= 65535
  {
    if f == 65535 then 65535 else 65535 - f
  }

  function Checksum(buf: seq<Byte>): nat {
    Complement(Fold(Sum(buf)))
  }

  lemma AddWrapped(x: nat, y: nat)
    ensures (x % WRAP + y) % WRAP == (x + y) % WRAP
  {
    var r := x % WRAP + y;
    DivModUnique(x + y, WRAP, x / WRAP + r / WRAP, r % WRAP);
  }

  /** ipChecksum: the checksum of the sum as its 32 bits keep it. */
  method IpChecksum(buf: seq<Byte>) returns (csum: nat)
    ensures csum == Complement(Fold(Sum(buf) % WRAP))
  {
    hide Fold;
    var sum: nat, rest := 0, buf;
    while |rest| >= 2
      invariant sum < WRAP && (sum + Sum(rest)) % WRAP == Sum(buf) % WRAP
      decreases |rest|
    {
      var word := 256 * rest[0] as int + rest[1];
      AddWrapped(sum + word, Sum(rest[2..]));
      sum := (sum + word) % WRAP;
      rest := rest[2..];
    }
    if |rest| > 0 {
      sum := (sum + 256 * rest[0] as int) % WRAP;
    }
    sum := FoldSum(sum);
    csum := 65535 - sum;
    if csum == 0 {
      csum := 65535;
    }
  }

  lemma ComplementIs(x: nat)
    ensures Complement(Fold(x)) == 65535 - x % 65535
  {
    if x > 0 {
      var q, r := (x - 1) / 65535, (x - 1) % 65535;
      if r == 65534 {
        DivModUnique(x, 65535, q + 1, 0);
      } else {
        DivModUnique(x, 65535, q, r + 1);
      }
    }
  }

  /** Every wrap of the sum loses one, so the result is the Internet checksum exactly
      when the number of wraps is a multiple of 65535; in particular without any. */
  lemma {:induction false} WrapExactly(buf: seq<Byte>)
    ensures Complement(Fold(Sum(buf) % WRAP)) == Checksum(buf) <==> (Sum(buf) / WRAP) % 65535 == 0
  {
    hide Sum, Fold, Complement;
    var s := Sum(buf);
    ComplementIs(s);
    ComplementIs(s % WRAP);
    LostByWrapping(s / WRAP, s % WRAP);
  }

  lemma LostByWrapping(wraps: nat, r: nat)
    ensures (wraps * WRAP + r) % 65535 == r % 65535 <==> wraps % 65535 == 0
  {
    var t, a := wraps % 65535, r % 65535;
    var k := 65537 * wraps + wraps / 65535 + r / 65535;
    assert wraps * WRAP + r == 65535 * k + (t + a);
    if t + a < 65535 {
      DivModUnique(wraps * WRAP + r, 65535, k, t + a);
    } else {
      DivModUnique(wraps * WRAP + r, 65535, k + 1, t + a - 65535);
    }
  }

  function Ones(n: nat): seq<Byte> {
    seq(2 * n, _ => 255)
  }

  lemma {:induction false} SumOnes(n: nat)
    ensures Sum(Ones(n)) == 65535 * n
  {
    if n > 0 {
      assert Ones(n)[2..] == Ones(n - 1);
      SumOnes(n - 1);
    }
  }

  /** 65538 words of all ones are too many. */
  lemma TooLong()
    ensures Complement(Fold(Sum(Ones(65538)) % WRAP)) != Checksum(Ones(65538))
  {
    hide Ones, Sum, Fold;
    SumOnes(65538);
    WrapExactly(Ones(65538));
    DivModUnique(65535 * 65538, WRAP, 1, 65535 * 65538 - WRAP);
  }

  /** Adding the high half to the low half until nothing is left of it. */
  method FoldSum(x: nat) returns (sum: nat)
    ensures sum == Fold(x)
  {
    sum := x;
    while sum > 65535
      invariant sum > 0 <==> x > 0
      invariant Fold(sum) == Fold(x)
    {
      var high, low := sum / 65536, sum % 65536;
      assert sum == high + low + 65535 * high;
      FoldSame(high + low, high);
      sum := high + low;
    }
    if sum > 0 {
      Folded(sum, sum, 0);
    }
  }

  //
  // What it is for
  //

  lemma {:induction false} SumConcat(a: seq<Byte>, b: seq<Byte>)
    requires |a| % 2 == 0
    ensures Sum(a + b) == Sum(a) + Sum(b)
  {
    if |a| == 0 {
      assert a + b == b;
    } else {
      assert (a + b)[2..] == a[2..] + b;
      SumConcat(a[2..], b);
    }
  }

  /** A 16-bit word stored in network byte order. */
  function Put16(buf: seq<Byte>, at: nat, x: nat): (r: seq<Byte>)
    requires at + 2 <= |buf| && x < 0x1_0000
    ensures |r| == |buf|
  {
    buf[at := x / 256][at + 1 := x % 256]
  }

  lemma {:induction false} SumPut(buf: seq<Byte>, at: nat, x: nat)
    requires at % 2 == 0 && at + 2 <= |buf| && x < 0x1_0000 && buf[at] == buf[at + 1] == 0
    ensures Sum(Put16(buf, at, x)) == Sum(buf) + x
  {
    hide Sum, Put16;
    var a, b := buf[..at], buf[at + 2..];
    SumWord(a, 0, b);
    SumWord(a, x, b);
    PutParts(buf, at, x);
    PutParts(buf, at, 0);
    PutZero(buf, at);
  }

  lemma PutParts(buf: seq<Byte>, at: nat, x: nat)
    requires at + 2 <= |buf| && x < 0x1_0000
    ensures Put16(buf, at, x) == buf[..at] + ([x / 256, x % 256] + buf[at + 2..])
  {
  }

  lemma PutZero(buf: seq<Byte>, at: nat)
    requires at + 2 <= |buf| && buf[at] == buf[at + 1] == 0
    ensures Put16(buf, at, 0) == buf
  {
  }

  lemma {:induction false} SumWord(a: seq<Byte>, x: nat, b: seq<Byte>)
    requires |a| % 2 == 0 && x < 0x1_0000
    ensures Sum(a + ([x / 256, x % 256] + b)) == Sum(a) + x + Sum(b)
  {
    var w := [x / 256, x % 256];
    SumConcat(a, w + b);
    assert (w + b)[2..] == b;
  }

  /** Storing the checksum in its zeroed field makes the one's-complement sum of the
      buffer all ones, which is how a receiver recognises an intact one. */
  lemma ChecksumChecks(buf: seq<Byte>, at: nat)
    requires at % 2 == 0 && at + 2 <= |buf| && buf[at] == buf[at + 1] == 0
    ensures Fold(Sum(Put16(buf, at, Checksum(buf)))) == 65535
  {
    var s, f := Sum(buf), Fold(Sum(buf));
    SumPut(buf, at, Checksum(buf));
    if s == 0 {
      Folded(65535, 65535, 0);
    } else if f == 65535 {
      FoldSame(s, 1);
    } else {
      var k := (s - 1) / 65535;
      assert s == 65535 * k + f;
      Folded(s + (65535 - f), 65535, k);
    }
  }

  /** A block whose words add up to a multiple of 65535, such as a message that
      holds its own checksum, may be summed with the header without any effect. */
  lemma {:induction false} NeutralBlock(header: seq<Byte>, block: seq<Byte>, k: nat)
    requires |header| % 2 == 0 && Sum(block) == 65535 * k
    ensures Checksum(header + block) == Checksum(header)
  {
    var s := Sum(header);
    SumConcat(header, block);
    if s > 0 {
      FoldSame(s, k);
    } else if k > 0 {
      Folded(65535 * k, 65535, k - 1);
    }
  }

  /** A message that holds its checksum is such a block, also with zeros behind it. */
  lemma {:induction false} MessageIsNeutral(message: seq<Byte>, zeros: seq<Byte>)
    requires Fold(Sum(message + zeros)) == 65535
    ensures exists k :: Sum(message + zeros) == 65535 * k
  {
    var s := Sum(message + zeros);
    assert s == 65535 * ((s - 1) / 65535 + 1);
  }

  /** Line 131: the checksum taken over header, message and padding is that of the
      header alone, and makes it check. */
  lemma {:induction false} PacketChecksum(header: seq<Byte>, block: seq<Byte>)
    requires |header| == 20 && header[10] == header[11] == 0 && Fold(Sum(block)) == 65535
    ensures Fold(Sum(Put16(header, 10, Checksum(header + block)))) == 65535
  {
    assert block + [] == block;
    MessageIsNeutral(block, []);
    var k :| Sum(block) == 65535 * k;
    NeutralBlock(header, block, k);
    ChecksumChecks(header, 10);
  }
}
