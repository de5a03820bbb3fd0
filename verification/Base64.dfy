/** The base64 codec for keys, in wireguard.c and in wireguard.js, against section
    4 of RFC 4648. */
module Base64 {
  import opened Words
  import opened Bits
  import opened ConfigText

  //
  // RFC 4648
  //

  function Alphabet(x: nat): (c: char)
    requires x < 64
    ensures Base64Char(c)
  {
    if x < 26 then (x + 65) as char
    else if x < 52 then (x + 71) as char
    else if x < 62 then (x - 4) as char
    else if x == 62 then '+'
    else '/'
  }

  function Index(c: char): (x: nat)
    requires Base64Char(c)
    ensures x < 64
  {
    if 'A' <= c <= 'Z' then c as nat - 65
    else if 'a' <= c <= 'z' then c as nat - 71
    else if '0' <= c <= '9' then c as nat + 4
    else if c == '+' then 62
    else 63
  }

  lemma AlphabetIndex(c: char)
    requires Base64Char(c)
    ensures Alphabet(Index(c)) == c
  {
  }

  lemma IndexAlphabet(x: nat)
    requires x < 64
    ensures Index(Alphabet(x)) == x
  {
  }

  /** Four characters for the 24 bits of a number. */
  function Quad(n: nat): (r: string)
    requires n < 0x100_0000
    ensures |r| == 4 && forall i :: 0 <= i < 4 ==> Base64Char(r[i])
  {
    [Alphabet(n / 262144), Alphabet(n / 4096 % 64), Alphabet(n / 64 % 64), Alphabet(n % 64)]
  }

  function Group3(b0: Byte, b1: Byte, b2: Byte): (n: nat)
    ensures n < 0x100_0000
  {
    b0 * 65536 + b1 * 256 + b2
  }

  /** Groups of three bytes, the last one padded. */
  function Encoded(bytes: seq<Byte>): string {
    if |bytes| == 0 then ""
    else if |bytes| == 1 then Quad(Group3(bytes[0], 0, 0))[..2] + "=="
    else if |bytes| == 2 then Quad(Group3(bytes[0], bytes[1], 0))[..3] + "="
    else Quad(Group3(bytes[0], bytes[1], bytes[2])) + Encoded(bytes[3..])
  }

  //
  // Encoding without branches
  //

  /** A test by the sign of a small difference. */
  lemma {:induction false} SignMask(d: int, m: int)
    requires -256 <= d < 256 && Fits(31, m)
    ensures Fits(31, Shr(d, 8)) && And(31, Shr(d, 8), m) == if d < 0 then m else 0
  {
    WordSizes();
    AndExtremes(31, m);
    assert Shr(d, 8) == if d < 0 then -1 else 0;
  }

  lemma FitsSmall(x: int)
    requires -0x8000_0000 <= x < 0x8000_0000
    ensures Fits(31, x)
  {
    WordSizes();
  }

  method EncodeChar(x: int) returns (c: char)
    requires 0 <= x < 64
    ensures c == Alphabet(x)
  {
    hide And, Shr, Fits;
    FitsSmall(6);
    FitsSmall(75);
    FitsSmall(15);
    FitsSmall(3);
    SignMask(25 - x, 6);
    SignMask(51 - x, 75);
    SignMask(61 - x, 15);
    SignMask(62 - x, 3);
    c := (x + 'A' as int
          + And(31, Shr(25 - x, 8), 6)
          - And(31, Shr(51 - x, 8), 75)
          - And(31, Shr(61 - x, 8), 15)
          + And(31, Shr(62 - x, 8), 3)) as char;
  }

  lemma {:induction false} OrDisjoint(n: nat, x: int, y: int, k: nat)
    requires k <= n && Fits(n, x) && x % Pow2(k) == 0 && 0 <= y < Pow2(k)
    ensures Fits(n, y) && Or(n, x, y) == x + y
  {
    Pow2Monotone(k, n);
    if k == 0 {
      OrZeroRight(n, x);
    } else {
      HalveMod(x, Pow2(k - 1));
      OrDisjoint(n - 1, x / 2, y / 2, k - 1);
    }
  }

  lemma {:induction false} OrZeroRight(n: nat, x: int)
    requires Fits(n, x)
    ensures Fits(n, 0) && Or(n, x, 0) == x
  {
    if n > 0 {
      OrZeroRight(n - 1, x / 2);
    }
  }

  /** The four six-bit values of three bytes. */
  lemma SixBits(b0: Byte, b1: Byte, b2: Byte)
    ensures var n := Group3(b0, b1, b2);
      n / 262144 == b0 / 4 && n / 4096 % 64 == b0 % 4 * 16 + b1 / 16
      && n / 64 % 64 == b1 % 16 * 4 + b2 / 64 && n % 64 == b2 % 64
  {
    var n := Group3(b0, b1, b2);
    var p0, q0, p1, q1, p2, q2 := b0 / 4, b0 % 4, b1 / 16, b1 % 16, b2 / 64, b2 % 64;
    var x1, x2 := q0 * 16 + p1, q1 * 4 + p2;
    DivModUnique(n, 64, p0 * 4096 + x1 * 64 + x2, q2);
    DivModUnique(n / 64, 64, p0 * 64 + x1, x2);
    DivModUnique(n, 4096, p0 * 64 + x1, x2 * 64 + q2);
    DivModUnique(n / 4096, 64, p0, x1);
    DivModUnique(n, 262144, p0, x1 * 4096 + x2 * 64 + q2);
  }

  lemma {:induction false} LowSix(x: int)
    requires 0 <= x < 0x1_0000
    ensures Fits(31, x) && Fits(31, 63) && And(31, x, 63) == x % 64
  {
    WordSizes();
    assert Pow2(6) == 64;
    AndLowMask(31, x, 6);
  }

  /** ((x << 4) | (y >> 4)) & 63 */
  lemma {:induction false} FourAndFour(x: Byte, y: Byte)
    ensures Fits(31, 63) && Fits(31, x * 16) && Fits(31, Shr(y, 4))
    ensures And(31, Or(31, x * 16, Shr(y, 4)), 63) == x % 4 * 16 + y / 16
  {
    hide And, Or;
    WordSizes();
    assert Pow2(4) == 16;
    DivModUnique(x * 16, 16, x, 0);
    OrDisjoint(31, x * 16, y / 16, 4);
    LowSix(x * 16 + y / 16);
    DivModUnique(x * 16 + y / 16, 64, x / 4, x % 4 * 16 + y / 16);
  }

  /** ((x << 2) | (y >> 6)) & 63 */
  lemma {:induction false} TwoAndSix(x: Byte, y: Byte)
    ensures Fits(31, 63) && Fits(31, x * 4) && Fits(31, Shr(y, 6))
    ensures And(31, Or(31, x * 4, Shr(y, 6)), 63) == x % 16 * 4 + y / 64
  {
    hide And, Or;
    WordSizes();
    assert Pow2(2) == 4 && Pow2(6) == 64;
    DivModUnique(x * 4, 4, x, 0);
    OrDisjoint(31, x * 4, y / 64, 2);
    LowSix(x * 4 + y / 64);
    DivModUnique(x * 4 + y / 64, 64, x / 16, x % 16 * 4 + y / 64);
  }

  lemma TopSix(x: Byte)
    ensures Fits(31, 63) && Fits(31, Shr(x, 2)) && And(31, Shr(x, 2), 63) == x / 4
  {
    hide And;
    assert Pow2(2) == 4;
    LowSix(x / 4);
    DivModUnique(x / 4, 64, 0, x / 4);
  }

  /** encode_base64, the same in both languages. */
  method EncodeQuad(b0: Byte, b1: Byte, b2: Byte) returns (q: string)
    ensures q == Quad(Group3(b0, b1, b2))
  {
    hide And, Or, Shr, Alphabet, Fits, Group3;
    TopSix(b0);
    FourAndFour(b0, b1);
    TwoAndSix(b1, b2);
    LowSix(b2);
    SixBits(b0, b1, b2);
    var input := [And(31, Shr(b0, 2), 63), And(31, Or(31, b0 * 16, Shr(b1, 4)), 63),
                  And(31, Or(31, b1 * 4, Shr(b2, 6)), 63), And(31, b2, 63)];
    q := "";
    ghost var n := Group3(b0, b1, b2);
    for i := 0 to 4
      invariant |q| == i && q == Quad(n)[..i]
    {
      var c := EncodeChar(input[i]);
      assert Quad(n)[..i + 1] == Quad(n)[..i] + [Quad(n)[i]];
      q := q + [c];
    }
  }

  /** Writing text into an array; what would lie behind its end is dropped. */
  method Write(dest: array<char>, at: nat, t: string)
    modifies dest
    ensures forall k :: 0 <= k < dest.Length && !(at <= k < at + |t|) ==> dest[k] == old(dest[k])
    ensures forall k :: 0 <= k < |t| && at + k < dest.Length ==> dest[at + k] == t[k]
  {
    forall k | at <= k < at + |t| && k < dest.Length {
      dest[k] := t[k - at];
    }
  }

  lemma {:induction false} EncodedStep(key: seq<Byte>, i: nat, done: string, q: string)
    requires 3 * i + 3 <= |key| && done + Encoded(key[3 * i..]) == Encoded(key)
    requires q == Quad(Group3(key[3 * i], key[3 * i + 1], key[3 * i + 2]))
    ensures done + q + Encoded(key[3 * (i + 1)..]) == Encoded(key)
  {
    hide Quad, Group3, Encoded;
    var rest := key[3 * i..];
    assert rest[3..] == key[3 * (i + 1)..];
    assert rest[0] == key[3 * i] && rest[1] == key[3 * i + 1] && rest[2] == key[3 * i + 2];
    EncodedCons(rest);
    Associate(done, q, Encoded(rest[3..]));
  }

  lemma {:induction false} EncodedCons(bytes: seq<Byte>)
    requires |bytes| >= 3
    ensures Encoded(bytes) == Quad(Group3(bytes[0], bytes[1], bytes[2])) + Encoded(bytes[3..])
  {
    hide Quad, Group3;
  }

  lemma {:induction false} EncodedEnd(key: seq<Byte>, done: string)
    requires |key| == 32 && done + Encoded(key[30..]) == Encoded(key)
    ensures Encoded(key) == done + Quad(Group3(key[30], key[31], 0))[..3] + "="
  {
    var rest := key[30..];
    assert rest[0] == key[30] && rest[1] == key[31];
    assert done + (Quad(Group3(rest[0], rest[1], 0))[..3] + "=") == done + Quad(Group3(rest[0], rest[1], 0))[..3] + "=";
  }

  /** wg_key_to_base64 */
  method KeyToBase64(dest: array<char>, key: seq<Byte>)
    requires dest.Length == 45 && |key| == 32
    modifies dest
    ensures dest[..] == Encoded(key) + "\0"
  {
    hide Encoded, Quad;
    var i := 0;
    assert key[0..] == key;
    while i < 32 / 3
      invariant 0 <= i <= 10 && dest[..4 * i] + Encoded(key[3 * i..]) == Encoded(key)
    {
      var q := EncodeQuad(key[i * 3], key[i * 3 + 1], key[i * 3 + 2]);
      ghost var done := dest[..4 * i];
      EncodedStep(key, i, done, q);
      Write(dest, i * 4, q);
      assert dest[..4 * (i + 1)] == done + q;
      i := i + 1;
    }
    var q := EncodeQuad(key[i * 3], key[i * 3 + 1], 0);
    ghost var done := dest[..40];
    EncodedEnd(key, done);
    Write(dest, i * 4, q);
    dest[43], dest[44] := '=', '\0';
    assert dest[..] == done + q[..3] + "=" + "\0";
  }

  /** A byte of a typed array; where there is none, bit operations see zero. */
  function ByteAt(src: seq<Byte>, i: nat): Byte {
    if i < |src| then src[i] else 0
  }

  /** The part of a typed array from a position on, empty behind its end. */
  function Subarray(src: seq<Byte>, from: nat): seq<Byte> {
    if from <= |src| then src[from..] else []
  }

  /** keyToBase64 of wireguard.js: its loop bound is not whole, so that it makes one
      turn more than the C loop, and the call behind it writes outside the array. */
  method KeyToBase64Js(key: seq<Byte>) returns (base64: string)
    requires |key| == 32
    ensures base64 == Encoded(key)
  {
    hide Encoded, Quad, Group3;
    var dest := new char[44](_ => '\0');
    var i := 0;
    assert key[0..] == key;
    ghost var last := Quad(Group3(key[30], key[31], 0));
    while (i as real) < 32.0 / 3.0
      invariant 0 <= i <= 11
      invariant i <= 10 ==> dest[..4 * i] + Encoded(key[3 * i..]) == Encoded(key)
      invariant i == 11 ==> Encoded(key) == dest[..40] + last[..3] + "=" && dest[40..43] == last[..3]
      decreases 11 - i
    {
      var src := Subarray(key, i * 3);
      var q := EncodeQuad(ByteAt(src, 0), ByteAt(src, 1), ByteAt(src, 2));
      ghost var done := dest[..4 * i];
      Write(dest, i * 4, q);
      assert dest[..4 * (i + 1)] == done + q;
      if i < 10 {
        EncodedStep(key, i, done, q);
      } else {
        EncodedEnd(key, done);
        assert dest[..40] == done && dest[40..43] == q[..3];
      }
      i := i + 1;
    }
    var q := EncodeQuad(ByteAt(key, i * 3), ByteAt(key, i * 3 + 1), 0);
    Write(dest, i * 4, q);
    dest[43] := '=';
    base64 := dest[..];
    assert base64 == dest[..40] + dest[40..43] + "=";
  }

  //
  // Decoding without branches
  //

  /** The lowest bit and the rest. */
  lemma AndParts(n: nat, x: int, y: int) returns (bit: int)
    requires n > 0 && Fits(n, x) && Fits(n, y)
    ensures Fits(n - 1, x / 2) && Fits(n - 1, y / 2)
    ensures 0 <= bit <= 1 && And(n, x, y) == bit + 2 * And(n - 1, x / 2, y / 2)
  {
    bit := (x % 2) * (y % 2);
  }

  lemma {:induction false} AndSign(n: nat, x: int, y: int)
    requires Fits(n, x) && Fits(n, y)
    ensures And(n, x, y) < 0 <==> x < 0 && y < 0
  {
    if n > 0 {
      hide And;
      var bit := AndParts(n, x, y);
      AndSign(n - 1, x / 2, y / 2);
    }
  }

  lemma {:induction false} AndSmall(n: nat, x: int, y: int, k: nat)
    requires k <= n && Fits(k, x) && Fits(k, y)
    ensures Fits(n, x) && Fits(n, y) && Fits(k, And(n, x, y))
  {
    Pow2Monotone(k, n);
    if k == 0 {
      AndExtremes(n, y);
    } else {
      hide And;
      var bit := AndParts(n, x, y);
      AndSmall(n - 1, x / 2, y / 2, k - 1);
    }
  }

  lemma {:induction false} OrSign(n: nat, x: int, y: int)
    requires Fits(n, x) && Fits(n, y)
    ensures Or(n, x, y) < 0 <==> x < 0 || y < 0
  {
    if n > 0 {
      OrSign(n - 1, x / 2, y / 2);
    }
  }

  lemma {:induction false} OrSmall(n: nat, x: int, y: int, k: nat)
    requires k <= n && 0 <= x < Pow2(k) && 0 <= y < Pow2(k)
    ensures Fits(n, x) && Fits(n, y) && 0 <= Or(n, x, y) < Pow2(k) && (Or(n, x, y) == 0 <==> x == 0 && y == 0)
  {
    Pow2Monotone(k, n);
    if k == 0 {
      OrZeros(n);
    } else {
      OrSmall(n - 1, x / 2, y / 2, k - 1);
    }
  }

  /** A signed char. */
  function Signed(c: char): (r: int)
    requires c as int < 256
    ensures -128 <= r < 128
  {
    if c as int < 128 then c as int else c as int - 256
  }

  /** (((lo - 1) - c) & (c - (hi + 1))) >> 8: all ones if lo <= c <= hi, else zero. */
  function Between(c: int, lo: int, hi: int): int
    requires -128 <= c < 128 && 0 <= lo <= hi < 128
  {
    FitsSmall(lo - 1 - c);
    FitsSmall(c - (hi + 1));
    Shr(And(31, lo - 1 - c, c - (hi + 1)), 8)
  }

  lemma BetweenIs(c: int, lo: int, hi: int)
    requires -128 <= c < 128 && 0 < lo <= hi < 128
    ensures Between(c, lo, hi) == if lo <= c <= hi then -1 else 0
  {
    hide And, Fits;
    var x, y := lo - 1 - c, c - (hi + 1);
    FitsSmall(x);
    FitsSmall(y);
    assert Fits(8, x) && Fits(8, y) by {
      FitsEight(x);
      FitsEight(y);
    }
    AndSmall(31, x, y, 8);
    AndSign(31, x, y);
    FitsIs(And(31, x, y));
    WordSizes();
  }

  lemma FitsEight(x: int)
    requires -256 <= x < 256
    ensures Fits(8, x)
  {
    WordSizes();
  }

  lemma FitsIs(x: int)
    requires Fits(8, x)
    ensures -256 <= x < 256
  {
    WordSizes();
  }

  /** The value of one character, -1 for none. */
  function Term(c: int): (r: int)
    requires -128 <= c < 128
  {
    FitsSmall(c - 64); FitsSmall(c - 70); FitsSmall(c + 5); FitsSmall(63); FitsSmall(64);
    BetweenIs(c, 65, 90); BetweenIs(c, 97, 122); BetweenIs(c, 48, 57); BetweenIs(c, 43, 43); BetweenIs(c, 47, 47);
    FitsSmall(0); FitsSmall(-1);
    -1
    + And(31, Between(c, 65, 90), c - 64)
    + And(31, Between(c, 97, 122), c - 70)
    + And(31, Between(c, 48, 57), c + 5)
    + And(31, Between(c, 43, 43), 63)
    + And(31, Between(c, 47, 47), 64)
  }

  lemma TermIs(ch: char)
    requires ch as int < 256
    ensures Term(Signed(ch)) == if Base64Char(ch) then Index(ch) else -1
  {
    hide And, Fits, Between;
    var c := Signed(ch);
    BetweenIs(c, 65, 90);
    BetweenIs(c, 97, 122);
    BetweenIs(c, 48, 57);
    BetweenIs(c, 43, 43);
    BetweenIs(c, 47, 47);
    FitsSmall(c - 64);
    FitsSmall(c - 70);
    FitsSmall(c + 5);
    FitsSmall(63);
    FitsSmall(64);
    AndExtremes(31, c - 64);
    AndExtremes(31, c - 70);
    AndExtremes(31, c + 5);
    AndExtremes(31, 63);
    AndExtremes(31, 64);
  }

  predicate AllBytes(t: string) {
    forall i :: 0 <= i < |t| ==> t[i] as int < 256
  }

  predicate AllBase64(t: string) {
    forall i :: 0 <= i < |t| ==> Base64Char(t[i])
  }

  /** The number that characters stand for in base 64. */
  function Number64(t: string): nat
    requires AllBase64(t)
  {
    if t == "" then 0 else 64 * Number64(t[..|t| - 1]) + Index(t[|t| - 1])
  }

  /** Places left behind the first i of four characters. */
  function Place(i: nat): nat
    requires i <= 4
  {
    if i == 0 then 16777216 else if i == 1 then 262144 else if i == 2 then 4096 else if i == 3 then 64 else 1
  }

  lemma PlaceShift(i: nat)
    requires i < 4
    ensures Place(i) == Pow2(24 - 6 * i) && Place(i + 1) == Pow2(18 - 6 * i) && Place(i) == 64 * Place(i + 1)
  {
    assert Pow2(6) == 64 && Pow2(0) == 1;
    WordSizes();
    Pow2Add(6, 6);
    Pow2Add(6, 12);
    Pow2Add(8, 16);
  }

  /** One more character. */
  lemma OrTerm(val: int, t: string, i: nat, x: int)
    requires i < 4 && |t| == 4 && AllBytes(t) && Fits(31, val) && x == Term(Signed(t[i]))
    requires val < 0 <==> !AllBase64(t[..i])
    requires val >= 0 ==> val == Number64(t[..i]) * Place(i)
    ensures Fits(31, x * Place(i + 1))
    ensures var r := Or(31, val, x * Place(i + 1));
      (r < 0 <==> !AllBase64(t[..i + 1])) && (r >= 0 ==> r == Number64(t[..i + 1]) * Place(i + 1))
  {
    hide Or, Term, Fits;
    TermIs(t[i]);
    var p := Place(i + 1);
    assert -262144 <= x * p < 16777216;
    FitsSmall(x * p);
    OrSign(31, val, x * p);
    assert t[..i + 1] == t[..i] + [t[i]] && t[..i + 1][..i] == t[..i];
    assert AllBase64(t[..i + 1]) <==> AllBase64(t[..i]) && Base64Char(t[i]);
    if AllBase64(t[..i + 1]) {
      OrPlace(val, Number64(t[..i]), i, x);
    }
  }

  lemma OrPlace(val: int, m: nat, i: nat, x: nat)
    requires i < 4 && x < 64 && Fits(31, val) && val == m * Place(i)
    ensures Fits(31, x * Place(i + 1)) && Or(31, val, x * Place(i + 1)) == (64 * m + x) * Place(i + 1)
  {
    hide Or, Fits;
    var p := Place(i + 1);
    PlaceShift(i);
    DivModUnique(val, Place(i), m, 0);
    OrDisjoint(31, val, x * p, 24 - 6 * i);
    assert m * (64 * p) + x * p == (64 * m + x) * p;
  }

  /** decode_base64 */
  method DecodeQuad(t: string) returns (val: int)
    requires |t| == 4 && AllBytes(t)
    ensures Fits(31, val) && (val >= 0 <==> AllBase64(t)) && (val >= 0 ==> val == Number64(t))
  {
    hide Or, Term, Fits, Number64, AllBase64;
    FitsSmall(0);
    NoChars(t);
    val := 0;
    for i := 0 to 4
      invariant Fits(31, val) && (val < 0 <==> !AllBase64(t[..i]))
      invariant val >= 0 ==> val == Number64(t[..i]) * Place(i)
    {
      var x := Term(Signed(t[i]));
      OrTerm(val, t, i, x);
      val := Or(31, val, x * Place(i + 1));
    }
    assert t[..4] == t;
  }

  lemma NoChars(t: string)
    ensures AllBase64(t[..0]) && Number64(t[..0]) == 0
  {
  }

  /** The bytes of a number of 24 bits give its four characters back. */
  lemma {:induction false} QuadBack(t: string, b0: Byte, b1: Byte, b2: Byte)
    requires |t| == 4 && AllBase64(t) && Number64(t) == Group3(b0, b1, b2)
    ensures Quad(Group3(b0, b1, b2)) == t
  {
    hide Alphabet, Index, Group3;
    var x0, x1, x2, x3 := Index(t[0]), Index(t[1]), Index(t[2]), Index(t[3]);
    var n := Group3(b0, b1, b2);
    FourChars(t);
    DivModUnique(n, 64, x0 * 4096 + x1 * 64 + x2, x3);
    DivModUnique(n / 64, 64, x0 * 64 + x1, x2);
    DivModUnique(n, 4096, x0 * 64 + x1, x2 * 64 + x3);
    DivModUnique(n / 4096, 64, x0, x1);
    DivModUnique(n, 262144, x0, x1 * 4096 + x2 * 64 + x3);
    AlphabetIndex(t[0]);
    AlphabetIndex(t[1]);
    AlphabetIndex(t[2]);
    AlphabetIndex(t[3]);
  }

  lemma {:induction false} FourChars(t: string)
    requires |t| == 4 && AllBase64(t)
    ensures Number64(t) == Index(t[0]) * 262144 + Index(t[1]) * 4096 + Index(t[2]) * 64 + Index(t[3]) < 0x100_0000
  {
    hide Index;
    var a, b, c := t[..3], t[..2], t[..1];
    assert a[..2] == b && b[..1] == c && c[..0] == "";
    assert Number64(c) == Index(t[0]);
    assert Number64(b) == 64 * Number64(c) + Index(t[1]);
    assert Number64(a) == 64 * Number64(b) + Index(t[2]);
  }

  /** The last group has only four bits in its third character. */
  lemma LastBits(c: char)
    requires Base64Char(c)
    ensures Index(c) % 4 == 0 <==> c in "AEIMQUYcgkosw480"
  {
  }

  lemma {:induction false} EncodedSnoc(a: seq<Byte>, b: seq<Byte>)
    requires |a| % 3 == 0
    ensures Encoded(a + b) == Encoded(a) + Encoded(b)
  {
    hide Quad, Group3;
    if |a| == 0 {
      assert a + b == b && Encoded(a) + Encoded(b) == Encoded(b);
    } else {
      assert |a| >= 3;
      EncodedSnoc(a[3..], b);
      assert (a + b)[3..] == a[3..] + b;
    }
  }

  /** Three bytes of a number, as shifts and masks cut them out. */
  lemma {:induction false} CutBytes(n: int)
    requires Fits(31, n)
    ensures Fits(31, 0xff) && And(31, n, 0xff) == n % 256
    ensures Fits(31, Shr(n, 16)) && And(31, Shr(n, 16), 0xff) == n / 65536 % 256
    ensures Fits(31, Shr(n, 8)) && And(31, Shr(n, 8), 0xff) == n / 256 % 256
    ensures 0 <= n < 0x100_0000 ==> Group3(n / 65536 % 256, n / 256 % 256, n % 256) == n
  {
    hide And;
    WordSizes();
    MaskByte(31, n);
    ShiftDivides(n);
    assert Fits(31, n / 65536) && Fits(31, n / 256);
    MaskByte(31, n / 65536);
    MaskByte(31, n / 256);
    if 0 <= n < 0x100_0000 {
      var q := n / 256;
      DivModUnique(n, 65536, q / 256, q % 256 * 256 + n % 256);
      DivModUnique(q / 256, 256, 0, q / 256);
    }
  }

  const EINVAL: int := 22

  /** The flag is zero or positive, and turned into an error code without a branch. */
  lemma ErrorCode(ret: int)
    requires 0 <= ret < 256
    ensures Fits(31, EINVAL) && Fits(31, Not(Shr(ret - 1, 8)))
    ensures And(31, EINVAL, Not(Shr(ret - 1, 8))) == if ret == 0 then 0 else EINVAL
  {
    hide And, Fits;
    FitsSmall(EINVAL);
    assert Shr(ret - 1, 8) == if ret == 0 then -1 else 0 by {
      WordSizes();
    }
    FitsSmall(0);
    FitsSmall(-1);
    AndZeroRight(31, EINVAL);
    AndAllOnes(31, EINVAL);
  }

  lemma {:induction false} AndAllOnes(n: nat, x: int)
    requires Fits(n, x)
    ensures Fits(n, -1) && And(n, x, -1) == x
  {
    if n > 0 {
      AndAllOnes(n - 1, x / 2);
    }
  }

  /** The sign bit of a value added to the flag. */
  lemma {:induction false} Flagged(ret: int, bit: int)
    requires 0 <= ret < 256 && 0 <= bit < 256
    ensures Fits(31, ret) && Fits(31, bit) && 0 <= Or(31, ret, bit) < 256
    ensures Or(31, ret, bit) == 0 <==> ret == 0 && bit == 0
  {
    hide Or;
    WordSizes();
    OrSmall(31, ret, bit, 8);
  }

  /** Four more characters decoded. */
  lemma {:induction false} GroupStep(key: seq<Byte>, i: nat, base64: string, t: string, b0: Byte, b1: Byte, b2: Byte)
    requires 4 * i + 4 <= |base64| && t == base64[4 * i..4 * i + 4] && |key| == 3 * i
    requires AllBase64(base64[..4 * i]) ==> Encoded(key) == base64[..4 * i]
    requires AllBase64(t) ==> Number64(t) == Group3(b0, b1, b2)
    ensures AllBase64(base64[..4 * i + 4]) <==> AllBase64(base64[..4 * i]) && AllBase64(t)
    ensures AllBase64(base64[..4 * i + 4]) ==> Encoded(key + [b0, b1, b2]) == base64[..4 * i + 4]
  {
    hide Encoded, Quad, Group3, Number64;
    assert base64[..4 * i + 4] == base64[..4 * i] + t;
    AllBase64Concat(base64[..4 * i], t);
    if AllBase64(base64[..4 * i + 4]) {
      QuadBack(t, b0, b1, b2);
      DivModUnique(|key|, 3, i, 0);
      EncodedSnoc(key, [b0, b1, b2]);
      EncodedThree(b0, b1, b2);
    }
  }

  lemma AllBase64Concat(a: string, b: string)
    ensures AllBase64(a + b) <==> AllBase64(a) && AllBase64(b)
  {
    assert forall i :: 0 <= i < |a| ==> (a + b)[i] == a[i];
    assert forall i :: 0 <= i < |b| ==> (a + b)[|a| + i] == b[i];
  }

  lemma EncodedThree(b0: Byte, b1: Byte, b2: Byte)
    ensures Encoded([b0, b1, b2]) == Quad(Group3(b0, b1, b2))
  {
    hide Quad, Group3;
    assert [b0, b1, b2][3..] == [];
  }

  /** The last three characters and the padding. */
  lemma {:induction false} LastGroup(key: seq<Byte>, base64: string, b0: Byte, b1: Byte, val: int)
    requires |base64| == 44 && base64[43] == '=' && |key| == 30
    requires AllBase64(base64[..40]) ==> Encoded(key) == base64[..40]
    requires var t := base64[40..43] + "A"; AllBase64(t) ==> val == Number64(t)
    requires 0 <= val < 0x100_0000 ==> b0 == val / 65536 % 256 && b1 == val / 256 % 256
    ensures var t := base64[40..43] + "A";
      Key(base64) <==> AllBase64(base64[..40]) && AllBase64(t) && val % 256 == 0
    ensures Key(base64) ==> Encoded(key + [b0, b1]) == base64
  {
    hide Encoded, Quad, Group3, Number64, Index;
    var t := base64[40..43] + "A";
    KeyParts(base64);
    if AllBase64(base64[..40]) && AllBase64(t) {
      FourChars(t);
      assert Index('A') == 0 by {
        IndexOfA();
      }
      LowByte(Index(t[0]), Index(t[1]), Index(t[2]));
      LastBits(t[2]);
      if val % 256 == 0 {
        CutBytesOnly(val);
        QuadBack(t, b0, b1, 0);
        EncodedSnoc(key, [b0, b1]);
        EncodedTwo(b0, b1);
        assert base64 == base64[..40] + (t[..3] + "=");
      }
    }
  }

  lemma IndexOfA()
    ensures Index('A') == 0
  {
  }

  lemma LowByte(x0: nat, x1: nat, x2: nat)
    ensures (x0 * 262144 + x1 * 4096 + x2 * 64) % 256 == 0 <==> x2 % 4 == 0
  {
    var r, q := x2 % 4, x2 / 4;
    DivModUnique(x0 * 262144 + x1 * 4096 + x2 * 64, 256, x0 * 1024 + x1 * 16 + q, r * 64);
  }

  lemma CutBytesOnly(n: int)
    requires 0 <= n < 0x100_0000 && n % 256 == 0
    ensures Group3(n / 65536 % 256, n / 256 % 256, 0) == n
  {
    var q := n / 256;
    DivModUnique(n, 65536, q / 256, q % 256 * 256);
    DivModUnique(q / 256, 256, 0, q / 256);
  }

  lemma EncodedTwo(b0: Byte, b1: Byte)
    ensures Encoded([b0, b1]) == Quad(Group3(b0, b1, 0))[..3] + "="
  {
    hide Quad, Group3;
  }

  lemma KeyParts(t: string)
    requires |t| == 44 && t[43] == '='
    ensures var u := t[40..43] + "A";
      Key(t) <==> AllBase64(t[..40]) && AllBase64(u) && u[2] in "AEIMQUYcgkosw480"
  {
    var a, u := t[..40], t[40..43] + "A";
    assert forall i :: 0 <= i < 40 ==> a[i] == t[i];
    assert u[0] == t[40] && u[1] == t[41] && u[2] == t[42] && u[3] == 'A';
    assert u[2] in "AEIMQUYcgkosw480" ==> Base64Char(u[2]);
  }

  /** Three bytes, and whether the characters were bad. */
  method DecodeGroup(t: string) returns (bit: int, b0: Byte, b1: Byte, b2: Byte)
    requires |t| == 4 && AllBytes(t)
    ensures bit == if AllBase64(t) then 0 else 1
    ensures AllBase64(t) ==> Number64(t) == Group3(b0, b1, b2)
  {
    hide AllBase64, Number64, Fits, Or, And, Shr, Group3;
    var val := DecodeQuad(t);
    CutBytes(val);
    if val >= 0 {
      FourChars(t);
    }
    bit := if val < 0 then 1 else 0;
    b0, b1, b2 := And(31, Shr(val, 16), 0xff), And(31, Shr(val, 8), 0xff), And(31, val, 0xff);
  }

  /** Two bytes, and whether the characters were bad or bits were left over. */
  method DecodeLast(t: string) returns (bit: int, b0: Byte, b1: Byte, ghost val: int)
    requires |t| == 4 && AllBytes(t)
    ensures 0 <= bit < 256 && (bit == 0 <==> AllBase64(t) && val % 256 == 0)
    ensures AllBase64(t) ==> val == Number64(t)
    ensures 0 <= val < 0x100_0000 ==> b0 == val / 65536 % 256 && b1 == val / 256 % 256
  {
    hide AllBase64, Number64, Fits, Or, And, Shr, Group3;
    var v := DecodeQuad(t);
    val := v;
    CutBytes(v);
    var sign := if v < 0 then 1 else 0;
    Flagged(sign, And(31, v, 0xff));
    bit := Or(31, sign, And(31, v, 0xff));
    b0, b1 := And(31, Shr(v, 16), 0xff), And(31, Shr(v, 8), 0xff);
  }

  /** wg_key_from_base64 succeeds exactly on the canonical texts, which are those
      that is_valid_key accepts, and then gives the key they stand for. */
  method KeyFromBase64(key: array<Byte>, base64: string) returns (err: int)
    requires key.Length == 32 && AllBytes(base64)
    modifies key
    ensures err == (if Key(base64) then 0 else -EINVAL)
    ensures err == 0 ==> Encoded(key[..]) == base64
    ensures |base64| != 44 ==> key[..] == old(key[..])
  {
    hide Encoded, AllBase64, Number64, Fits, Or, And, Shr, Group3, Key;
    if |base64| != 44 || base64[43] != '=' {
      NotKey(base64);
      return -EINVAL;
    }
    var ret := 0;
    NoKey(base64);
    var i := 0;
    while i < 32 / 3
      invariant 0 <= i <= 10 && 0 <= ret < 256 && (ret == 0 <==> AllBase64(base64[..4 * i]))
      invariant AllBase64(base64[..4 * i]) ==> Encoded(key[..3 * i]) == base64[..4 * i]
    {
      var bit, b0, b1, b2 := DecodeGroup(base64[i * 4..i * 4 + 4]);
      Flagged(ret, bit);
      ret := Or(31, ret, bit);
      ghost var done := key[..3 * i];
      GroupStep(done, i, base64, base64[i * 4..i * 4 + 4], b0, b1, b2);
      key[i * 3], key[i * 3 + 1], key[i * 3 + 2] := b0, b1, b2;
      assert key[..3 * (i + 1)] == done + [b0, b1, b2];
      i := i + 1;
    }
    ghost var done := key[..30];
    var bit, b0, b1, val := DecodeLast(base64[i * 4..i * 4 + 3] + "A");
    Flagged(ret, bit);
    ret := Or(31, ret, bit);
    LastGroup(done, base64, b0, b1, val);
    key[i * 3], key[i * 3 + 1] := b0, b1;
    assert key[..] == done + [b0, b1];
    ErrorCode(ret);
    err := -And(31, EINVAL, Not(Shr(ret - 1, 8)));
  }

  lemma NotKey(t: string)
    requires |t| != 44 || t[43] != '='
    ensures !Key(t)
  {
  }

  lemma NoKey(base64: string)
    ensures AllBase64(base64[..0]) && Encoded([]) == base64[..0]
  {
  }

  //
  // The codec as a whole
  //

  /** What is encoded is canonical. */
  lemma {:induction false} EncodedIsKey(key: seq<Byte>)
    requires |key| == 32
    ensures Key(Encoded(key))
  {
    hide Encoded, Quad, Group3, Index, Alphabet;
    var a, b0, b1 := key[..30], key[30], key[31];
    assert key == a + [b0, b1];
    EncodedSnoc(a, [b0, b1]);
    EncodedTwo(b0, b1);
    EncodedBody(a);
    var t, q := Encoded(key), Quad(Group3(b0, b1, 0));
    assert t == Encoded(a) + q[..3] + "=";
    assert t[..40] == Encoded(a) && t[40..43] == q[..3];
    KeyParts(t);
    assert AllBase64(q[..3] + "A");
    LastQuad(b0, b1);
  }

  lemma LastQuad(b0: Byte, b1: Byte)
    ensures Quad(Group3(b0, b1, 0))[2] in "AEIMQUYcgkosw480"
  {
    hide Index, Alphabet;
    var x := b1 % 16 * 4;
    SixBits(b0, b1, 0);
    IndexAlphabet(x);
    DivModUnique(x, 4, b1 % 16, 0);
    LastBits(Alphabet(x));
  }

  lemma {:induction false} EncodedBody(a: seq<Byte>)
    requires |a| % 3 == 0
    ensures 3 * |Encoded(a)| == 4 * |a| && AllBase64(Encoded(a))
  {
    hide Quad, Group3;
    if |a| > 0 {
      assert |a| >= 3;
      EncodedBody(a[3..]);
      AllBase64Concat(Quad(Group3(a[0], a[1], a[2])), Encoded(a[3..]));
    }
  }

  lemma {:induction false} EncodedInjective(a: seq<Byte>, b: seq<Byte>)
    requires |a| == |b| && |a| % 3 == 2 && Encoded(a) == Encoded(b)
    ensures a == b
  {
    hide Quad, Group3;
    if |a| == 2 {
      var p, q := Quad(Group3(a[0], a[1], 0)), Quad(Group3(b[0], b[1], 0));
      assert Encoded(a)[..3] == p[..3] && Encoded(b)[..3] == q[..3];
      assert p[0] == p[..3][0] && p[1] == p[..3][1] && p[2] == p[..3][2];
      assert q[0] == q[..3][0] && q[1] == q[..3][1] && q[2] == q[..3][2];
      QuadEnds(a[0], a[1], b[0], b[1]);
      QuadInjective(Group3(a[0], a[1], 0), Group3(b[0], b[1], 0));
      GroupInjective(a[0], a[1], 0, b[0], b[1], 0);
    } else {
      var p, q := Quad(Group3(a[0], a[1], a[2])), Quad(Group3(b[0], b[1], b[2]));
      assert Encoded(a)[..4] == p && Encoded(b)[..4] == q;
      assert Encoded(a)[4..] == Encoded(a[3..]) && Encoded(b)[4..] == Encoded(b[3..]);
      QuadInjective(Group3(a[0], a[1], a[2]), Group3(b[0], b[1], b[2]));
      GroupInjective(a[0], a[1], a[2], b[0], b[1], b[2]);
      EncodedInjective(a[3..], b[3..]);
      assert a == [a[0], a[1], a[2]] + a[3..] && b == [b[0], b[1], b[2]] + b[3..];
    }
  }

  lemma QuadEnds(a0: Byte, a1: Byte, b0: Byte, b1: Byte)
    ensures Quad(Group3(a0, a1, 0))[3] == Quad(Group3(b0, b1, 0))[3]
  {
    hide Alphabet;
    SixBits(a0, a1, 0);
    SixBits(b0, b1, 0);
  }

  lemma QuadInjective(m: nat, n: nat)
    requires m < 0x100_0000 && n < 0x100_0000 && forall i :: 0 <= i < 4 ==> Quad(m)[i] == Quad(n)[i]
    ensures m == n
  {
    hide Alphabet, Index;
    assert Quad(m)[0] == Quad(n)[0] && Quad(m)[1] == Quad(n)[1] && Quad(m)[2] == Quad(n)[2] && Quad(m)[3] == Quad(n)[3];
    IndexAlphabet(m / 262144);
    IndexAlphabet(n / 262144);
    IndexAlphabet(m / 4096 % 64);
    IndexAlphabet(n / 4096 % 64);
    IndexAlphabet(m / 64 % 64);
    IndexAlphabet(n / 64 % 64);
    IndexAlphabet(m % 64);
    IndexAlphabet(n % 64);
    DigitsOf(m);
    DigitsOf(n);
  }

  lemma DigitsOf(n: nat)
    requires n < 0x100_0000
    ensures n == n / 262144 * 262144 + n / 4096 % 64 * 4096 + n / 64 % 64 * 64 + n % 64
  {
    var q := n / 64;
    DivModUnique(n, 4096, q / 64, q % 64 * 64 + n % 64);
    var p := q / 64;
    DivModUnique(n, 262144, p / 64, p % 64 * 4096 + q % 64 * 64 + n % 64);
  }

  lemma GroupInjective(a0: Byte, a1: Byte, a2: Byte, b0: Byte, b1: Byte, b2: Byte)
    requires Group3(a0, a1, a2) == Group3(b0, b1, b2)
    ensures a0 == b0 && a1 == b1 && a2 == b2
  {
  }

  /** Decoding undoes encoding on every key. */
  method RoundTrip(key: seq<Byte>) returns (back: seq<Byte>)
    requires |key| == 32
    ensures back == key
  {
    hide Encoded, Key;
    var text, bytes := new char[45](_ => '\0'), new Byte[32](_ => 0);
    KeyToBase64(text, key);
    EncodedIsKey(key);
    assert AllBytes(Encoded(key)) by {
      KeyBytes(Encoded(key));
    }
    assert text[..44] == Encoded(key) by {
      assert Key(Encoded(key));
      KeyLength(Encoded(key));
    }
    var err := KeyFromBase64(bytes, text[..44]);
    EncodedInjective(bytes[..], key);
    back := bytes[..];
  }

  lemma KeyLength(t: string)
    requires Key(t)
    ensures |t| == 44 && t[43] == '='
  {
  }

  lemma KeyBytes(t: string)
    requires Key(t)
    ensures AllBytes(t)
  {
  }

  /** Whole groups always decode. */
  lemma {:induction false} Preimage(t: string) returns (a: seq<Byte>)
    requires AllBase64(t) && |t| % 4 == 0
    ensures 4 * |a| == 3 * |t| && Encoded(a) == t
  {
    hide Quad, Group3, Number64, AllBase64;
    if t == "" {
      a := [];
    } else {
      var h, u := t[..4], t[4..];
      assert t == h + u;
      AllBase64Concat(h, u);
      FourChars(h);
      var n := Number64(h);
      var rest := Preimage(u);
      ByteParts(n);
      a := [n / 65536, n / 256 % 256, n % 256] + rest;
      QuadBack(h, n / 65536, n / 256 % 256, n % 256);
      assert a[3..] == rest;
    }
  }

  lemma ByteParts(n: nat)
    requires n < 0x100_0000
    ensures n / 65536 < 256 && Group3(n / 65536, n / 256 % 256, n % 256) == n
  {
    var q := n / 256;
    DivModUnique(n, 65536, q / 256, q % 256 * 256 + n % 256);
  }

  /** The canonical texts are exactly the encodings of keys. */
  lemma CanonicalTexts(t: string)
    ensures Key(t) <==> exists key: seq<Byte> :: |key| == 32 && Encoded(key) == t
  {
    hide Encoded, Key;
    if Key(t) {
      KeyLength(t);
      KeyParts(t);
      var a := Preimage(t[..40]);
      var u := t[40..43] + "A";
      FourChars(u);
      var n := Number64(u);
      ByteParts(n);
      LastGroup(a, t, n / 65536 % 256, n / 256 % 256, n);
      var key := a + [n / 65536 % 256, n / 256 % 256];
      assert |key| == 32 && Encoded(key) == t;
    }
    if key: seq<Byte> :| |key| == 32 && Encoded(key) == t {
      EncodedIsKey(key);
    }
  }
}
