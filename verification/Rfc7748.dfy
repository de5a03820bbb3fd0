/** The X25519 function of section 5 of RFC 7748, written over residues modulo
    p exactly as the RFC gives it (with its delayed conditional swap), as the
    reference for the two key generators. */
module Rfc7748 {
  import opened Words
  import opened Bits
  import opened Limbs

  const A24: int := 121665

  /** Little-endian value of a byte string. */
  function LittleEndian(s: seq<Byte>): (r: nat) {
    if |s| == 0 then 0 else s[0] + 256 * LittleEndian(s[1..])
  }

  /** The n-byte little-endian encoding of x modulo 2^(8n). */
  function Encode(x: nat, n: nat): (r: seq<Byte>)
    ensures |r| == n
  {
    if n == 0 then [] else [x % 256] + Encode(x / 256, n - 1)
  }

  /** decodeScalar25519: clear bits 0-2 of the first byte, clear bit 7 and set bit 6 of the last. */
  function ClampedBytes(k: seq<Byte>): (r: seq<Byte>)
    requires |k| == 32
    ensures |r| == 32
  {
    k[31 := k[31] % 64 + 64][0 := k[0] - k[0] % 8]
  }

  function DecodeScalar(k: seq<Byte>): nat
    requires |k| == 32
  {
    LittleEndian(ClampedBytes(k))
  }

  function Pow(x: int, e: nat): int {
    if e == 0 then 1 else x * Pow(x, e - 1)
  }

  datatype State = State(x2: int, z2: int, x3: int, z3: int, swap: nat)

  function CSwap(s: State): State {
    if s.swap == 0 then s else State(s.x3, s.z3, s.x2, s.z2, s.swap)
  }

  /** The double-and-add formulas on (x2 : z2) and (x3 : z3). */
  function DoubleAdd(s: State, x1: int): State {
    var a := (s.x2 + s.z2) % P;
    var aa := (a * a) % P;
    var b := (s.x2 - s.z2) % P;
    var bb := (b * b) % P;
    var e := (aa - bb) % P;
    var c := (s.x3 + s.z3) % P;
    var d := (s.x3 - s.z3) % P;
    var da := (d * a) % P;
    var cb := (c * b) % P;
    State((aa * bb) % P,
          (e * ((aa + A24 * e) % P)) % P,
          ((da + cb) * (da + cb)) % P,
          (x1 * (((da - cb) * (da - cb)) % P)) % P,
          s.swap)
  }

  /** One turn of the ladder for scalar bit kt and base coordinate x1. */
  function Step(s: State, kt: nat, x1: int): State {
    DoubleAdd(CSwap(s.(swap := (s.swap + kt) % 2)), x1).(swap := kt)
  }

  function Bit(k: nat, t: nat): (r: nat)
    ensures r < 2
  {
    (k / Pow2(t)) % 2
  }

  /** The ladder state after the scalar bits 254, 253, ..., t. */
  function Ladder(k: nat, x1: int, t: nat): State
    requires t <= 255
    decreases 255 - t, k
  {
    if t == 255 then State(1, 0, x1, 1, 0)
    else Step(Ladder(k, x1, t + 1), Bit(k, t), x1)
  }

  function X25519(k: nat, u: int): int {
    var s := CSwap(Ladder(k, u, 0));
    (s.x2 * Pow(s.z2, P - 2)) % P
  }

  //
  // Facts about the reference
  //

  lemma {:induction false} PowAdd(x: int, d: nat, e: nat)
    ensures Pow(x, d + e) == Pow(x, d) * Pow(x, e)
  {
    if d > 0 {
      PowAdd(x, d - 1, e);
      assert x * (Pow(x, d - 1) * Pow(x, e)) == (x * Pow(x, d - 1)) * Pow(x, e);
    }
  }

  lemma {:induction false} PowCong(x: int, y: int, e: nat)
    requires Cong(x, y)
    ensures Cong(Pow(x, e), Pow(y, e))
  {
    if e > 0 {
      PowCong(x, y, e - 1);
      CongMul(x, y, Pow(x, e - 1), Pow(y, e - 1));
    } else {
      CongRefl(1);
    }
  }

  /** A byte string and its little-endian value determine each other. */
  lemma {:induction false} EncodeLittleEndian(s: seq<Byte>)
    ensures Encode(LittleEndian(s), |s|) == s
  {
    if |s| > 0 {
      var v := LittleEndian(s[1..]);
      DivModUnique(s[0] + 256 * v, 256, v, s[0]);
      EncodeLittleEndian(s[1..]);
    }
  }

  /** Splitting every 16-bit digit into two bytes keeps the value. */
  lemma {:induction false} LimbBytes(t: seq<int>, o: seq<Byte>)
    requires |o| == 2 * |t|
    requires forall k :: 0 <= k < |t| ==> t[k] == o[2 * k] as int + 256 * o[2 * k + 1] as int
    ensures LittleEndian(o) == Val(t)
  {
    if |t| > 0 {
      forall k | 0 <= k < |t| - 1
        ensures t[1..][k] == o[2..][2 * k] as int + 256 * o[2..][2 * k + 1] as int
      {
        assert t[k + 1] == o[2 * (k + 1)] as int + 256 * o[2 * (k + 1) + 1] as int;
      }
      LimbBytes(t[1..], o[2..]);
      assert t[0] == o[2 * 0] as int + 256 * o[2 * 0 + 1] as int;
      assert o[1..][1..] == o[2..] && o[1..][0] == o[1];
    }
  }

  /** Bit t of the little-endian value is bit t mod 8 of byte t / 8. */
  lemma {:induction false} BitOfByte(s: seq<Byte>, t: nat)
    requires t < 8 * |s|
    ensures Bit(LittleEndian(s), t) == (s[t / 8] / Pow2(t % 8)) % 2
  {
    var v := LittleEndian(s[1..]);
    if t < 8 {
      LowBit(s[0], v, t);
    } else {
      hide Bit, Pow2;
      BitOfByte(s[1..], t - 8);
      DivModUnique(t - 8, 8, t / 8 - 1, t % 8);
      assert s[1..][t / 8 - 1] == s[t / 8];
      HighBit(s[0], v, t);
    }
  }

  lemma {:induction false} LowBit(x: Byte, v: nat, t: nat)
    requires t < 8
    ensures Bit(x + 256 * v, t) == (x / Pow2(t)) % 2
  {
    WordSizes();
    Pow2Add(t, 8 - t);
    LowBits(x, v, Pow2(t), Pow2(7 - t), 256);
  }

  lemma LowBits(x: int, v: int, p: int, h: int, m: int)
    requires p > 0 && p * (2 * h) == m
    ensures ((x + m * v) / p) % 2 == (x / p) % 2
  {
    var w := h * v;
    Regroup(p, h, v);
    assert x + m * v == p * (x / p + 2 * w) + x % p by {
      assert p * (x / p + 2 * w) == p * (x / p) + p * (2 * w);
    }
    DivModUnique(x + m * v, p, x / p + 2 * w, x % p);
    ModShift(x / p, w, 2);
  }

  lemma Regroup(p: int, h: int, v: int)
    ensures (p * (2 * h)) * v == p * (2 * (h * v))
  {
  }

  lemma HighBit(x: Byte, v: nat, t: nat)
    requires 8 <= t
    ensures Bit(x + 256 * v, t) == Bit(v, t - 8)
  {
    WordSizes();
    Pow2Add(8, t - 8);
    hide Pow2;
    HighPart(x, v, Pow2(t - 8), 256);
  }

  lemma HighPart(x: int, v: nat, m: int, b: int)
    requires m > 0 && 0 <= x < b
    ensures (x + b * v) / (b * m) == v / m
  {
    var q, r := v / m, v % m;
    assert b * v == b * m * q + b * r by {
      Multiplied(b, m, q, r);
    }
    MulNonnegative(b, m - 1 - r);
    MulNonnegative(b, r);
    DivModUnique(x + b * v, b * m, q, x + b * r);
  }

  lemma Multiplied(b: int, m: int, q: int, r: int)
    ensures b * (m * q + r) == b * m * q + b * r
  {
  }

  //
  // The order in which the code evaluates the same formulas
  //

  lemma CongProduct(o: int, a: int, b: int, x: int, y: int)
    requires Cong(o, a * b) && Cong(a, x) && Cong(b, y)
    ensures Cong(o, (x * y) % P)
  {
    hide Cong;
    CongMul(a, x, b, y);
    CongTrans(o, a * b, x * y);
    CongReduced(o, x * y);
  }

  lemma CongReduced(x: int, y: int)
    requires Cong(x, y)
    ensures Cong(x, y % P)
  {
    hide Cong;
    Reduced(y);
    CongSym(y % P, y);
    CongTrans(x, y, y % P);
  }

  lemma CongSum(a: int, b: int, x: int, y: int)
    requires Cong(a, x) && Cong(b, y)
    ensures Cong(a + b, (x + y) % P) && Cong(a - b, (x - y) % P)
  {
    hide Cong;
    CongAdd(a, x, b, y);
    CongReduced(a + b, x + y);
    CongReduced(a - b, x - y);
  }

  lemma Reduced(x: int)
    ensures Cong(x % P, x)
  {
    DivModUnique(x % P, P, 0, x % P);
    CongIs(x % P, x);
  }

  /** Values standing for a ladder state. */
  ghost predicate Stands(x2: int, z2: int, x3: int, z3: int, s: State) {
    Cong(x2, s.x2) && Cong(z2, s.z2) && Cong(x3, s.x3) && Cong(z3, s.z3)
  }

  datatype Mid = Mid(aa: int, bb: int, da: int, cb: int)

  function First(s: State): Mid {
    var a, b := (s.x2 + s.z2) % P, (s.x2 - s.z2) % P;
    var c, d := (s.x3 + s.z3) % P, (s.x3 - s.z3) % P;
    Mid((a * a) % P, (b * b) % P, (d * a) % P, (c * b) % P)
  }

  lemma DoubleAddParts(s: State, x1: int)
    ensures var m := First(s);
      var e := (m.aa - m.bb) % P;
      DoubleAdd(s, x1) == State((m.aa * m.bb) % P, (e * ((m.aa + A24 * e) % P)) % P,
                                ((m.da + m.cb) * (m.da + m.cb)) % P,
                                (x1 * (((m.da - m.cb) * (m.da - m.cb)) % P)) % P, s.swap)
  {
  }

  lemma FirstHalf(x2: int, z2: int, x3: int, z3: int, s: State, aa: int, bb: int, da: int, cb: int)
    requires Stands(x2, z2, x3, z3, s)
    requires Cong(aa, (x2 + z2) * (x2 + z2)) && Cong(bb, (x2 - z2) * (x2 - z2))
    requires Cong(cb, (x3 + z3) * (x2 - z2)) && Cong(da, (x3 - z3) * (x2 + z2))
    ensures var m := First(s); Cong(aa, m.aa) && Cong(bb, m.bb) && Cong(da, m.da) && Cong(cb, m.cb)
  {
    hide Cong;
    var a, b := (s.x2 + s.z2) % P, (s.x2 - s.z2) % P;
    var c, d := (s.x3 + s.z3) % P, (s.x3 - s.z3) % P;
    CongSum(x2, z2, s.x2, s.z2);
    CongSum(x3, z3, s.x3, s.z3);
    CongProduct(aa, x2 + z2, x2 + z2, a, a);
    CongProduct(bb, x2 - z2, x2 - z2, b, b);
    CongProduct(cb, x3 + z3, x2 - z2, c, b);
    CongProduct(da, x3 - z3, x2 + z2, d, a);
  }

  /** The doubled point: E * (AA + 121665 E) with the code's operand order. */
  lemma Doubled(aa: int, bb: int, m: Mid, scaled: int, x2': int, z2': int)
    requires Cong(aa, m.aa) && Cong(bb, m.bb)
    requires Cong(scaled, (aa - bb) * A24)
    requires Cong(z2', (aa - bb) * (scaled + aa)) && Cong(x2', aa * bb)
    ensures var e := (m.aa - m.bb) % P;
      Cong(x2', (m.aa * m.bb) % P) && Cong(z2', (e * ((m.aa + A24 * e) % P)) % P)
  {
    var e := (m.aa - m.bb) % P;
    hide Cong;
    CongSum(aa, bb, m.aa, m.bb);
    CongRefl(A24);
    CongMul(aa - bb, e, A24, A24);
    CongTrans(scaled, (aa - bb) * A24, e * A24);
    assert e * A24 == A24 * e;
    CongSum(aa, scaled, m.aa, A24 * e);
    CongProduct(z2', aa - bb, scaled + aa, e, (m.aa + A24 * e) % P);
    CongProduct(x2', aa, bb, m.aa, m.bb);
  }

  /** The sum of the points: the code squares CB - DA where the RFC squares DA - CB. */
  lemma Added(da: int, cb: int, m: Mid, square: int, x3': int)
    requires Cong(da, m.da) && Cong(cb, m.cb)
    requires Cong(square, (cb - da) * (cb - da)) && Cong(x3', (cb + da) * (cb + da))
    ensures Cong(x3', (m.da + m.cb) * (m.da + m.cb)) && Cong(square, (m.da - m.cb) * (m.da - m.cb))
  {
    hide Cong;
    CongAdd(cb, m.cb, da, m.da);
    CongMul(cb + da, m.da + m.cb, cb + da, m.da + m.cb);
    CongTrans(x3', (cb + da) * (cb + da), (m.da + m.cb) * (m.da + m.cb));
    CongMul(cb - da, m.cb - m.da, cb - da, m.cb - m.da);
    CongTrans(square, (cb - da) * (cb - da), (m.cb - m.da) * (m.cb - m.da));
    SquareOfNegation(m.da, m.cb);
  }

  /** The square times the base coordinate, factors the other way round. */
  lemma TimesBase(z3': int, square: int, x1: int, q: int)
    requires Cong(square, q) && Cong(z3', square * x1)
    ensures Cong(z3', (x1 * (q % P)) % P)
  {
    hide Cong;
    CongReduced(square, q);
    CongRefl(x1);
    CongProduct(z3', square, x1, q % P, x1);
    assert q % P * x1 == x1 * (q % P);
  }

  lemma SquareOfNegation(x: int, y: int)
    ensures (y - x) * (y - x) == (x - y) * (x - y)
  {
  }

  //
  // Clamping
  //

  lemma {:induction false} LittleEndianSplit(s: seq<Byte>, k: nat)
    requires k <= |s|
    ensures LittleEndian(s) == LittleEndian(s[..k]) + Pow2(8 * k) * LittleEndian(s[k..])
  {
    if k == 0 {
      assert s[..0] == [] && s[0..] == s;
    } else {
      LittleEndianSplit(s[1..], k - 1);
      assert s[..k][1..] == s[1..][..k - 1] && s[1..][k - 1..] == s[k..];
      BytePower(k);
      ScaleUp(Pow2(8 * (k - 1)), LittleEndian(s[k..]));
    }
  }

  lemma {:induction false} BytePower(k: nat)
    requires k > 0
    ensures Pow2(8 * k) == 256 * Pow2(8 * (k - 1))
  {
    WordSizes();
    Pow2Add(8, 8 * (k - 1));
  }

  lemma ScaleUp(b: int, v: int)
    ensures (256 * b) * v == 256 * (b * v)
  {
  }

  lemma {:induction false} LittleEndianBound(s: seq<Byte>)
    ensures LittleEndian(s) < Pow2(8 * |s|)
  {
    if |s| > 0 {
      LittleEndianBound(s[1..]);
      BytePower(|s|);
    }
  }

  /** Every decoded scalar is a multiple of 8 in [2^254, 2^255). */
  lemma ScalarShape(k: seq<Byte>)
    requires |k| == 32
    ensures DecodeScalar(k) % 8 == 0
    ensures Pow2(254) <= DecodeScalar(k) < Pow2(255)
  {
    var z := ClampedBytes(k);
    ClampedFirst(k[0]);
    LowBitsClear(z[0], LittleEndian(z[1..]));
    ScalarRange(z);
  }

  /** Bit by bit: the three lowest are cleared, bit 254 is set, bit 255 is cleared, and the
      others are those of the key. */
  lemma {:induction false} ScalarBits(k: seq<Byte>, t: nat)
    requires |k| == 32 && t < 256
    ensures Bit(DecodeScalar(k), t)
         == if t < 3 || t == 255 then 0 else if t == 254 then 1 else Bit(LittleEndian(k), t)
  {
    var i, j := t / 8, t % 8;
    assert i < 32 && j < 8;
    ClampedBits(k, i, j);
    hide LittleEndian, Bit, Pow2, ClampedBytes;
    BitOfByte(ClampedBytes(k), t);
    BitOfByte(k, t);
  }

  lemma {:induction false} ClampedBits(k: seq<Byte>, i: nat, j: nat)
    requires |k| == 32 && i < 32 && j < 8
    ensures (ClampedBytes(k)[i] / Pow2(j)) % 2
         == if (i == 0 && j < 3) || (i == 31 && j == 7) then 0
            else if i == 31 && j == 6 then 1 else (k[i] / Pow2(j)) % 2
  {
    hide Pow2;
    if i == 0 {
      FirstByteBits(k[0], j);
    } else if i == 31 {
      LastByteBits(k[31], j);
    }
  }

  lemma SmallPowers()
    ensures Pow2(0) == 1 && Pow2(1) == 2 && Pow2(2) == 4 && Pow2(3) == 8
    ensures Pow2(4) == 16 && Pow2(5) == 32 && Pow2(6) == 64 && Pow2(7) == 128
  {
  }

  lemma {:induction false} FirstByteBits(x: Byte, t: nat)
    requires t < 8
    ensures ((x - x % 8) / Pow2(t)) % 2 == if t < 3 then 0 else (x / Pow2(t)) % 2
  {
    hide Pow2;
    SmallPowers();
    if t < 3 {
      Pow2Add(t, 3 - t);
      Pow2Add(1, 2 - t);
      LowBits(0, x / 8, Pow2(t), Pow2(2 - t), 8);
      DivModUnique(0, Pow2(t), 0, 0);
    } else {
      Pow2Add(3, t - 3);
      HighPart(0, x / 8, Pow2(t - 3), 8);
      HighPart(x % 8, x / 8, Pow2(t - 3), 8);
    }
  }

  lemma {:induction false} LastByteBits(x: Byte, t: nat)
    requires t < 8
    ensures ((x % 64 + 64) / Pow2(t)) % 2 == if t == 7 then 0 else if t == 6 then 1 else (x / Pow2(t)) % 2
  {
    hide Pow2;
    SmallPowers();
    if t < 6 {
      Pow2Add(t, 6 - t);
      Pow2Add(1, 5 - t);
      LowBits(x % 64, 1, Pow2(t), Pow2(5 - t), 64);
      LowBits(x % 64, x / 64, Pow2(t), Pow2(5 - t), 64);
    } else {
      DivModUnique(x % 64 + 64, 64, 1, x % 64);
      DivModUnique(x % 64 + 64, 128, 0, x % 64 + 64);
    }
  }

  lemma ClampedFirst(x: int)
    ensures (x - x % 8) % 8 == 0
  {
    DivModUnique(x - x % 8, 8, x / 8, 0);
  }

  lemma {:induction false} ScalarRange(z: seq<Byte>)
    requires |z| == 32 && 64 <= z[31] <= 127
    ensures Pow2(254) <= LittleEndian(z) < Pow2(255)
  {
    var low, top: int := LittleEndian(z[..31]), z[31];
    assert LittleEndian(z) == low + Pow2(248) * top by {
      LittleEndianSplit(z, 31);
      assert z[31..] == [z[31]] && LittleEndian([z[31]]) == z[31];
    }
    LittleEndianBound(z[..31]);
    ScalarPowers();
    Between(Pow2(248), low, top);
  }

  lemma LowBitsClear(x: int, v: int)
    requires x % 8 == 0
    ensures (x + 256 * v) % 8 == 0
  {
    DivModUnique(x + 256 * v, 8, x / 8 + 32 * v, 0);
  }

  lemma ScalarPowers()
    ensures Pow2(254) == 64 * Pow2(248) && Pow2(255) == 128 * Pow2(248)
  {
    assert Pow2(6) == 64 && Pow2(7) == 128;
    Pow2Add(6, 248);
    Pow2Add(7, 248);
  }

  lemma Between(b: int, low: int, top: int)
    requires 0 <= low < b && 64 <= top <= 127
    ensures 64 * b <= low + b * top < 128 * b
  {
    MulNonnegative(b, top - 64);
    MulNonnegative(b, 127 - top);
  }
}
