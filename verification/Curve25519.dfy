/** Public key generation of contrib/embeddable-wg-library/wireguard.c and of its
    twin contrib/keygen-html/wireguard.js: sixteen-limb field arithmetic and the
    Montgomery ladder.

    The two programs run the same statements on different machine numbers, so
    the number system is a parameter: int64_t words, or doubles that bitwise
    operators first convert to int32. Every arithmetic result passes through
    Num, whose precondition is that the machine represents it exactly:
    verification shows that no int64_t operation overflows and that no double is
    ever rounded. */
module Curve25519 {
  import opened Words
  import opened Bits
  import opened Limbs
  import opened Rfc7748

  datatype Arith = Int64 | Float64

  /** The integers the machine computes with exactly. */
  predicate Exact(w: Arith, x: int) {
    match w
    case Int64 => -0x8000_0000_0000_0000 <= x <= 0x7fff_ffff_ffff_ffff
    case Float64 => -0x20_0000_0000_0000 <= x <= 0x20_0000_0000_0000
  }

  function Num(w: Arith, x: int): int
    requires Exact(w, x)
  {
    x
  }

  /** Limbs a carry pass accepts. */
  function Limit(w: Arith): (r: int)
    ensures 0x10_0000_0000_0000 <= r <= 0x4000_0000_0000_0000
  {
    match w
    case Int64 => 0x4000_0000_0000_0000
    case Float64 => 0x10_0000_0000_0000
  }

  /** Bits below the sign bit of the word that bitwise operators act on. */
  function WordBits(w: Arith): nat {
    match w
    case Int64 => 63
    case Float64 => 31
  }

  /** JavaScript's ToInt32: the residue modulo 2^32 in [-2^31, 2^31). */
  function ToInt32(x: int): (r: int)
    ensures -0x8000_0000 <= r <= 0x7fff_ffff
    ensures -0x8000_0000 <= x <= 0x7fff_ffff ==> r == x
    ensures r % 65536 == x % 65536
  {
    ToInt32Residue(x);
    (x + 0x8000_0000) % 0x1_0000_0000 - 0x8000_0000
  }

  lemma ToInt32Residue(x: int)
    ensures ((x + 0x8000_0000) % 0x1_0000_0000 - 0x8000_0000) % 65536 == x % 65536
    ensures -0x8000_0000 <= x <= 0x7fff_ffff ==> (x + 0x8000_0000) % 0x1_0000_0000 == x + 0x8000_0000
  {
    var y := x + 0x8000_0000;
    var q, r := y / 0x1_0000_0000, y % 0x1_0000_0000;
    var k, s := (r - 0x8000_0000) / 65536, (r - 0x8000_0000) % 65536;
    assert x == 65536 * (65536 * q + k) + s;
    DivModUnique(x, 65536, 65536 * q + k, s);
    if 0 <= y < 0x1_0000_0000 {
      DivModUnique(y, 0x1_0000_0000, 0, y);
    }
  }

  /** The operand a bitwise operator sees. */
  function Word(w: Arith, x: int): (r: int)
    requires Exact(w, x)
    ensures Fits(WordBits(w), r)
    ensures r % 65536 == x % 65536
    ensures -0x8000_0000 <= x <= 0x7fff_ffff ==> r == x
  {
    WordSizes();
    match w
    case Int64 => x
    case Float64 => ToInt32(x)
  }

  /** x & 0xffff */
  method Mask16(w: Arith, x: int) returns (r: int)
    requires Exact(w, x)
    ensures r == x % 65536
  {
    MaskWord(WordBits(w), Word(w, x));
    r := And(WordBits(w), Word(w, x), 0xffff);
  }

  /** (x >> 16) & 1 of a limb at most one unit out of range */
  method Borrow(w: Arith, x: int) returns (r: int)
    requires -65536 <= x <= 65535
    ensures r == if x < 0 then 1 else 0
  {
    BorrowBit(WordBits(w), Word(w, x));
    r := And(WordBits(w), Shr(Word(w, x), 16), 1);
  }

  /** One carry pass; int64_t limbs may be as large as 2^62, doubles as 2^52. */
  method Carry(w: Arith, o: array<int>)
    requires o.Length == 16
    requires AllWithin(o[..], -Limit(w), Limit(w))
    modifies o
    ensures o[..] == Carried(old(o[..]))
  {
    ghost var s := o[..];
    for i := 0 to 16
      invariant o[..] == CarriedUpTo(s, i)
    {
      CarryInBound(s, i);
      CarryTurnStep(s, i);
      assert o[i] == s[i] + CarryIn(s, i);
      CarryLimb(w, o, i);
    }
  }

  /** The body of the carry loop: limb i hands its excess to the next limb. */
  method CarryLimb(w: Arith, o: array<int>, i: nat)
    requires o.Length == 16 && i < 16
    requires AllWithin(o[..], -Limit(w) - 0x8000_0000_0000, Limit(w) + 0x8000_0000_0000)
    modifies o
    ensures o[..] == CarryTurn(old(o[..]), i)
  {
    hide Exact, Limit, Shr;
    ghost var u := o[..];
    var j := (i + 1) % 16;
    assert o[i] == u[i] && o[j] == u[j];
    CarryExact(w, u[i], u[j], if i == 15 then 38 else 1);
    var add := Num(w, (if i == 15 then 38 else 1) * Shr(o[i], 16));
    o[j] := Num(w, o[j] + add);
    o[i] := Mask16(w, o[i]);
  }

  /** What limb x hands on is exact, and so is limb y that takes it. */
  lemma CarryExact(w: Arith, x: int, y: int, k: int)
    requires k == 1 || k == 38
    requires -Limit(w) - 0x8000_0000_0000 <= x <= Limit(w) + 0x8000_0000_0000
    requires -Limit(w) - 0x8000_0000_0000 <= y <= Limit(w) + 0x8000_0000_0000
    ensures Shr(x, 16) == x / 65536
    ensures Exact(w, x) && Exact(w, k * Shr(x, 16)) && Exact(w, y + k * Shr(x, 16))
  {
    WordSizes();
  }

  /** The largest word. */
  function WordMax(w: Arith): (r: int)
    ensures r == Pow2(WordBits(w)) - 1
  {
    WordSizes();
    match w
    case Int64 => 0x7fff_ffff_ffff_ffff
    case Float64 => 0x7fff_ffff
  }

  /** Branch-free exchange: swaps when b is 1, keeps when b is 0. */
  method CSwap(w: Arith, p: array<int>, q: array<int>, b: int)
    requires p.Length == q.Length == 16 && p != q && (b == 0 || b == 1)
    requires AllWithin(p[..], -WordMax(w) - 1, WordMax(w)) && AllWithin(q[..], -WordMax(w) - 1, WordMax(w))
    modifies p, q
    ensures b == 0 ==> p[..] == old(p[..]) && q[..] == old(q[..])
    ensures b == 1 ==> p[..] == old(q[..]) && q[..] == old(p[..])
  {
    for i := 0 to 16
      invariant forall k :: 0 <= k < i ==> p[k] == (if b == 1 then old(q[k]) else old(p[k]))
      invariant forall k :: 0 <= k < i ==> q[k] == (if b == 1 then old(p[k]) else old(q[k]))
      invariant forall k :: i <= k < 16 ==> p[k] == old(p[k]) && q[k] == old(q[k])
    {
      assert p[i] == old(p[..])[i] && q[i] == old(q[..])[i];
      p[i], q[i] := SwapLimbs(WordBits(w), p[i], q[i], b);
    }
  }

  /** The body of the exchange loop, on words of n bits below the sign. */
  method SwapLimbs(n: nat, p: int, q: int, b: int) returns (p': int, q': int)
    requires Fits(n, p) && Fits(n, q) && (b == 0 || b == 1)
    ensures (p', q') == if b == 1 then (q, p) else (p, q)
  {
    var c := Not(b - 1);
    var t := And(n, c, Xor(n, p, q));
    AndExtremes(n, Xor(n, p, q));
    XorCancels(n, p, q);
    XorZero(n, p);
    XorZero(n, q);
    p' := Xor(n, p, t);
    q' := Xor(n, q, t);
  }

  /** Limb-wise sum; o may be a or b. */
  method Add(w: Arith, o: array<int>, a: array<int>, b: array<int>)
    requires o.Length == a.Length == b.Length == 16
    requires Loose(a[..]) && Loose(b[..])
    modifies o
    ensures Summed(o[..])
    ensures Val(o[..]) == Val(old(a[..])) + Val(old(b[..]))
  {
    ghost var x, y := a[..], b[..];
    for i := 0 to 16
      invariant forall k :: 0 <= k < i ==> o[k] == x[k] + y[k]
      invariant forall k :: i <= k < 16 ==> a[k] == x[k] && b[k] == y[k]
    {
      var sum := Num(w, a[i] + b[i]);
      o[i] := if w.Int64? then sum else ToInt32(sum);
    }
    ValLinear(x, y, o[..], 1);
  }

  /** Limb-wise difference; o may be a or b. */
  method Subtract(w: Arith, o: array<int>, a: array<int>, b: array<int>)
    requires o.Length == a.Length == b.Length == 16
    requires Loose(a[..]) && Loose(b[..])
    modifies o
    ensures Summed(o[..])
    ensures Val(o[..]) == Val(old(a[..])) - Val(old(b[..]))
  {
    ghost var x, y := a[..], b[..];
    for i := 0 to 16
      invariant forall k :: 0 <= k < i ==> o[k] == x[k] - y[k]
      invariant forall k :: i <= k < 16 ==> a[k] == x[k] && b[k] == y[k]
    {
      var difference := Num(w, a[i] - b[i]);
      o[i] := if w.Int64? then difference else ToInt32(difference);
    }
    ValLinear(x, y, o[..], -1);
  }

  /** Product modulo p of any two sums or differences of products; o may be a or b. */
  method MultMod(w: Arith, o: array<int>, a: array<int>, b: array<int>)
    requires o.Length == a.Length == b.Length == 16
    requires Summed(a[..]) && Summed(b[..])
    modifies o
    ensures Loose(o[..])
    ensures Cong(Val(o[..]), Val(old(a[..])) * Val(old(b[..])))
  {
    ghost var product := Val(a[..]) * Val(b[..]);
    var t := Columns31(w, a, b);
    assert Val(t[..]) == product;
    FoldColumns(w, t);
    ghost var folded := t[..16];
    forall i | 0 <= i < 16 {
      o[i] := t[i];
    }
    assert o[..] == folded;
    assert Cong(Val(o[..]), product);
    CarryTwice(w, o);
    CongTrans(Val(o[..]), Val(folded), product);
  }

  /** Adds 38 times column i + 16 to column i. */
  method FoldColumns(w: Arith, t: array<int>)
    requires t.Length == 31 && AllWithin(t[..], -16 * PRODUCT, 16 * PRODUCT)
    modifies t
    ensures AllWithin(t[..], -624 * PRODUCT, 624 * PRODUCT)
    ensures Cong(Val(t[..16]), Val(old(t[..])))
  {
    ghost var columns := t[..];
    for i := 0 to 15
      invariant t[..] == Folded(columns, i)
    {
      assert columns[i] == t[i] && columns[i + 16] == t[i + 16];
      t[i] := Num(w, t[i] + Num(w, 38 * t[i + 16]));
      assert t[..] == Folded(columns, i + 1);
    }
    FoldedCong(columns);
  }

  /** The 31 column sums of the schoolbook product. */
  method Columns31(w: Arith, a: array<int>, b: array<int>) returns (t: array<int>)
    requires a.Length == b.Length == 16
    requires Summed(a[..]) && Summed(b[..])
    ensures fresh(t) && t.Length == 31
    ensures Val(t[..]) == Val(a[..]) * Val(b[..])
    ensures AllWithin(t[..], -16 * PRODUCT, 16 * PRODUCT)
  {
    ghost var x, y := a[..], b[..];
    t := new int[31](_ => 0);
    ValZero(t[..]);
    assert x[..0] == [] && y[..0] == [];
    for i := 0 to 16
      invariant a[..] == x && b[..] == y
      invariant i < 16 ==> Columns(t[..], x, y, i, 0)
      invariant i == 16 ==> Val(t[..]) == Val(x) * Val(y) && AllWithin(t[..], -16 * PRODUCT, 16 * PRODUCT)
    {
      for j := 0 to 16
        invariant a[..] == x && b[..] == y
        invariant Columns(t[..], x, y, i, j)
      {
        AddProduct(w, t, x, y, i, j, a[i], b[j]);
      }
      ColumnsRow(t[..], x, y, i);
    }
  }

  /** t[i + j] += a[i] * b[j] */
  method AddProduct(w: Arith, t: array<int>, ghost x: seq<int>, ghost y: seq<int>, i: nat, j: nat, u: int, v: int)
    requires t.Length == 31 && j < 16 && Columns(t[..], x, y, i, j) && u == x[i] && v == y[j]
    modifies t
    ensures Columns(t[..], x, y, i, j + 1)
  {
    ghost var before := t[..];
    ColumnsStep(before, x, y, i, j);
    ProductBound(u, v);
    assert t[i + j] == before[i + j];
    t[i + j] := Num(w, t[i + j] + Num(w, u * v));
    assert t[..] == before[i + j := before[i + j] + x[i] * y[j]];
  }

  /** Two carry passes bring limbs of up to 2^62 within 38 of proper digits. */
  method CarryTwice(w: Arith, o: array<int>)
    requires o.Length == 16
    requires AllWithin(o[..], -Limit(w), Limit(w))
    modifies o
    ensures LowLimbLoose(o[..]) && Loose(o[..])
    ensures Cong(Val(o[..]), Val(old(o[..])))
  {
    FirstCarry(o[..]);
    CarriedCong(o[..]);
    ghost var before := Val(o[..]);
    Carry(w, o);
    SecondCarry(o[..]);
    CarriedCong(o[..]);
    ghost var once := Val(o[..]);
    Carry(w, o);
    LooseFromLow(o[..]);
    CongTrans(Val(o[..]), once, before);
  }

  lemma LooseFromLow(s: seq<int>)
    requires LowLimbLoose(s)
    ensures Loose(s)
  {
    assert forall k :: 1 <= k < 16 ==> s[k] == s[1..][k - 1];
  }

  /** The bits 254, ..., a of an exponent that is all ones but for bits 4 and 2. */
  function ExponentPrefix(a: nat): int
    requires a <= 254
    decreases 254 - a
  {
    if a == 254 then 1 else 2 * ExponentPrefix(a + 1) + (if a == 2 || a == 4 then 0 else 1)
  }

  ghost predicate Raised(v: int, x: int, a: nat)
    requires a <= 254
  {
    var e := ExponentPrefix(a);
    e >= 1 && Cong(v, Pow(x, e))
  }

  lemma {:induction false} PrefixAllOnes(a: nat)
    requires 5 <= a <= 254
    ensures ExponentPrefix(a) == Pow2(255 - a) - 1
    decreases 254 - a
  {
    if a < 254 {
      PrefixAllOnes(a + 1);
    }
  }

  lemma PrefixIsPMinus2()
    ensures ExponentPrefix(0) == P - 2
  {
    PrefixAllOnes(5);
    var e5 := ExponentPrefix(5);
    assert ExponentPrefix(4) == 2 * e5;
    assert ExponentPrefix(3) == 4 * e5 + 1;
    assert ExponentPrefix(2) == 8 * e5 + 2;
    assert ExponentPrefix(1) == 16 * e5 + 5;
    assert ExponentPrefix(0) == 32 * e5 + 11;
    Pow2Of250();
  }

  lemma Pow2Of250()
    ensures 32 * Pow2(250) == P + 19
  {
    WordSizes();
    assert Pow2(63) == 2 * Pow2(62);
    Pow2Add(63, 62);
    var h := Pow2(125);
    assert h == 0x2000_0000_0000_0000_0000_0000_0000_0000;
    Pow2Add(125, 125);
  }

  lemma {:induction false} SquarePower(x: int, e: nat, v: int, w: int)
    requires Cong(v, Pow(x, e)) && Cong(w, v * v)
    ensures Cong(w, Pow(x, 2 * e))
  {
    CongMul(v, Pow(x, e), v, Pow(x, e));
    PowAdd(x, e, e);
    CongTrans(w, v * v, Pow(x, 2 * e));
  }

  lemma RaisePower(x: int, e: nat, v: int, w: int)
    requires Cong(v, Pow(x, e)) && Cong(w, v * x)
    ensures Cong(w, Pow(x, e + 1))
  {
    CongRefl(x);
    CongMul(v, Pow(x, e), x, x);
    assert Pow(x, e + 1) == Pow(x, e) * x;
    CongTrans(w, v * x, Pow(x, e + 1));
  }

  /** One turn of the exponentiation loop. */
  lemma RaisedStep(v: int, x: int, a: nat, w: int, w': int)
    requires a < 254 && Raised(v, x, a + 1) && Cong(w, v * v)
    requires if a == 2 || a == 4 then w' == w else Cong(w', w * x)
    ensures Raised(w', x, a)
  {
    var e := ExponentPrefix(a + 1);
    SquarePower(x, e, v, w);
    if a != 2 && a != 4 {
      RaisePower(x, 2 * e, w, w');
    }
  }

  lemma {:induction false} RaisedDone(v: int, x: int)
    requires Raised(v, x, 0)
    ensures Cong(v, Pow(x, P - 2))
  {
    PrefixIsPMinus2();
  }

  /** z^(p-2), which section 5 of RFC 7748 uses as the inverse; o may be z. */
  method Invert(w: Arith, o: array<int>, z: array<int>)
    requires o.Length == z.Length == 16 && Loose(z[..])
    modifies o
    ensures Loose(o[..])
    ensures Cong(Val(o[..]), Pow(Val(old(z[..])), P - 2))
  {
    ghost var x := Val(z[..]);
    var c := new int[16];
    forall k | 0 <= k < 16 {
      c[k] := z[k];
    }
    assert c[..] == z[..];
    assert Pow(x, 1) == x * Pow(x, 0);
    CongRefl(x);
    for a := 254 downto 0
      invariant z[..] == old(z[..]) && Loose(c[..])
      invariant Raised(Val(c[..]), x, a)
    {
      ghost var v := Val(c[..]);
      MultMod(w, c, c, c);
      ghost var v' := Val(c[..]);
      if a != 2 && a != 4 {
        MultMod(w, c, c, z);
      }
      RaisedStep(v, x, a, v', Val(c[..]));
    }
    RaisedDone(Val(c[..]), x);
    ghost var r := c[..];
    assert Cong(Val(r), Pow(x, P - 2));
    forall k | 0 <= k < 16 {
      o[k] := c[k];
    }
    assert o[..] == r;
    assert Val(o[..]) == Val(r);
    assert Cong(Val(o[..]), Pow(x, P - 2));
    assert x == Val(old(z[..]));
  }

  /** m := t - p with borrows; the result says whether a borrow left the top limb. */
  method SubtractPrime(w: Arith, m: array<int>, t: array<int>) returns (b: int)
    requires m.Length == t.Length == 16 && m != t && Digits(t[..])
    modifies m
    ensures b == if Val(t[..]) < P then 1 else 0
    ensures b == 0 ==> Digits(m[..]) && Val(m[..]) == Val(t[..]) - P
    ensures AllWithin(m[..], -65536, 65536)
  {
    ghost var s := MinusPrime(t[..]);
    m[0] := Num(w, t[0] - 0xffed);
    for i := 1 to 15
      invariant m[..i] == CarriedUpTo(s, i - 1)[..i]
      invariant t[..] == old(t[..])
    {
      SubtractLimb(w, m, t, i, 0xffff);
    }
    SubtractLimb(w, m, t, 15, 0x7fff);
    assert m[..] == m[..16] == CarriedUpTo(s, 15);
    TopLimbSign(t[..]);
    assert m[15] == CarriedUpTo(s, 15)[15];
    b := Borrow(w, m[15]);
  }

  /** Limb i of t - p, taking the borrow of limb i - 1 and trimming that limb. */
  method SubtractLimb(w: Arith, m: array<int>, t: array<int>, i: nat, prime: int)
    requires m.Length == t.Length == 16 && m != t && Digits(t[..])
    requires 1 <= i < 16 && prime == PrimeLimb(i)
    requires m[..i] == CarriedUpTo(MinusPrime(t[..]), i - 1)[..i]
    modifies m
    ensures m[..i + 1] == CarriedUpTo(MinusPrime(t[..]), i)[..i + 1]
  {
    hide CarriedUpTo, CarryIn, MinusPrime;
    ghost var s := MinusPrime(t[..]);
    ghost var u, before := CarriedUpTo(s, i - 1), m[..i];
    BorrowRange(t[..], i);
    assert m[i - 1] == before[i - 1] == u[i - 1] && t[i] == t[..][i];
    m[i], m[i - 1] := BorrowLimbs(w, m[i - 1], t[i], prime);
    assert m[..i + 1] == (before + [s[i] + u[i - 1] / 65536])[i - 1 := u[i - 1] % 65536];
    CarriedPrefix(s, i);
  }

  /** t - prime - ((below >> 16) & 1) and below & 0xffff */
  method BorrowLimbs(w: Arith, below: int, t: int, prime: int) returns (limb: int, trimmed: int)
    requires -65536 <= below <= 65535 && 0 <= t <= 65535 && 0 <= prime <= 65535
    ensures limb == t - prime + below / 65536
    ensures trimmed == below % 65536
  {
    var borrow := Borrow(w, below);
    limb := Num(w, t - prime - borrow);
    trimmed := Mask16(w, below);
  }

  /** A third pass leaves proper digits. */
  method CarryThrice(w: Arith, o: array<int>)
    requires o.Length == 16
    requires AllWithin(o[..], -Limit(w), Limit(w))
    modifies o
    ensures Digits(o[..])
    ensures Cong(Val(o[..]), Val(old(o[..])))
  {
    ghost var before := Val(o[..]);
    CarryTwice(w, o);
    CarriedCong(o[..]);
    ThirdCarry(o[..]);
    ghost var twice := Val(o[..]);
    Carry(w, o);
    CongTrans(Val(o[..]), twice, before);
  }

  /** The canonical little-endian encoding of the element n stands for. */
  method Pack(w: Arith, o: array<Byte>, n: array<int>)
    requires o.Length == 32 && n.Length == 16
    requires AllWithin(n[..], -Limit(w), Limit(w))
    modifies o
    ensures o[..] == Encode(Val(old(n[..])) % P, 32)
  {
    hide Val, Base, Limit;
    ghost var limbs := n[..];
    ghost var x := Val(limbs);
    var m, t := new int[16], new int[16];
    forall k | 0 <= k < 16 {
      t[k] := n[k];
    }
    assert t[..] == limbs;
    CarryThrice(w, t);
    ValRange(t[..]);
    Base16();
    for j := 0 to 2
      invariant Digits(t[..]) && Cong(Val(t[..]), x)
      invariant 0 <= Val(t[..]) < if j == 0 then 2 * P + 38 else if j == 1 then P + 38 else P
    {
      ghost var before := t[..];
      var b := SubtractPrime(w, m, t);
      ghost var reduced := m[..];
      if b == 0 {
        CongIntro(Val(before), Val(reduced), 1);
        CongBoth(Val(before), Val(reduced), x);
      }
      CSwap(w, t, m, 1 - b);
      assert t[..] == if b == 0 then reduced else before;
    }
    CongIs(Val(t[..]), x);
    assert Val(t[..]) == x % P;
    WriteBytes(w, o, t);
  }

  /** Both bytes of every digit, low byte first. */
  method WriteBytes(w: Arith, o: array<Byte>, t: array<int>)
    requires o.Length == 32 && t.Length == 16 && Digits(t[..])
    modifies o
    ensures Val(t[..]) >= 0 && o[..] == Encode(Val(t[..]), 32)
  {
    ghost var s := t[..];
    for i := 0 to 16
      invariant t[..] == s
      invariant forall k :: 0 <= k < i ==> s[k] == o[2 * k] as int + 256 * o[2 * k + 1] as int
    {
      MaskByte(WordBits(w), Word(w, t[i]));
      ShiftDivides(Word(w, t[i]));
      o[2 * i] := And(WordBits(w), Word(w, t[i]), 0xff);
      o[2 * i + 1] := Shr(Word(w, t[i]), 8);
    }
    LimbBytes(s, o[..]);
    EncodeLittleEndian(o[..]);
  }

  /** The element x0 + 2^16 x1 of a literal initialiser. */
  method Small(x0: int, x1: int) returns (o: array<int>)
    requires 0 <= x0 <= 65535 && 0 <= x1 <= 65535
    ensures fresh(o) && o.Length == 16 && Loose(o[..])
    ensures Val(o[..]) == x0 + 65536 * x1
  {
    o := new int[16](_ => 0);
    ghost var zero := o[..];
    ValZero(zero);
    o[0], o[1] := x0, x1;
    assert o[..] == zero[0 := x0][1 := x1];
    ValUpdate(zero, 0, x0);
    ValUpdate(zero[0 := x0], 1, x1);
    assert Base(1) == 65536 * Base(0);
  }

  /** The first eight operations of a ladder turn: d = AA, f = BB, a = CB, c = DA. */
  method LadderProducts(w: Arith, a: array<int>, b: array<int>, c: array<int>, d: array<int>, e: array<int>,
                        f: array<int>,
                        ghost s: State)
    requires a.Length == b.Length == c.Length == d.Length == e.Length == f.Length == 16
    requires a != b && a != c && a != d && a != e && a != f && b != c && b != d && b != e && b != f
    requires c != d && c != e && c != f && d != e && d != f && e != f
    requires Loose(a[..]) && Loose(b[..]) && Loose(c[..]) && Loose(d[..])
    requires Stands(Val(a[..]), Val(c[..]), Val(b[..]), Val(d[..]), s)
    modifies a, b, c, d, e, f
    ensures Loose(a[..]) && Loose(c[..]) && Loose(d[..]) && Loose(f[..])
    ensures var m := First(s);
      Cong(Val(d[..]), m.aa) && Cong(Val(f[..]), m.bb) && Cong(Val(c[..]), m.da) && Cong(Val(a[..]), m.cb)
  {
    hide Val, Cong, Loose, Summed, First, Stands;
    ghost var x2, z2, x3, z3 := Val(a[..]), Val(c[..]), Val(b[..]), Val(d[..]);
    Add(w, e, a, c);
    Subtract(w, a, a, c);
    Add(w, c, b, d);
    Subtract(w, b, b, d);
    assert Val(e[..]) == x2 + z2 && Val(a[..]) == x2 - z2 && Val(c[..]) == x3 + z3 && Val(b[..]) == x3 - z3;
    assert Summed(e[..]) && Summed(a[..]) && Summed(c[..]) && Summed(b[..]);
    MultMod(w, d, e, e);
    MultMod(w, f, a, a);
    MultMod(w, a, c, a);
    MultMod(w, c, b, e);
    FirstHalf(x2, z2, x3, z3, s, Val(d[..]), Val(f[..]), Val(c[..]), Val(a[..]));
  }

  /** The remaining operations: a = x2, c = z2, b = x3, d = z3. */
  method LadderCombine(w: Arith, a: array<int>, b: array<int>, c: array<int>, d: array<int>, e: array<int>,
                       f: array<int>,
                       ghost m: Mid)
    requires a.Length == b.Length == c.Length == d.Length == e.Length == f.Length == 16
    requires a != b && a != c && a != d && a != e && a != f && b != c && b != d && b != e && b != f
    requires c != d && c != e && c != f && d != e && d != f && e != f
    requires Loose(a[..]) && Loose(c[..]) && Loose(d[..]) && Loose(f[..])
    requires Cong(Val(d[..]), m.aa) && Cong(Val(f[..]), m.bb) && Cong(Val(c[..]), m.da) && Cong(Val(a[..]), m.cb)
    modifies a, b, c, d, e, f
    ensures Loose(a[..]) && Loose(b[..]) && Loose(c[..]) && Loose(d[..])
    ensures var g := (m.aa - m.bb) % P;
      Cong(Val(a[..]), (m.aa * m.bb) % P) && Cong(Val(c[..]), (g * ((m.aa + A24 * g) % P)) % P)
    ensures Cong(Val(b[..]), ((m.da + m.cb) * (m.da + m.cb)) % P)
    ensures Cong(Val(d[..]), (9 * (((m.da - m.cb) * (m.da - m.cb)) % P)) % P)
  {
    ghost var da, cb := Val(c[..]), Val(a[..]);
    var n9 := Small(9, 0);
    Add(w, e, a, c);
    Subtract(w, a, a, c);
    MultMod(w, b, a, a);
    ghost var square := Val(b[..]);
    LadderDouble(w, a, c, d, f, m);
    MultMod(w, d, b, n9);
    MultMod(w, b, e, e);
    Added(da, cb, m, square, Val(b[..]));
    CongReduced(Val(b[..]), (m.da + m.cb) * (m.da + m.cb));
    TimesBase(Val(d[..]), square, 9, (m.da - m.cb) * (m.da - m.cb));
  }

  /** The doubling inside a ladder turn: from d = AA and f = BB to a = x2 and c = z2. */
  method LadderDouble(w: Arith, a: array<int>, c: array<int>, d: array<int>, f: array<int>, ghost m: Mid)
    requires a.Length == c.Length == d.Length == f.Length == 16
    requires a != c && a != d && a != f && c != d && c != f && d != f
    requires Loose(d[..]) && Loose(f[..])
    requires Cong(Val(d[..]), m.aa) && Cong(Val(f[..]), m.bb)
    modifies a, c
    ensures Loose(a[..]) && Loose(c[..])
    ensures var g := (m.aa - m.bb) % P;
      Cong(Val(a[..]), (m.aa * m.bb) % P) && Cong(Val(c[..]), (g * ((m.aa + A24 * g) % P)) % P)
  {
    ghost var aa, bb := Val(d[..]), Val(f[..]);
    var n121665 := Small(0xdb41, 1);
    Subtract(w, c, d, f);
    MultMod(w, a, c, n121665);
    ghost var scaled := Val(a[..]);
    Add(w, a, a, d);
    MultMod(w, c, c, a);
    MultMod(w, a, d, f);
    Doubled(aa, bb, m, scaled, Val(a[..]), Val(c[..]));
  }

  /** The four arrays hold the state s once its pending swap is carried out. */
  ghost predicate Tracks(a: seq<int>, b: seq<int>, c: seq<int>, d: seq<int>, s: State) {
    var u := Rfc7748.CSwap(s);
    Loose(a) && Loose(b) && Loose(c) && Loose(d) && Stands(Val(a), Val(c), Val(b), Val(d), u)
  }

  /** One turn of the ladder: swap, double and add, swap back. */
  method LadderStep(w: Arith, a: array<int>, b: array<int>, c: array<int>, d: array<int>, e: array<int>,
                    f: array<int>, r: int,
                    ghost s: State)
    requires a.Length == b.Length == c.Length == d.Length == e.Length == f.Length == 16
    requires a != b && a != c && a != d && a != e && a != f && b != c && b != d && b != e && b != f
    requires c != d && c != e && c != f && d != e && d != f && e != f
    requires (r == 0 || r == 1) && (s.swap == 0 || s.swap == 1)
    requires Tracks(a[..], b[..], c[..], d[..], s)
    modifies a, b, c, d, e, f
    ensures Tracks(a[..], b[..], c[..], d[..], Step(s, r, 9))
  {
    hide Val, Cong, DoubleAdd;
    ghost var u := Rfc7748.CSwap(s.(swap := (s.swap + r) % 2));
    CSwap(w, a, b, r);
    CSwap(w, c, d, r);
    LadderFormulas(w, a, b, c, d, e, f, u);
    CSwap(w, a, b, r);
    CSwap(w, c, d, r);
  }

  /** The double-and-add formulas on the arrays. */
  method LadderFormulas(w: Arith, a: array<int>, b: array<int>, c: array<int>, d: array<int>, e: array<int>,
                        f: array<int>,
                        ghost u: State)
    requires a.Length == b.Length == c.Length == d.Length == e.Length == f.Length == 16
    requires a != b && a != c && a != d && a != e && a != f && b != c && b != d && b != e && b != f
    requires c != d && c != e && c != f && d != e && d != f && e != f
    requires Loose(a[..]) && Loose(b[..]) && Loose(c[..]) && Loose(d[..])
    requires Stands(Val(a[..]), Val(c[..]), Val(b[..]), Val(d[..]), u)
    modifies a, b, c, d, e, f
    ensures Loose(a[..]) && Loose(b[..]) && Loose(c[..]) && Loose(d[..])
    ensures Stands(Val(a[..]), Val(c[..]), Val(b[..]), Val(d[..]), DoubleAdd(u, 9))
  {
    hide Val, Cong, Loose, First, DoubleAdd;
    LadderProducts(w, a, b, c, d, e, f, u);
    LadderCombine(w, a, b, c, d, e, f, First(u));
    DoubleAddParts(u, 9);
  }

  function ClampLast(x: Byte): (r: Byte)
    ensures r == x % 64 + 64
  {
    ClampTopByte(31, x);
    hide And, Or;
    Or(31, And(31, x, 127), 64)
  }

  function ClampFirst(x: Byte): (r: Byte)
    ensures r == x - x % 8
  {
    ClampLowByte(31, x);
    hide And, Fits;
    And(31, x, 248)
  }

  /** Clamping the bytes of a key decodes the scalar of section 5 of RFC 7748. */
  method ClampKey(w: Arith, z: array<Byte>)
    requires z.Length == 32
    modifies z
    ensures LittleEndian(z[..]) == DecodeScalar(old(z[..]))
  {
    ghost var k := z[..];
    z[31], z[0] := ClampLast(z[31]), ClampFirst(z[0]);
    assert z[..] == ClampedBytes(k);
  }

  /** wg_generate_public_key: the X25519 public key of section 6.1 of RFC 7748. */
  method GeneratePublicKey(w: Arith, publicKey: array<Byte>, privateKey: array<Byte>)
    requires publicKey.Length == privateKey.Length == 32
    modifies publicKey
    ensures publicKey[..] == Encode(X25519(DecodeScalar(old(privateKey[..])), 9), 32)
  {
    ghost var secret := privateKey[..];
    ghost var scalar := DecodeScalar(secret);
    var z := new Byte[32];
    forall k | 0 <= k < 32 {
      z[k] := privateKey[k];
    }
    assert z[..] == secret;
    ClampKey(w, z);
    var a, c := RunLadder(w, z, scalar);
    Finish(w, publicKey, a, c, Rfc7748.CSwap(Ladder(scalar, 9, 0)));
  }

  /** All 255 turns of the ladder over the bits of z, top bit first. */
  method RunLadder(w: Arith, z: array<Byte>, ghost scalar: nat) returns (a: array<int>, c: array<int>)
    requires z.Length == 32 && LittleEndian(z[..]) == scalar
    ensures fresh(a) && fresh(c) && a != c && a.Length == c.Length == 16
    ensures Loose(a[..]) && Loose(c[..])
    ensures var u := Rfc7748.CSwap(Ladder(scalar, 9, 0)); Cong(Val(a[..]), u.x2) && Cong(Val(c[..]), u.z2)
  {
    hide Val, Loose, LittleEndian, Ladder, Tracks, Cong, Rfc7748.CSwap, Step;
    a := Small(1, 0);
    var b := Small(9, 0);
    c := Small(0, 0);
    var d := Small(1, 0);
    var e, f := new int[16], new int[16];
    ghost var key := z[..];
    LadderStart(a[..], b[..], c[..], d[..], scalar);
    for i := 255 downto 0
      invariant z[..] == key && fresh(a) && fresh(c)
      invariant Ladder(scalar, 9, i).swap < 2
      invariant Tracks(a[..], b[..], c[..], d[..], Ladder(scalar, 9, i))
    {
      var r := ScalarBit(z, i);
      LadderNext(scalar, i);
      LadderStep(w, a, b, c, d, e, f, r, Ladder(scalar, 9, i + 1));
    }
    LadderEnd(a[..], b[..], c[..], d[..], Ladder(scalar, 9, 0));
  }

  lemma {:induction false} LadderStart(a: seq<int>, b: seq<int>, c: seq<int>, d: seq<int>, scalar: nat)
    requires Loose(a) && Loose(b) && Loose(c) && Loose(d) && Val(a) == 1 && Val(b) == 9 && Val(c) == 0 && Val(d) == 1
    ensures Tracks(a, b, c, d, Ladder(scalar, 9, 255)) && Ladder(scalar, 9, 255).swap == 0
  {
    hide Val, Loose;
    CongRefl(0);
    CongRefl(1);
    CongRefl(9);
  }

  lemma {:induction false} LadderNext(scalar: nat, i: nat)
    requires i < 255 && Ladder(scalar, 9, i + 1).swap < 2
    ensures Ladder(scalar, 9, i) == Step(Ladder(scalar, 9, i + 1), Bit(scalar, i), 9) && Ladder(scalar, 9, i).swap < 2
  {
    hide DoubleAdd, Bit;
  }

  lemma {:induction false} LadderEnd(a: seq<int>, b: seq<int>, c: seq<int>, d: seq<int>, s: State)
    requires Tracks(a, b, c, d, s)
    ensures var u := Rfc7748.CSwap(s); Loose(a) && Loose(c) && Cong(Val(a), u.x2) && Cong(Val(c), u.z2)
  {
    hide Val, Loose, Cong;
  }

  /** (z[i >> 3] >> (i & 7)) & 1 is bit i of the scalar. */
  method ScalarBit(z: array<Byte>, i: nat) returns (r: nat)
    requires z.Length == 32 && i < 256
    ensures r == Bit(LittleEndian(z[..]), i)
  {
    BitOfByte(z[..], i);
    r := (z[i / 8] / Pow2(i % 8)) % 2;
  }

  /** x2 * z2^(p-2), encoded. */
  method Finish(w: Arith, publicKey: array<Byte>, a: array<int>, c: array<int>, ghost u: State)
    requires publicKey.Length == 32 && a.Length == c.Length == 16 && a != c
    requires Loose(a[..]) && Loose(c[..]) && Cong(Val(a[..]), u.x2) && Cong(Val(c[..]), u.z2)
    modifies publicKey, a, c
    ensures publicKey[..] == Encode((u.x2 * Pow(u.z2, P - 2)) % P, 32)
  {
    ghost var x, y := Val(a[..]), Val(c[..]);
    ghost var power := Pow(u.z2, P - 2);
    Invert(w, c, c);
    PowCong(y, u.z2, P - 2);
    ghost var inverse := Val(c[..]);
    CongTrans(inverse, Pow(y, P - 2), power);
    MultMod(w, a, a, c);
    CongMul(x, u.x2, inverse, power);
    CongTrans(Val(a[..]), x * inverse, u.x2 * power);
    CongIs(Val(a[..]), u.x2 * power);
    Pack(w, publicKey, a);
  }
}
