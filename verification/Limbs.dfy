/** Integers held as little-endian sequences of signed 16-bit limbs, and
    congruence modulo the field prime p = 2^255 - 19. */
module Limbs {
  import opened Bits

  const P: int := 0x7fffffff_ffffffff_ffffffff_ffffffff_ffffffff_ffffffff_ffffffff_ffffffed

  /** Always true; mentioning both is what brings a congruence into a proof, so that
      polynomials modulo p are not unfolded anywhere else. */
  ghost predicate Given(t: int, x: int, y: int) {
    true
  }

  ghost predicate Wanted(t: int, x: int, y: int) {
    true
  }

  /** Same residue modulo p. */
  ghost predicate Cong(x: int, y: int) {
    exists k {:trigger Wanted(k, x, y)} :: Wanted(k, x, y)
      && forall t {:trigger Given(t, x, y)} :: Given(t, x, y) ==> x % P == y % P
  }

  lemma CongIs(x: int, y: int)
    ensures Cong(x, y) <==> x % P == y % P
  {
    assert Given(0, x, y) && Wanted(0, x, y);
  }

  lemma CongRefl(x: int)
    ensures Cong(x, x)
  {
    CongIs(x, x);
  }

  lemma CongSym(x: int, y: int)
    requires Cong(x, y)
    ensures Cong(y, x)
  {
    CongIs(x, y);
    CongIs(y, x);
  }

  lemma CongTrans(x: int, y: int, z: int)
    requires Cong(x, y) && Cong(y, z)
    ensures Cong(x, z)
  {
    hide Cong;
    CongIs(x, y);
    CongIs(y, z);
    CongIs(x, z);
  }

  lemma CongBoth(x: int, y: int, z: int)
    requires Cong(x, y) && Cong(x, z)
    ensures Cong(y, z)
  {
    hide Cong;
    CongSym(x, y);
    CongTrans(y, x, z);
  }

  function Base(i: nat): (r: int)
    ensures r > 0
  {
    if i == 0 then 1 else 65536 * Base(i - 1)
  }

  /** The integer a limb sequence stands for; limbs may be negative or oversized. */
  function Val(s: seq<int>): int {
    if |s| == 0 then 0 else s[0] + 65536 * Val(s[1..])
  }

  predicate AllWithin(s: seq<int>, lo: int, hi: int) {
    forall k :: 0 <= k < |s| ==> lo <= s[k] <= hi
  }

  /** What every product leaves behind: sixteen limbs that are at most 38 out of range. */
  predicate Loose(s: seq<int>) {
    |s| == 16 && AllWithin(s, -38, 65573)
  }

  /** A sum or difference of two loose elements: what a product accepts. */
  predicate Summed(s: seq<int>) {
    |s| == 16 && AllWithin(s, -131146, 131146)
  }

  /** Sixteen proper 16-bit digits. */
  predicate Digits(s: seq<int>) {
    |s| == 16 && AllWithin(s, 0, 65535)
  }

  //
  // Modular arithmetic
  //

  lemma ModShift(x: int, k: int, m: int)
    requires m > 0
    ensures (x + m * k) % m == x % m
  {
    DivModUnique(x + m * k, m, x / m + k, x % m);
  }

  lemma CongIntro(x: int, y: int, k: int)
    requires x == y + P * k
    ensures Cong(x, y)
  {
    ModShift(y, k, P);
    CongIs(x, y);
  }

  lemma CongMul(a: int, a': int, b: int, b': int)
    requires Cong(a, a') && Cong(b, b')
    ensures Cong(a * b, a' * b')
  {
    CongIs(a, a');
    CongIs(b, b');
    ModMul(a, a', b, b', P);
    CongIs(a * b, a' * b');
  }

  lemma ModMul(a: int, a': int, b: int, b': int, m: int)
    requires m > 0 && a % m == a' % m && b % m == b' % m
    ensures (a * b) % m == (a' * b') % m
  {
    ModMulLeft(a, a', b, m);
    ModMulLeft(b, b', a', m);
    assert a' * b == b * a' && a' * b' == b' * a';
  }

  lemma ModMulLeft(a: int, a': int, b: int, m: int)
    requires m > 0 && a % m == a' % m
    ensures (a * b) % m == (a' * b) % m
  {
    var k := a / m - a' / m;
    assert a == a' + m * k;
    assert a * b == a' * b + m * (k * b) by { Distribute(a', m, k, b); }
    ModShift(a' * b, k * b, m);
  }

  lemma Distribute(x: int, m: int, k: int, b: int)
    ensures (x + m * k) * b == x * b + m * (k * b)
  {
  }

  lemma CongAdd(a: int, a': int, b: int, b': int)
    requires Cong(a, a') && Cong(b, b')
    ensures Cong(a + b, a' + b')
    ensures Cong(a - b, a' - b')
  {
    CongIs(a, a');
    CongIs(b, b');
    ModAdd(a, a', b, b', P);
    CongIs(a + b, a' + b');
    CongIs(a - b, a' - b');
  }

  lemma ModAdd(a: int, a': int, b: int, b': int, m: int)
    requires m > 0 && a % m == a' % m && b % m == b' % m
    ensures (a + b) % m == (a' + b') % m
    ensures (a - b) % m == (a' - b') % m
  {
    var k, l := a / m - a' / m, b / m - b' / m;
    assert a == a' + m * k && b == b' + m * l;
    assert a + b == (a' + b') + m * (k + l);
    assert a - b == (a' - b') + m * (k - l);
    ModShift(a' + b', k + l, m);
    ModShift(a' - b', k - l, m);
  }

  //
  // Limb sequences
  //

  lemma {:induction false} BaseAdd(i: nat, j: nat)
    ensures Base(i + j) == Base(i) * Base(j)
  {
    if i > 0 {
      BaseAdd(i - 1, j);
      calc {
        Base(i + j);
        65536 * Base(i + j - 1);
        65536 * (Base(i - 1) * Base(j));
        (65536 * Base(i - 1)) * Base(j);
      }
    }
  }

  /** 2^256 = 2p + 38: the identity behind every wrap-around of the top limb. */
  lemma Base16()
    ensures Base(4) == 0x1_0000_0000_0000_0000
    ensures Base(16) == 2 * P + 38
  {
    assert Base(4) == 0x1_0000_0000_0000_0000 by {
      assert Base(2) == 0x1_0000_0000;
    }
    BaseAdd(4, 4);
    BaseAdd(8, 8);
  }

  /** Changing limb i by d changes the value by d * 2^(16 i). */
  lemma {:induction false} ValUpdate(s: seq<int>, i: nat, v: int)
    requires i < |s|
    ensures Val(s[i := v]) == Val(s) + (v - s[i]) * Base(i)
  {
    var t := s[i := v];
    if i == 0 {
      assert t[1..] == s[1..];
    } else {
      assert t[1..] == s[1..][i - 1 := v];
      ValUpdate(s[1..], i - 1, v);
      var d := v - s[i];
      assert d * Base(i) == 65536 * (d * Base(i - 1));
    }
  }

  lemma {:induction false} ValSplit(s: seq<int>, k: nat)
    requires k <= |s|
    ensures Val(s) == Val(s[..k]) + Base(k) * Val(s[k..])
  {
    if k == 0 {
      assert s[..0] == [] && s[0..] == s;
    } else {
      ValSplit(s[1..], k - 1);
      assert s[..k][1..] == s[1..][..k - 1] && s[1..][k - 1..] == s[k..];
      var v := Val(s[k..]);
      assert Base(k) * v == 65536 * (Base(k - 1) * v);
    }
  }

  lemma ValSnoc(s: seq<int>, k: nat)
    requires k < |s|
    ensures Val(s[..k + 1]) == Val(s[..k]) + s[k] * Base(k)
  {
    var t := s[..k + 1];
    ValSplit(t, k);
    assert t[..k] == s[..k] && t[k..] == [s[k]];
    assert Val([s[k]]) == s[k];
  }

  lemma {:induction false} ValZero(s: seq<int>)
    requires AllWithin(s, 0, 0)
    ensures Val(s) == 0
  {
    if |s| > 0 {
      ValZero(s[1..]);
    }
  }

  /** Limb-wise sums and differences add and subtract values. */
  lemma {:induction false} ValLinear(a: seq<int>, b: seq<int>, o: seq<int>, sign: int)
    requires |a| == |b| == |o|
    requires forall k :: 0 <= k < |o| ==> o[k] == a[k] + sign * b[k]
    ensures Val(o) == Val(a) + sign * Val(b)
  {
    if |o| > 0 {
      ValLinear(a[1..], b[1..], o[1..], sign);
      var v := Val(b[1..]);
      assert sign * (b[0] + 65536 * v) == sign * b[0] + 65536 * (sign * v);
    }
  }

  /** Proper digits stand for a number below the base power, and only one digit string does. */
  lemma {:induction false} ValRange(s: seq<int>)
    requires AllWithin(s, 0, 65535)
    ensures 0 <= Val(s) < Base(|s|)
  {
    if |s| > 0 {
      ValRange(s[1..]);
    }
  }

  //
  // Carrying: limb k passes floor(limb / 2^16) to limb k+1, limb 15 passes 38 times it to limb 0
  //

  /** What limb k receives from the limbs below it. */
  function CarryIn(s: seq<int>, k: nat): int
    requires k <= |s|
  {
    if k == 0 then 0 else (s[k - 1] + CarryIn(s, k - 1)) / 65536
  }

  function Masked(s: seq<int>): (r: seq<int>)
    ensures |r| == |s|
  {
    seq(|s|, k requires 0 <= k < |s| => (s[k] + CarryIn(s, k)) % 65536)
  }

  /** One pass of carries over sixteen limbs. */
  function Carried(s: seq<int>): (r: seq<int>)
    requires |s| == 16
    ensures |r| == 16
  {
    Masked(s)[0 := s[0] % 65536 + 38 * CarryIn(s, |s|)]
  }

  /** The limbs after the first i turns of the carry loop. */
  function CarriedUpTo(s: seq<int>, i: nat): (r: seq<int>)
    requires |s| == 16 && i <= 16
    ensures |r| == 16
  {
    if i == 16 then Carried(s)
    else seq(16, k requires 0 <= k < 16 =>
           if k < i then Masked(s)[k] else if k == i then s[k] + CarryIn(s, k) else s[k])
  }

  /** A turn of the carry loop on limb i. */
  function CarryTurn(u: seq<int>, i: nat): (r: seq<int>)
    requires |u| == 16 && i < 16
  {
    var j := (i + 1) % 16;
    u[j := u[j] + (if i == 15 then 38 else 1) * (u[i] / 65536)][i := u[i] % 65536]
  }

  lemma CarryTurnStep(s: seq<int>, i: nat)
    requires |s| == 16 && i < 16
    ensures CarriedUpTo(s, i)[i] == s[i] + CarryIn(s, i)
    ensures CarryTurn(CarriedUpTo(s, i), i) == CarriedUpTo(s, i + 1)
  {
    var u := CarriedUpTo(s, i);
    assert CarryIn(s, i + 1) == u[i] / 65536;
    if i == 15 {
      assert |s| == i + 1;
      assert u[0] == s[0] % 65536;
    }
  }

  lemma {:induction false} MaskedVal(s: seq<int>, k: nat)
    requires k <= |s|
    ensures Val(Masked(s)[..k]) == Val(s[..k]) - CarryIn(s, k) * Base(k)
  {
    var m := Masked(s);
    if k == 0 {
      assert m[..0] == [] && s[..0] == [];
    } else {
      MaskedVal(s, k - 1);
      ValSnoc(m, k - 1);
      ValSnoc(s, k - 1);
      SplitLimb(s[k - 1], CarryIn(s, k - 1), CarryIn(s, k), m[k - 1], Base(k - 1));
    }
  }

  lemma SplitLimb(x: int, c: int, q: int, r: int, b: int)
    requires x + c == 65536 * q + r
    ensures r * b == x * b + c * b - q * (65536 * b)
  {
    assert (65536 * q + r) * b == q * (65536 * b) + r * b;
    assert (x + c) * b == x * b + c * b;
  }

  lemma TopCarry(q: int)
    ensures q * Base(16) == 2 * P * q + 38 * q
  {
    Base16();
  }

  lemma {:induction false} MaskedTotal(s: seq<int>)
    requires |s| == 16
    ensures Val(Masked(s)) == Val(s) - CarryIn(s, |s|) * Base(16)
  {
    hide Val, Base, CarryIn;
    MaskedVal(s, |s|);
    assert Masked(s)[..|s|] == Masked(s) && s[..|s|] == s;
  }

  lemma {:induction false} CarriedIs(s: seq<int>)
    requires |s| == 16
    ensures Val(Carried(s)) == Val(Masked(s)) + 38 * CarryIn(s, |s|)
  {
    var m, x := Masked(s), s[0] % 65536 + 38 * CarryIn(s, |s|);
    assert m[0] == s[0] % 65536 && Base(0) == 1;
    hide Val, Base, CarryIn, Masked;
    ValUpdate(m, 0, x);
  }

  /** A carry pass takes a multiple of 2p off the value. */
  lemma {:induction false} CarriedVal(s: seq<int>)
    requires |s| == 16
    ensures Val(Carried(s)) == Val(s) - P * (2 * CarryIn(s, |s|))
  {
    hide Val, Base, CarryIn, Masked, Carried;
    MaskedTotal(s);
    CarriedIs(s);
    TopCarry(CarryIn(s, |s|));
  }

  lemma {:induction false} CarriedCong(s: seq<int>)
    requires |s| == 16
    ensures Cong(Val(Carried(s)), Val(s))
  {
    CarriedVal(s);
    CongIntro(Val(s), Val(Carried(s)), 2 * CarryIn(s, |s|));
    CongSym(Val(s), Val(Carried(s)));
  }

  /** The carries stay small: |limbs| <= 2^62 pass on little more than 2^46. */
  lemma {:induction false} CarryInBound(s: seq<int>, k: nat)
    requires k <= |s| && AllWithin(s, -0x4000_0000_0000_0000, 0x4000_0000_0000_0000)
    ensures -0x4000_8000_0000 <= CarryIn(s, k) <= 0x4000_8000_0000
  {
    if k > 0 {
      CarryInBound(s, k - 1);
    }
  }

  /** Only limb 0 is out of range, and by at most 2^52. */
  predicate LowLimbWide(s: seq<int>) {
    |s| == 16 && -0x10_0000_0000_0000 <= s[0] <= 0x10_0000_0000_0000 && AllWithin(s[1..], 0, 65535)
  }

  /** Only limb 0 is out of range, and by at most 38. */
  predicate LowLimbLoose(s: seq<int>) {
    |s| == 16 && -38 <= s[0] <= 65573 && AllWithin(s[1..], 0, 65535)
  }

  lemma FirstCarry(s: seq<int>)
    requires |s| == 16 && AllWithin(s, -0x4000_0000_0000_0000, 0x4000_0000_0000_0000)
    ensures LowLimbWide(Carried(s))
  {
    CarryInBound(s, |s|);
    assert forall k :: 0 <= k < 15 ==> Carried(s)[1..][k] == Masked(s)[k + 1];
  }

  /** From limb 3 on a wide limb 0 is felt as at most one unit either way. */
  lemma {:induction false} SmallCarryIn(s: seq<int>, k: nat)
    requires LowLimbWide(s) && 4 <= k <= 16
    ensures -1 <= CarryIn(s, k) <= 1
  {
    var s1, s2, s3, sk := s[1..][0], s[1..][1], s[1..][2], s[1..][k - 2];
    if k == 4 {
      assert s1 == s[1] && s2 == s[2] && s3 == s[3];
      assert CarryIn(s, 1) == s[0] / 65536;
      assert -0x40_0000_0000 <= CarryIn(s, 1) <= 0x40_0000_0000;
      assert -0x40_0000 <= CarryIn(s, 2) <= 0x40_0001;
      assert -64 <= CarryIn(s, 3) <= 65;
    } else {
      SmallCarryIn(s, k - 1);
      assert sk == s[k - 1];
    }
  }

  lemma SecondCarry(s: seq<int>)
    requires LowLimbWide(s)
    ensures LowLimbLoose(Carried(s))
  {
    SmallCarryIn(s, |s|);
    assert forall k :: 0 <= k < 15 ==> Carried(s)[1..][k] == Masked(s)[k + 1];
  }

  /** With limb 0 at most 38 out of range, the carry leaving the top has the sign of the one leaving limb 0. */
  lemma {:induction false} SignedCarryIn(s: seq<int>, k: nat)
    requires LowLimbLoose(s) && 1 <= k <= 16
    ensures -1 <= CarryIn(s, k) <= 1
    ensures CarryIn(s, k) == 1 ==> s[0] >= 65536
    ensures CarryIn(s, k) == -1 ==> s[0] < 0
  {
    if k > 1 {
      SignedCarryIn(s, k - 1);
      assert s[1..][k - 2] == s[k - 1];
    }
  }

  lemma ThirdCarry(s: seq<int>)
    requires LowLimbLoose(s)
    ensures Digits(Carried(s))
  {
    SignedCarryIn(s, |s|);
  }

  //
  // Schoolbook multiplication into 31 columns, then folding the high columns with 2^256 = 38 (mod p)
  //

  const LIMIT: int := 131146
  const PRODUCT: int := 131146 * 131146

  /** Column sums after i full rows and j entries of row i. */
  ghost predicate Columns(t: seq<int>, a: seq<int>, b: seq<int>, i: nat, j: nat) {
    |t| == 31 && Summed(a) && Summed(b) && i < 16 && j <= 16
    && Val(t) == Val(a[..i]) * Val(b) + a[i] * Base(i) * Val(b[..j])
    && RowBound(t, i, j)
  }

  lemma ProductBound(x: int, y: int)
    requires -LIMIT <= x <= LIMIT && -LIMIT <= y <= LIMIT
    ensures -PRODUCT <= x * y <= PRODUCT
  {
    MulNonnegative(LIMIT - x, LIMIT + y);
    MulNonnegative(LIMIT + x, LIMIT - y);
    MulNonnegative(LIMIT - x, LIMIT - y);
    MulNonnegative(LIMIT + x, LIMIT + y);
  }

  /** Adding one product to its column moves one entry along the row. */
  lemma ColumnsStep(t: seq<int>, a: seq<int>, b: seq<int>, i: nat, j: nat)
    requires Columns(t, a, b, i, j) && j < 16
    ensures Columns(t[i + j := t[i + j] + a[i] * b[j]], a, b, i, j + 1)
  {
    hide Val, Base, RowBound;
    var x := a[i] * b[j];
    var t' := t[i + j := t[i + j] + x];
    assert Val(t') == Val(a[..i]) * Val(b) + a[i] * Base(i) * Val(b[..j + 1]) by {
      ValUpdate(t, i + j, t[i + j] + x);
      BaseAdd(i, j);
      ValSnoc(b, j);
      RowEntry(a[i], b[j], Base(i), Base(j), Val(b[..j]));
    }
    ProductBound(a[i], b[j]);
    StepBounds(t, i, j, x);
  }

  ghost predicate RowBound(t: seq<int>, i: nat, j: nat) {
    |t| == 31 && forall k :: 0 <= k < 31 ==>
         var rows := if i <= k < i + j then i + 1 else i;
         -rows * PRODUCT <= t[k] <= rows * PRODUCT
  }

  lemma StepBounds(t: seq<int>, i: nat, j: nat, x: int)
    requires i < 16 && j < 16 && RowBound(t, i, j) && -PRODUCT <= x <= PRODUCT
    ensures RowBound(t[i + j := t[i + j] + x], i, j + 1)
  {
  }

  lemma RowEntry(x: int, y: int, bi: int, bj: int, v: int)
    ensures x * bi * (v + y * bj) == x * bi * v + (x * y) * (bi * bj)
  {
    assert x * bi * (y * bj) == (x * y) * (bi * bj);
  }

  /** A finished row starts the next one. */
  lemma {:induction false} ColumnsRow(t: seq<int>, a: seq<int>, b: seq<int>, i: nat)
    requires Columns(t, a, b, i, 16)
    ensures i + 1 < 16 ==> Columns(t, a, b, i + 1, 0)
    ensures i + 1 == 16 ==> Val(t) == Val(a) * Val(b) && AllWithin(t, -16 * PRODUCT, 16 * PRODUCT)
  {
    assert Val(t) == Val(a[..i + 1]) * Val(b) by {
      assert b[..16] == b;
      ValSnoc(a, i);
      RowTotal(Val(a[..i]), a[i], Base(i), Val(b));
    }
    RowDoneBounds(t, i);
    if i + 1 == 16 {
      assert a[..i + 1] == a;
    } else {
      assert Val(b[..0]) == 0;
    }
  }

  lemma RowDoneBounds(t: seq<int>, i: nat)
    requires i < 16 && RowBound(t, i, 16)
    ensures RowBound(t, i + 1, 0)
    ensures i + 1 == 16 ==> AllWithin(t, -16 * PRODUCT, 16 * PRODUCT)
  {
  }

  lemma RowTotal(u: int, x: int, bi: int, v: int)
    ensures (u + x * bi) * v == u * v + x * bi * v
  {
  }

  /** The low sixteen columns once the first i high columns have been folded in. */
  function Folded(t: seq<int>, i: nat): (r: seq<int>)
    requires |t| == 31 && i <= 15
    ensures |r| == 31
  {
    seq(31, k requires 0 <= k < 31 => if k < i then t[k] + 38 * t[k + 16] else t[k])
  }

  lemma {:induction false} FoldedVal(t: seq<int>, i: nat)
    requires |t| == 31 && i <= 15
    ensures Val(Folded(t, i)[..16]) == Val(t[..16]) + 38 * Val(t[16..][..i])
  {
    var hi := t[16..];
    if i == 0 {
      assert Folded(t, 0) == t && hi[..0] == [];
    } else {
      FoldedVal(t, i - 1);
      var before := Folded(t, i - 1)[..16];
      assert Folded(t, i)[..16] == before[i - 1 := t[i - 1] + 38 * t[i + 15]];
      ValUpdate(before, i - 1, t[i - 1] + 38 * t[i + 15]);
      ValSnoc(hi, i - 1);
      assert hi[i - 1] == t[i + 15];
      var b := Base(i - 1);
      assert (38 * t[i + 15]) * b == 38 * (t[i + 15] * b);
    }
  }

  lemma {:induction false} FoldedCong(t: seq<int>)
    requires |t| == 31
    ensures Cong(Val(Folded(t, 15)[..16]), Val(t))
  {
    FoldedVal(t, 15);
    var hi := t[16..];
    assert hi[..15] == hi;
    ValSplit(t, 16);
    Base16();
    var v := Val(hi);
    assert Base(16) * v == P * (2 * v) + 38 * v;
    CongIntro(Val(t), Val(Folded(t, 15)[..16]), 2 * v);
    CongSym(Val(t), Val(Folded(t, 15)[..16]));
  }

  //
  // Subtracting p from proper digits with a running borrow
  //

  function PrimeLimb(k: nat): int {
    if k == 0 then 0xffed else if k == 15 then 0x7fff else 0xffff
  }

  /** The limbs of t - p before any borrow. */
  function MinusPrime(t: seq<int>): (r: seq<int>)
    requires |t| == 16
    ensures |r| == 16
  {
    seq(16, k requires 0 <= k < 16 => t[k] - PrimeLimb(k))
  }

  lemma PrimeLimbsVal()
    ensures Val(seq(16, k requires 0 <= k < 16 => PrimeLimb(k))) == P
  {
    var p := seq(16, k requires 0 <= k < 16 => PrimeLimb(k));
    var ones := [0xffff, 0xffff, 0xffff, 0xffff];
    assert p[..4] == [0xffed, 0xffff, 0xffff, 0xffff] && p[4..][..4] == ones;
    assert p[8..][..4] == ones && p[12..] == [0xffff, 0xffff, 0xffff, 0x7fff];
    assert p[4..][4..] == p[8..] && p[8..][4..] == p[12..];
    ValSplit(p, 4);
    ValSplit(p[4..], 4);
    ValSplit(p[8..], 4);
    Base16();
    ValFour(0xffed, 0xffff, 0xffff, 0xffff);
    ValFour(0xffff, 0xffff, 0xffff, 0xffff);
    ValFour(0xffff, 0xffff, 0xffff, 0x7fff);
  }

  lemma ValFour(a: int, b: int, c: int, d: int)
    ensures Val([a, b, c, d]) == a + 65536 * b + 0x1_0000_0000 * c + 0x1_0000_0000_0000 * d
  {
    assert [a, b, c, d][1..] == [b, c, d] && [b, c, d][1..] == [c, d] && [c, d][1..] == [d] && [d][1..] == [];
    assert Val([d]) == d;
    assert Val([c, d]) == c + 65536 * d;
    assert Val([b, c, d]) == b + 65536 * Val([c, d]);
  }

  lemma {:induction false} MinusPrimeVal(t: seq<int>)
    requires |t| == 16
    ensures Val(MinusPrime(t)) == Val(t) - P
  {
    var p := seq(16, k requires 0 <= k < 16 => PrimeLimb(k));
    PrimeLimbsVal();
    ValLinear(t, p, MinusPrime(t), -1);
  }

  /** Carrying below the top limb does not change the value. */
  lemma {:induction false} CarriedUpToVal(s: seq<int>, i: nat)
    requires |s| == 16 && i < 16
    ensures Val(CarriedUpTo(s, i)) == Val(s)
  {
    var u := CarriedUpTo(s, i);
    CarriedLow(s, i);
    CarriedHigh(s, i);
    ValSplit(u, i);
    ValSplit(s, i);
    CancelCarry(Val(u), Val(u[..i]), Val(u[i..]), Val(s), Val(s[..i]), Val(s[i..]), Base(i), CarryIn(s, i));
  }

  lemma {:induction false} CarriedLow(s: seq<int>, i: nat)
    requires |s| == 16 && i < 16
    ensures Val(CarriedUpTo(s, i)[..i]) == Val(s[..i]) - CarryIn(s, i) * Base(i)
  {
    MaskedVal(s, i);
    assert CarriedUpTo(s, i)[..i] == Masked(s)[..i];
  }

  lemma {:induction false} CarriedHigh(s: seq<int>, i: nat)
    requires |s| == 16 && i < 16
    ensures Val(CarriedUpTo(s, i)[i..]) == Val(s[i..]) + CarryIn(s, i)
  {
    var tail, c := s[i..], CarryIn(s, i);
    assert CarriedUpTo(s, i)[i..] == tail[0 := s[i] + c];
    ValUpdate(tail, 0, s[i] + c);
    assert Base(0) == 1;
  }

  lemma CancelCarry(vu: int, lowU: int, highU: int, vs: int, low: int, high: int, b: int, c: int)
    requires vu == lowU + b * highU && vs == low + b * high
    requires lowU == low - c * b && highU == high + c
    ensures vu == vs
  {
    assert b * (high + c) == b * high + c * b;
  }

  /** Limb i takes the carry of limb i - 1, which is trimmed. */
  lemma CarriedPrefix(s: seq<int>, i: nat)
    requires |s| == 16 && 1 <= i < 16
    ensures var u := CarriedUpTo(s, i - 1);
      CarriedUpTo(s, i)[..i + 1] == (u[..i] + [s[i] + u[i - 1] / 65536])[i - 1 := u[i - 1] % 65536]
  {
    hide CarryIn, Masked, Carried;
    CarryTurnStep(s, i - 1);
    assert CarriedUpTo(s, i - 1)[i] == s[i];
    hide CarriedUpTo;
    var u := CarriedUpTo(s, i - 1);
    assert CarryTurn(u, i - 1)[..i + 1] == (u[..i] + [s[i] + u[i - 1] / 65536])[i - 1 := u[i - 1] % 65536];
  }

  /** The limb below the one being subtracted from, and that one. */
  lemma BorrowRange(t: seq<int>, i: nat)
    requires Digits(t) && 1 <= i < 16
    ensures var s := MinusPrime(t);
      s[i] == t[i] - PrimeLimb(i) && 0 <= t[i] <= 65535 && -65536 <= CarriedUpTo(s, i - 1)[i - 1] <= 65535
  {
    BorrowIsBit(t, i - 1);
  }

  lemma {:induction false} BorrowIsBit(t: seq<int>, k: nat)
    requires Digits(t) && k <= 15
    ensures -1 <= CarryIn(MinusPrime(t), k) <= 0
  {
    if k > 0 {
      BorrowIsBit(t, k - 1);
    }
  }

  /** The top limb after the borrows tells whether p fitted. */
  lemma {:induction false} TopLimbSign(t: seq<int>)
    requires Digits(t)
    ensures var m := CarriedUpTo(MinusPrime(t), 15);
      -32768 <= m[15] <= 32768 && (m[15] < 0 <==> Val(t) < P)
      && (m[15] >= 0 ==> Digits(m)) && Val(m) == Val(t) - P
  {
    var s := MinusPrime(t);
    var m := CarriedUpTo(s, 15);
    BorrowIsBit(t, 15);
    MinusPrimeVal(t);
    CarriedUpToVal(s, 15);
    SignOfTop(m);
  }

  lemma {:induction false} SignOfTop(m: seq<int>)
    requires |m| == 16 && AllWithin(m[..15], 0, 65535)
    ensures m[15] < 0 <==> Val(m) < 0
  {
    hide Val, Base;
    var k := |m| - 1;
    var low, top, b := Val(m[..k]), m[k], Base(k);
    assert 0 <= low < b by { ValRange(m[..k]); }
    assert Val(m) == low + top * b by {
      ValSnoc(m, k);
      assert m[..k + 1] == m;
    }
    SignOfSum(low, b, top);
  }

  lemma SignOfSum(low: int, b: int, top: int)
    requires 0 <= low < b
    ensures top < 0 <==> low + b * top < 0
  {
    if top < 0 {
      MulNonnegative(b, -1 - top);
    } else {
      MulNonnegative(b, top);
    }
  }
}
