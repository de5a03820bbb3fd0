/** Two's-complement integers as mathematical integers.

    A word of n+1 bits holds the integers in [-2^n, 2^n). Bitwise operators are
    defined bit by bit on that representation, an arithmetic right shift is a
    floor division by a power of two, and bitwise negation is -1 - x. */
module Bits {

  function Pow2(n: nat): (r: int)
    ensures r > 0
  {
    if n == 0 then 1 else 2 * Pow2(n - 1)
  }

  /** x is representable in a word of n bits below its sign bit. */
  predicate Fits(n: nat, x: int) {
    -Pow2(n) <= x < Pow2(n)
  }

  function Xor(n: nat, x: int, y: int): (r: int)
    requires Fits(n, x) && Fits(n, y)
    ensures Fits(n, r)
  {
    if n == 0 then (if x == y then 0 else -1)
    else (x + y) % 2 + 2 * Xor(n - 1, x / 2, y / 2)
  }

  function And(n: nat, x: int, y: int): (r: int)
    requires Fits(n, x) && Fits(n, y)
    ensures Fits(n, r)
  {
    if n == 0 then (if x == -1 && y == -1 then -1 else 0)
    else (x % 2) * (y % 2) + 2 * And(n - 1, x / 2, y / 2)
  }

  function Or(n: nat, x: int, y: int): (r: int)
    requires Fits(n, x) && Fits(n, y)
    ensures Fits(n, r)
  {
    if n == 0 then (if x == -1 || y == -1 then -1 else 0)
    else (if x % 2 == 1 || y % 2 == 1 then 1 else 0) + 2 * Or(n - 1, x / 2, y / 2)
  }

  function Not(x: int): int {
    -1 - x
  }

  function Shr(x: int, k: nat): int {
    x / Pow2(k)
  }

  /** Exclusive or with the same word twice restores the other operand. */
  lemma {:induction false} XorCancels(n: nat, x: int, y: int)
    requires Fits(n, x) && Fits(n, y)
    ensures Xor(n, x, Xor(n, x, y)) == y
    ensures Xor(n, y, Xor(n, x, y)) == x
  {
    if n > 0 {
      var h := Xor(n - 1, x / 2, y / 2);
      var r := Xor(n, x, y);
      XorCancels(n - 1, x / 2, y / 2);
      XorParity(x, y, h);
      assert r / 2 == h && (x + r) % 2 == y % 2 && (y + r) % 2 == x % 2;
      XorParts(n, x, r);
      XorParts(n, y, r);
      hide Xor;
    }
  }

  lemma XorParts(n: nat, x: int, y: int)
    requires n > 0 && Fits(n, x) && Fits(n, y)
    ensures Fits(n - 1, x / 2) && Fits(n - 1, y / 2)
    ensures Xor(n, x, y) == (x + y) % 2 + 2 * Xor(n - 1, x / 2, y / 2)
  {
  }

  lemma XorParity(x: int, y: int, h: int)
    ensures var r := (x + y) % 2 + 2 * h; r / 2 == h && (x + r) % 2 == y % 2 && (y + r) % 2 == x % 2
  {
    var p, q := x % 2, y % 2;
    var s := if p + q == 2 then 0 else p + q;
    DivModUnique(x + y, 2, x / 2 + y / 2 + (p + q - s) / 2, s);
    DivModUnique(s + 2 * h, 2, h, s);
    DivModUnique(x + (s + 2 * h), 2, x / 2 + h + (p + s - q) / 2, q);
    DivModUnique(y + (s + 2 * h), 2, y / 2 + h + (q + s - p) / 2, p);
  }

  lemma {:induction false} XorZero(n: nat, x: int)
    requires Fits(n, x)
    ensures Xor(n, x, 0) == x
  {
    if n > 0 {
      XorZero(n - 1, x / 2);
    }
  }

  /** An all-zero mask clears, an all-one mask keeps. */
  lemma {:induction false} AndExtremes(n: nat, x: int)
    requires Fits(n, x)
    ensures And(n, 0, x) == 0
    ensures And(n, -1, x) == x
  {
    if n > 0 {
      AndExtremes(n - 1, x / 2);
    }
  }

  /** Masking with k one bits keeps the remainder modulo 2^k, negative words included. */
  lemma {:induction false} AndLowMask(n: nat, x: int, k: nat)
    requires k <= n && Fits(n, x)
    ensures Fits(n, Pow2(k) - 1)
    ensures And(n, x, Pow2(k) - 1) == x % Pow2(k)
  {
    Pow2Monotone(k, n);
    if k == 0 {
      AndZeroRight(n, x);
    } else {
      AndLowMask(n - 1, x / 2, k - 1);
      var h := Pow2(k - 1);
      assert (2 * h - 1) / 2 == h - 1 && (2 * h - 1) % 2 == 1;
      HalveMod(x, h);
    }
  }

  /** Masks of ones fit any word that is long enough. */
  lemma {:induction false} MaskFits(n: nat, k: nat)
    requires k <= n
    ensures Fits(n, Pow2(k) - 1)
  {
    Pow2Monotone(k, n);
  }

  lemma {:induction false} MaskWord(n: nat, x: int)
    requires 16 <= n && Fits(n, x)
    ensures Fits(n, 0xffff) && And(n, x, 0xffff) == x % 65536
  {
    hide And, Fits;
    WordSizes();
    MaskFits(n, 16);
    AndLowMask(n, x, 16);
  }

  lemma {:induction false} MaskByte(n: nat, x: int)
    requires 8 <= n && Fits(n, x)
    ensures Fits(n, 0xff) && And(n, x, 0xff) == x % 256
  {
    hide And, Fits;
    WordSizes();
    MaskFits(n, 8);
    AndLowMask(n, x, 8);
  }

  lemma {:induction false} MaskBit(n: nat, x: int)
    requires 1 <= n && Fits(n, x)
    ensures Fits(n, 1) && And(n, x, 1) == x % 2
  {
    hide And, Fits;
    assert Pow2(1) == 2;
    MaskFits(n, 1);
    AndLowMask(n, x, 1);
  }

  lemma ShiftDivides(x: int)
    ensures Shr(x, 16) == x / 65536 && Shr(x, 8) == x / 256
  {
    WordSizes();
  }

  /** Bit 16 of a limb that went at most one unit out of range is its sign. */
  lemma {:induction false} BorrowBit(n: nat, x: int)
    requires 16 <= n && Fits(n, x) && -65536 <= x <= 65535
    ensures Fits(n, Shr(x, 16)) && Fits(n, 1)
    ensures And(n, Shr(x, 16), 1) == if x < 0 then 1 else 0
  {
    hide And;
    WordSizes();
    Pow2Monotone(16, n);
    var q := Shr(x, 16);
    ShiftDivides(x);
    if x < 0 {
      DivModUnique(x, 65536, -1, x + 65536);
    } else {
      DivModUnique(x, 65536, 0, x);
    }
    MaskBit(n, q);
  }

  /** Setting bit k of a number below 2^(k+1). */
  lemma {:induction false} OrBit(n: nat, x: int, k: nat)
    requires k < n && 0 <= x < Pow2(k + 1)
    ensures Fits(n, x) && Fits(n, Pow2(k))
    ensures Or(n, x, Pow2(k)) == x % Pow2(k) + Pow2(k)
  {
    Pow2Monotone(k + 1, n);
    if k == 0 {
      OrZeros(n - 1);
    } else {
      OrBit(n - 1, x / 2, k - 1);
      var p, r := Pow2(k - 1), x % 2;
      HalveMod(x, p);
      DivModUnique(2 * p, 2, p, 0);
    }
  }

  lemma {:induction false} OrZeros(n: nat)
    ensures Or(n, 0, 0) == 0
  {
    if n > 0 {
      OrZeros(n - 1);
    }
  }

  /** Key clamping of a byte: (x & 127) | 64. */
  lemma {:induction false} ClampTopByte(n: nat, x: int)
    requires 8 <= n && 0 <= x < 256
    ensures Fits(n, x) && Fits(n, 127) && Fits(n, 64)
    ensures Or(n, And(n, x, 127), 64) == x % 64 + 64
  {
    WordSizes();
    Pow2Monotone(8, n);
    var p, q := Pow2(7), Pow2(6);
    assert p == 128 && q == 64;
    var low := x % 128;
    assert And(n, x, 127) == low by { AndLowMask(n, x, 7); }
    assert Or(n, low, 64) == low % 64 + 64 by { OrBit(n, low, 6); }
    ModOfMod(x);
  }

  lemma ModOfMod(x: int)
    ensures (x % 128) % 64 == x % 64
  {
    assert x == 64 * (2 * (x / 128)) + x % 128;
  }

  /** Key clamping of a byte: x & 248. */
  lemma {:induction false} ClampLowByte(n: nat, x: int)
    requires 8 <= n && 0 <= x < 256
    ensures Fits(n, x) && Fits(n, 248)
    ensures And(n, x, 248) == x - x % 8 && 0 <= And(n, x, 248) <= x
  {
    FitsByte(n);
    var x3, r := x / 8, x % 8;
    var x1, x2 := 4 * x3 + r / 2, 2 * x3 + r / 4;
    DivModUnique(x, 2, x1, r % 2);
    DivModUnique(x1, 2, x2, (r / 2) % 2);
    DivModUnique(x2, 2, x3, r / 4);
    AndEven(n, x, 124);
    AndEven(n - 1, x1, 62);
    AndEven(n - 2, x2, 31);
    AndKeepsLow(n - 3, x3);
  }

  lemma {:induction false} AndKeepsLow(n: nat, x: int)
    requires 5 <= n && 0 <= x < 32
    ensures Fits(n, x) && Fits(n, 31) && And(n, x, 31) == x
  {
    assert Pow2(5) == 32;
    Pow2Monotone(5, n);
    AndLowMask(n, x, 5);
    DivModUnique(x, 32, 0, x);
  }

  lemma {:induction false} FitsByte(n: nat)
    requires 6 <= n
    ensures Pow2(n) >= 64 && (n >= 7 ==> Pow2(n) >= 128) && (n >= 8 ==> Pow2(n) >= 256)
  {
    assert Pow2(6) == 64;
    Pow2Monotone(6, n);
    if n >= 7 {
      Pow2Monotone(7, n);
    }
    if n >= 8 {
      Pow2Monotone(8, n);
    }
  }

  lemma AndEven(n: nat, x: int, y: int)
    requires 0 < n && Fits(n, x) && Fits(n, 2 * y)
    ensures Fits(n - 1, x / 2) && Fits(n - 1, y) && And(n, x, 2 * y) == 2 * And(n - 1, x / 2, y)
  {
    assert (2 * y) / 2 == y && (2 * y) % 2 == 0;
  }

  lemma {:induction false} AndZeroRight(n: nat, x: int)
    requires Fits(n, x)
    ensures And(n, x, 0) == 0
  {
    if n > 0 {
      AndZeroRight(n - 1, x / 2);
    }
  }

  lemma {:induction false} Pow2Monotone(k: nat, n: nat)
    requires k <= n
    ensures Pow2(k) <= Pow2(n)
  {
    if k < n {
      Pow2Monotone(k, n - 1);
    }
  }

  lemma {:induction false} Pow2Add(i: nat, j: nat)
    ensures Pow2(i + j) == Pow2(i) * Pow2(j)
  {
    if i > 0 {
      Pow2Add(i - 1, j);
      DoubledProduct(Pow2(i - 1), Pow2(j));
    }
  }

  lemma DoubledProduct(a: int, b: int)
    ensures 2 * a * b == 2 * (a * b)
  {
  }

  /** The word sizes in use. */
  lemma WordSizes()
    ensures Pow2(8) == 0x100 && Pow2(16) == 0x1_0000 && Pow2(31) == 0x8000_0000
    ensures Pow2(63) == 0x8000_0000_0000_0000
  {
    assert Pow2(4) == 16;
    Pow2Add(4, 4);
    Pow2Add(8, 8);
    Pow2Add(16, 16);
    Pow2Add(32, 32);
    assert Pow2(32) == 2 * Pow2(31) && Pow2(64) == 2 * Pow2(63);
  }

  lemma HalveMod(x: int, h: nat)
    requires h > 0
    ensures x % (2 * h) == x % 2 + 2 * ((x / 2) % h)
  {
    var q, r := x / 2, x % 2;
    var q', r' := q / h, q % h;
    assert x == (2 * h) * q' + (2 * r' + r) by {
      assert q == h * q' + r';
    }
    DivModUnique(x, 2 * h, q', 2 * r' + r);
  }

  lemma MulNonnegative(a: int, b: int)
    requires 0 <= a && 0 <= b
    ensures 0 <= a * b
  {
  }

  /** The only multiple of m strictly between -m and m is zero. */
  lemma MulSmall(m: int, d: int)
    requires -m < m * d < m
    ensures d == 0
  {
    if d > 0 {
      MulNonnegative(m, d - 1);
    } else if d < 0 {
      MulNonnegative(m, -d - 1);
    }
  }

  /** Quotient and remainder are determined by the division equation. */
  lemma DivModUnique(x: int, m: int, q: int, r: int)
    requires 0 < m && 0 <= r < m && x == m * q + r
    ensures x / m == q && x % m == r
  {
    var d := q - x / m;
    assert m * d == x % m - r;
    MulSmall(m, d);
  }
}
