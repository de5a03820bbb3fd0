/** The table-driven CRC-32 of keygen.html against the bit-by-bit definition. */
module Crc32 {

  // Operations on 32-bit words

  function Xor(a: bv32, b: bv32): bv32 {
    a ^ b
  }

  function Low(c: bv32): bv32 {
    c & 0xff
  }

  function High(c: bv32): bv32 {
    c & 0xffffff00
  }

  function Rest(c: bv32): bv32 {
    c >> 8
  }

  function Extended(b: bv8): bv32 {
    b as bv32
  }

  function Word(n: nat): bv32
    requires n < 256
  {
    Extended(n as bv8)
  }

  function Index(c: bv32): (n: nat)
    ensures n < 256
  {
    ((c & 0xff) as bv8) as nat
  }

  //
  // Bit by bit
  //

  /** One step of the reflected shift register. */
  function Shift(c: bv32): bv32 {
    if c & 1 == 1 then 0xedb88320 ^ (c >> 1) else c >> 1
  }

  function Shifts(c: bv32, n: nat): bv32 {
    if n == 0 then c else Shift(Shifts(c, n - 1))
  }

  /** The register after the bytes, each added to its low end and shifted through. */
  function Register(b: seq<bv8>): bv32 {
    if b == [] then 0xffffffff
    else Shifts(Xor(Register(b[..|b| - 1]), Extended(b[|b| - 1])), 8)
  }

  function Crc(b: seq<bv8>): bv32 {
    Xor(Register(b), 0xffffffff)
  }

  /** The exponents of the polynomial of CRC-32 below the highest, which is 32. */
  const EXPONENTS: set<nat> := {26, 23, 22, 16, 12, 11, 10, 8, 7, 5, 4, 2, 1, 0}

  function BitAt(c: bv32, i: nat): bool
    requires i < 32
  {
    (c >> i as bv6) & 1 == 1
  }

  /** A one leaves the register as the polynomial, highest exponent first: the bit that
      stands for x^31 is the lowest. */
  lemma Polynomial(i: nat)
    requires i < 32
    ensures BitAt(Shift(1), i) <==> 31 - i in EXPONENTS
  {
  }

  /** The register c after one more byte. */
  function Fed(c: bv32, x: bv8): bv32 {
    var d := Xor(c, Extended(x));
    Shift(Shift(Shift(Shift(Shift(Shift(Shift(Shift(d))))))))
  }

  lemma {:induction false} EightSteps(d: bv32)
    ensures Shifts(d, 8) == Shift(Shift(Shift(Shift(Shift(Shift(Shift(Shift(d))))))))
  {
    hide Shift;
    assert Shifts(d, 1) == Shift(d);
    assert Shifts(d, 3) == Shift(Shift(Shift(d)));
    assert Shifts(d, 5) == Shift(Shift(Shift(Shift(Shift(d)))));
    assert Shifts(d, 7) == Shift(Shift(Shift(Shift(Shift(Shift(Shift(d)))))));
  }

  /** The register after the first k + 1 bytes. */
  lemma {:induction false} FedNext(b: seq<bv8>, k: nat, c: bv32)
    requires k < |b| && Register(b[..k]) == c
    ensures Register(b[..k + 1]) == Fed(c, b[k])
  {
    hide Shift, Xor, Extended, Shifts;
    assert b[..k + 1][..k] == b[..k];
    EightSteps(Xor(c, Extended(b[k])));
  }

  lemma Digits1To5()
    ensures Fed(0xffffffff, 0x31) == 0x7c231048
    ensures Fed(0x7c231048, 0x32) == 0xb0acbb32
    ensures Fed(0xb0acbb32, 0x33) == 0x77b79c2d
    ensures Fed(0x77b79c2d, 0x34) == 0x641c1f5c
    ensures Fed(0x641c1f5c, 0x35) == 0x340ac5e3
  {
  }

  lemma Digits6To9()
    ensures Fed(0x340ac5e3, 0x36) == 0xf68d2c9e
    ensures Fed(0xf68d2c9e, 0x37) == 0xaffc9660
    ensures Fed(0xaffc9660, 0x38) == 0x651f2550
    ensures Fed(0x651f2550, 0x39) == 0x340bc6d9
  {
  }

  /** The check value that CRC-32 is known by: that of the digits 1 to 9. */
  lemma {:induction false} CheckValue(b: seq<bv8>)
    requires b == [0x31, 0x32, 0x33, 0x34, 0x35, 0x36, 0x37, 0x38, 0x39]
    ensures Crc(b) == 0xcbf43926
  {
    hide *;
    Digits1To5();
    Digits6To9();
    Ends(b);
    FedNext(b, 0, 0xffffffff);
    FedNext(b, 1, 0x7c231048);
    FedNext(b, 2, 0xb0acbb32);
    FedNext(b, 3, 0x77b79c2d);
    FedNext(b, 4, 0x641c1f5c);
    FedNext(b, 5, 0x340ac5e3);
    FedNext(b, 6, 0xf68d2c9e);
    FedNext(b, 7, 0xaffc9660);
    FedNext(b, 8, 0x651f2550);
  }

  lemma {:induction false} Ends(b: seq<bv8>)
    ensures Register(b[..0]) == 0xffffffff && b[..|b|] == b
    ensures Register(b) == 0x340bc6d9 ==> Crc(b) == 0xcbf43926
  {
  }

  //
  // A byte at a time
  //

  lemma XorShifts(a: bv32, b: bv32)
    ensures (a ^ b) >> 1 == (a >> 1) ^ (b >> 1) && (a ^ b) & 1 == (a & 1) ^ (b & 1)
    ensures (a & 1 == 0 || a & 1 == 1) && (b & 1 == 0 || b & 1 == 1)
  {
  }

  lemma XorMoves(p: bv32, a: bv32, b: bv32)
    ensures (p ^ a) ^ (p ^ b) == a ^ b && (p ^ a) ^ b == p ^ (a ^ b) && a ^ (p ^ b) == p ^ (a ^ b)
  {
  }

  lemma ShiftLinear(a: bv32, b: bv32)
    ensures Shift(Xor(a, b)) == Xor(Shift(a), Shift(b))
  {
    XorShifts(a, b);
    XorMoves(0xedb88320, a >> 1, b >> 1);
  }

  lemma {:induction false} ShiftsLinear(a: bv32, b: bv32, n: nat)
    ensures Shifts(Xor(a, b), n) == Xor(Shifts(a, n), Shifts(b, n))
  {
    hide Shift, Xor;
    if n > 0 {
      ShiftsLinear(a, b, n - 1);
      ShiftLinear(Shifts(a, n - 1), Shifts(b, n - 1));
    }
  }

  /** Eight zero bits leave the register without a trace. */
  lemma {:induction false} EightZeros(c: bv32)
    requires Low(c) == 0
    ensures Shifts(c, 8) == Rest(c)
  {
    var c1 := Shift(c);
    var c2 := Shift(c1);
    var c3 := Shift(c2);
    var c4 := Shift(c3);
    var c5 := Shift(c4);
    var c6 := Shift(c5);
    var c7 := Shift(c6);
    assert Shift(c7) == Rest(c);
    hide Shift, Rest, Low;
    assert Shifts(c, 1) == c1;
    assert Shifts(c, 2) == c2;
    assert Shifts(c, 3) == c3;
    assert Shifts(c, 4) == c4;
    assert Shifts(c, 5) == c5;
    assert Shifts(c, 6) == c6;
    assert Shifts(c, 7) == c7;
  }

  lemma Halves(c: bv32)
    ensures c == Xor(High(c), Low(c)) && Low(High(c)) == 0 && Rest(High(c)) == Rest(c)
  {
  }

  /** What the table is for: eight steps at once. */
  lemma {:induction false} ByteStep(c: bv32)
    ensures Shifts(c, 8) == Xor(Rest(c), Shifts(Low(c), 8))
  {
    hide Shifts, Xor, High, Low, Rest;
    Halves(c);
    ShiftsLinear(High(c), Low(c), 8);
    EightZeros(High(c));
  }

  lemma ByteAdded(c: bv32, b: bv8)
    ensures Rest(Xor(c, Extended(b))) == Rest(c)
  {
  }

  lemma Indexed(c: bv32)
    ensures Word(Index(c)) == Low(c)
  {
    var d := (c & 0xff) as bv8;
    assert d as bv32 == c & 0xff;
    SameByte(d);
  }

  lemma SameByte(d: bv8)
    ensures (d as nat) as bv8 == d
  {
  }

  ghost predicate TableGood(table: seq<bv32>) {
    |table| == 256 && forall n :: 0 <= n < 256 ==> table[n] == Shifts(Word(n), 8)
  }

  /** The function with its table, which the first call fills. */
  class Checksum {
    var table: array?<bv32>

    ghost predicate Valid()
      reads this, table
    {
      table != null ==> TableGood(table[..])
    }

    constructor ()
      ensures Valid() && table == null
    {
      table := null;
    }

    method FillTable() returns (t: array<bv32>)
      ensures fresh(t) && TableGood(t[..])
    {
      hide Shifts, Word;
      t := new bv32[256];
      for n := 0 to 256
        invariant forall m :: 0 <= m < n ==> t[m] == Shifts(Word(m), 8)
      {
        t[n] := TableEntry(n);
      }
    }

    method TableEntry(n: nat) returns (c: bv32)
      requires n < 256
      ensures c == Shifts(Word(n), 8)
    {
      hide Shift, Word;
      c := Word(n);
      for k := 0 to 8
        invariant c == Shifts(Word(n), k)
      {
        c := ShiftBit(c);
      }
    }

    method ShiftBit(c: bv32) returns (r: bv32)
      ensures r == Shift(c)
    {
      r := if c & 1 != 0 then 0xedb88320 ^ (c >> 1) else c >> 1;
    }

    /** crc32 */
    method Crc32(b: seq<bv8>) returns (r: bv32)
      requires Valid()
      modifies this
      ensures Valid() && r == Crc(b)
    {
      hide Shifts, Xor, Rest, Extended, Index, Word, Low;
      if table == null {
        table := FillTable();
      }
      var crc: bv32 := 0xffffffff;
      for i := 0 to |b|
        invariant Valid() && table != null && crc == Register(b[..i])
      {
        assert b[..i + 1][..i] == b[..i];
        var c := Xor(crc, Extended(b[i]));
        Indexed(c);
        ByteStep(c);
        ByteAdded(crc, b[i]);
        crc := Xor(Rest(crc), table[Index(c)]);
      }
      assert b[..|b|] == b;
      r := Xor(crc, 0xffffffff);
    }
  }
}
