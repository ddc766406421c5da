/**
 The table-driven CRC-32 and the bit-at-a-time reflected CRC it stands for
 (RFC 1952, section 8).
 */
module Crc32 {
  import opened Words

  const POLYNOMIAL: bv32 := 0xEDB8_8320

  /** One bit of the reflected division. */
  function Shift(c: bv32): bv32 {
    if Odd(c) then Xor(POLYNOMIAL, Half(c)) else Half(c)
  }

  function Shifts(c: bv32, n: nat): bv32
    decreases n
  {
    if n == 0 then c else Shifts(Shift(c), n - 1)
  }

  /** The reference: every byte is added to the low end and shifted out bit by bit. */
  function Divide(c: bv32, data: seq<bv8>): bv32
    decreases |data|
  {
    if data == [] then c else Divide(Shifts(Xor(c, data[0] as bv32), 8), data[1..])
  }

  /** The CRC of `data`, continuing from the CRC `initial` of what came before. */
  function Reference(initial: bv32, data: seq<bv8>): bv32 {
    Not(Divide(Not(initial), data))
  }

  function Not(c: bv32): bv32 {
    !c
  }

  lemma HalfLinear(a: bv32, b: bv32)
    ensures Half(Xor(a, b)) == Xor(Half(a), Half(b))
    ensures Odd(Xor(a, b)) <==> Odd(a) != Odd(b)
  {
  }

  lemma ShiftLinear(a: bv32, b: bv32)
    ensures Shift(Xor(a, b)) == Xor(Shift(a), Shift(b))
  {
    hide Xor, Half, Odd;
    HalfLinear(a, b);
    var p, x, y := POLYNOMIAL, Half(a), Half(b);
    XorLaws(p, x, y);
    XorLaws(x, p, y);
    XorSwap(p, x, p, y);
    XorLaws(p, p, 0);
    XorLaws(0, Xor(x, y), 0);
    XorLaws(Xor(x, y), 0, 0);
  }

  lemma {:induction false} ShiftsLinear(a: bv32, b: bv32, n: nat)
    ensures Shifts(Xor(a, b), n) == Xor(Shifts(a, n), Shifts(b, n))
    decreases n
  {
    hide Shift, Xor;
    if n > 0 {
      ShiftLinear(a, b);
      ShiftsLinear(Shift(a), Shift(b), n - 1);
    }
  }

  function ByteDown(x: bv32): bv32 {
    x >> 8
  }

  /** With the low byte clear, eight steps are a plain shift. */
  lemma PlainShifts(c: bv32)
    requires c & 0xFF == 0
    ensures Shifts(c, 8) == ByteDown(c)
  {
    hide Xor, Shift;
    PlainShift(c);
    var c1 := c >> 1; var c2 := c >> 2; var c3 := c >> 3; var c4 := c >> 4;
    var c5 := c >> 5; var c6 := c >> 6; var c7 := c >> 7; var c8 := c >> 8;
    EightShifts(c, c1, c2, c3, c4, c5, c6, c7, c8);
  }

  lemma PlainShift(c: bv32)
    requires c & 0xFF == 0
    ensures Shift(c) == c >> 1 && Shift(c >> 1) == c >> 2 && Shift(c >> 2) == c >> 3 && Shift(c >> 3) == c >> 4
    ensures Shift(c >> 4) == c >> 5 && Shift(c >> 5) == c >> 6 && Shift(c >> 6) == c >> 7 && Shift(c >> 7) == c >> 8
  {
    hide Xor;
  }

  lemma EightShifts(c: bv32, c1: bv32, c2: bv32, c3: bv32, c4: bv32, c5: bv32, c6: bv32, c7: bv32, c8: bv32)
    requires Shift(c) == c1 && Shift(c1) == c2 && Shift(c2) == c3 && Shift(c3) == c4
    requires Shift(c4) == c5 && Shift(c5) == c6 && Shift(c6) == c7 && Shift(c7) == c8
    ensures Shifts(c, 8) == c8
  {
    hide Shift;
    assert Shifts(c, 8) == Shifts(c1, 7) == Shifts(c2, 6) == Shifts(c3, 5) == Shifts(c4, 4);
    assert Shifts(c4, 4) == Shifts(c5, 3) == Shifts(c6, 2) == Shifts(c7, 1) == Shifts(c8, 0);
  }

  function LowPart(x: bv32): bv32 {
    x & 0xFF
  }

  function HighPart(x: bv32): (r: bv32)
    ensures r & 0xFF == 0
  {
    x & 0xFFFF_FF00
  }

  lemma SplitFact(x: bv32)
    ensures (x & 0xFF) ^ (x & 0xFFFF_FF00) == x && (x & 0xFFFF_FF00) >> 8 == x >> 8
  {
  }

  lemma SplitLow(x: bv32)
    ensures Xor(LowPart(x), HighPart(x)) == x && ByteDown(HighPart(x)) == ByteDown(x)
  {
    SplitFact(x);
  }

  lemma SumFact(c: bv32, b: bv8)
    ensures (c ^ (b as bv32)) >> 8 == c >> 8
  {
  }

  lemma HighOfSum(c: bv32, b: bv8)
    ensures ByteDown(Xor(c, b as bv32)) == ByteDown(c)
  {
    SumFact(c, b);
  }

  lemma HighShifts(x: bv32)
    ensures Shifts(HighPart(x), 8) == ByteDown(HighPart(x))
  {
    hide Shifts, HighPart, ByteDown;
    PlainShifts(HighPart(x));
  }

  /** One table lookup is eight single steps. */
  lemma TableStep(c: bv32, b: bv8)
    ensures Shifts(Xor(c, b as bv32), 8) == Xor(Shifts(LowPart(Xor(c, b as bv32)), 8), ByteDown(c))
  {
    hide Shift, Xor, Shifts, LowPart, HighPart, ByteDown;
    var x := Xor(c, b as bv32);
    SplitLow(x);
    HighOfSum(c, b);
    ShiftsLinear(LowPart(x), HighPart(x), 8);
    HighShifts(x);
  }

  /** Entry `i` is what shifting `i` out leaves. */
  ghost predicate IsTable(t: seq<bv32>) {
    |t| == 256 && forall i :: 0 <= i < 256 ==> t[i] == Shifts((i as bv8) as bv32, 8)
  }

  method BuildTable() returns (t: seq<bv32>)
    ensures IsTable(t)
  {
    hide Shift;
    var table := new bv32[256](_ => 0);
    for i := 0 to 256
      invariant forall j :: 0 <= j < i ==> table[j] == Shifts((j as bv8) as bv32, 8)
    {
      var c := (i as bv8) as bv32;
      for k := 0 to 8
        invariant Shifts(c, 8 - k) == Shifts((i as bv8) as bv32, 8)
      {
        c := Shift(c);
      }
      table[i] := c;
    }
    t := table[..];
  }

  lemma LowByte(x: bv32)
    ensures (((LowPart(x) as bv8) as int) as bv8) as bv32 == LowPart(x)
  {
    LowFact(x);
    IntOfByte(LowPart(x) as bv8);
  }

  lemma LowFact(x: bv32)
    ensures ((x & 0xFF) as bv8) as bv32 == x & 0xFF
  {
  }

  lemma IntOfByte(b: bv8)
    ensures (b as int) as bv8 == b
  {
  }

  /** The table entry selected by the low byte. */
  function Entry(t: seq<bv32>, x: bv32): (r: bv32)
    requires IsTable(t)
    ensures r == Shifts(LowPart(x), 8)
  {
    LowByte(x);
    t[(LowPart(x) as bv8) as int]
  }

  /** One lookup per byte computes the reference CRC. */
  method Append(t: seq<bv32>, initial: bv32, data: seq<bv8>) returns (crc: bv32)
    requires IsTable(t)
    ensures crc == Reference(initial, data)
  {
    hide Shift, Shifts, Xor, LowPart, Not, Entry, ByteDown;
    var c := Not(initial);
    for i := 0 to |data|
      invariant Divide(c, data[i..]) == Divide(Not(initial), data)
    {
      TableStep(c, data[i]);
      assert data[i..][1..] == data[i + 1..];
      c := Xor(Entry(t, Xor(c, data[i] as bv32)), ByteDown(c));
    }
    crc := Not(c);
  }

  lemma {:induction false} DivideConcat(c: bv32, a: seq<bv8>, b: seq<bv8>)
    ensures Divide(c, a + b) == Divide(Divide(c, a), b)
    decreases |a|
  {
    hide Shifts, Xor;
    if a == [] {
      assert a + b == b;
    } else {
      assert (a + b)[1..] == a[1..] + b;
      DivideConcat(Shifts(Xor(c, a[0] as bv32), 8), a[1..], b);
    }
  }

  /** Continuing a CRC is taking the CRC of the concatenation. */
  lemma Chained(initial: bv32, a: seq<bv8>, b: seq<bv8>)
    ensures Reference(Reference(initial, a), b) == Reference(initial, a + b)
  {
    hide Divide, Not;
    NotNot(Divide(Not(initial), a));
    DivideConcat(Not(initial), a, b);
  }

  lemma NotFact(c: bv32)
    ensures !!c == c
  {
  }

  lemma NotNot(c: bv32)
    ensures Not(Not(c)) == c
  {
    NotFact(c);
  }

  // ----- Published values -----

  lemma TableValues()
    ensures Shifts(1, 8) == 0x7707_3096 && Shifts(255, 8) == 0x2D02_EF8D
  {
    assert Shifts(Shift(Shift(Shift(Shift(1)))), 4) == 0x7707_3096;
    assert Shifts(Shift(Shift(Shift(Shift(255)))), 4) == 0x2D02_EF8D;
  }

  /** The CRC of the letter "a". */
  lemma LetterValue()
    ensures Reference(0, [0x61]) == 0xE8B7_BE43
  {
    assert Shifts(0xFFFF_FF9E, 8) == 0x1748_41BC by {
      assert Shifts(0xAFF5_1D81, 4) == 0x1748_41BC;
    }
    assert [0x61 as bv8][1..] == [];
  }
}
