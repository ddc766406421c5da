/**
 Multiplication by a fixed element of GF(2^32), as the Android protector
 computes it: shift, reduce, accumulate.
 */
module Gf32 {
  import opened Words

  const FIXED: bv32 := 0x9451_1DD2
  /** The inverse of the fixed element. */
  const INVERSE: bv32 := 0xDC49_CD06
  const REDUCTION: bv32 := 0x5793_57EB

  /** Multiply by x: shift left and reduce. */
  function Xtime(v: bv32): bv32 {
    if v >> 31 != 0 then Xor(v << 1, REDUCTION) else v << 1
  }

  /** The product of `v` and the polynomial of the lowest `n` bits of `m`. */
  function MulBits(v: bv32, m: bv32, n: nat): bv32
    decreases n
  {
    if n == 0 then 0 else Xor(if Odd(m) then v else 0, MulBits(Xtime(v), Half(m), n - 1))
  }

  function Mul(v: bv32): bv32 {
    MulBits(v, FIXED, 32)
  }

  function Unmul(v: bv32): bv32 {
    MulBits(v, INVERSE, 32)
  }

  // ----- Linearity -----

  lemma TopFact(a: bv32, b: bv32)
    ensures (a ^ b) >> 31 != 0 <==> (a >> 31 != 0) != (b >> 31 != 0)
  {
  }

  lemma DblFact(a: bv32, b: bv32)
    ensures (a ^ b) << 1 == (a << 1) ^ (b << 1)
  {
  }

  function Top(v: bv32): bool {
    v >> 31 != 0
  }

  function Dbl(v: bv32): bv32 {
    v << 1
  }

  lemma TopXor(a: bv32, b: bv32)
    ensures Top(Xor(a, b)) <==> Top(a) != Top(b)
  {
    TopFact(a, b);
  }

  lemma DblXor(a: bv32, b: bv32)
    ensures Dbl(Xor(a, b)) == Xor(Dbl(a), Dbl(b))
  {
    DblFact(a, b);
  }

  lemma XtimeIs(v: bv32)
    ensures Xtime(v) == if Top(v) then Xor(Dbl(v), REDUCTION) else Dbl(v)
  {
    hide Xor;
  }

  lemma XtimeLinear(a: bv32, b: bv32)
    ensures Xtime(Xor(a, b)) == Xor(Xtime(a), Xtime(b))
  {
    hide Xor, Xtime, Top, Dbl;
    XtimeIs(a);
    XtimeIs(b);
    XtimeIs(Xor(a, b));
    TopXor(a, b);
    DblXor(a, b);
    var x, y, p := Dbl(a), Dbl(b), REDUCTION;
    XorLaws(x, y, p);
    XorLaws(y, p, 0);
    XorLaws(x, p, y);
    XorSwap(x, p, y, p);
    XorLaws(p, 0, 0);
    XorLaws(Xor(x, y), 0, 0);
  }

  lemma XtimeZero()
    ensures Xtime(0) == 0
  {
  }

  lemma {:induction false} MulLinear(a: bv32, b: bv32, m: bv32, n: nat)
    ensures MulBits(Xor(a, b), m, n) == Xor(MulBits(a, m, n), MulBits(b, m, n))
    decreases n
  {
    hide Xor, Xtime, Odd, Half;
    XorLaws(0, 0, 0);
    if n > 0 {
      XtimeLinear(a, b);
      MulLinear(Xtime(a), Xtime(b), Half(m), n - 1);
      XorSwap(if Odd(m) then a else 0, MulBits(Xtime(a), Half(m), n - 1),
              if Odd(m) then b else 0, MulBits(Xtime(b), Half(m), n - 1));
    }
  }

  lemma {:induction false} MulXtime(v: bv32, m: bv32, n: nat)
    ensures MulBits(Xtime(v), m, n) == Xtime(MulBits(v, m, n))
    decreases n
  {
    hide Xor, Xtime, Odd, Half;
    XtimeZero();
    if n > 0 {
      MulXtime(Xtime(v), Half(m), n - 1);
      XtimeLinear(if Odd(m) then v else 0, MulBits(Xtime(v), Half(m), n - 1));
    }
  }

  lemma {:induction false} MulZero(m: bv32, n: nat)
    ensures MulBits(0, m, n) == 0
    decreases n
  {
    hide Xor, Xtime, Odd, Half;
    XtimeZero();
    XorLaws(0, 0, 0);
    if n > 0 {
      MulZero(Half(m), n - 1);
    }
  }

  /** Products by two elements can be taken in either order. */
  lemma {:induction false} MulCommutes(v: bv32, a: bv32, b: bv32, n: nat, k: nat)
    ensures MulBits(MulBits(v, a, n), b, k) == MulBits(MulBits(v, b, k), a, n)
    decreases n
  {
    hide Xor, Xtime, Odd, Half;
    MulZero(b, k);
    if n > 0 {
      var x, rest := if Odd(a) then v else 0, MulBits(Xtime(v), Half(a), n - 1);
      MulLinear(x, rest, b, k);
      MulCommutes(Xtime(v), Half(a), b, n - 1, k);
      MulXtime(v, b, k);
    }
  }

  // ----- Eight bits at a time -----

  function Times(v: bv32, k: nat): bv32
    decreases k
  {
    if k == 0 then v else Times(Xtime(v), k - 1)
  }

  function Halves(m: bv32, k: nat): bv32
    decreases k
  {
    if k == 0 then m else Halves(Half(m), k - 1)
  }

  lemma {:induction false} MulSplit(v: bv32, m: bv32, a: nat, b: nat)
    ensures MulBits(v, m, a + b) == Xor(MulBits(v, m, a), MulBits(Times(v, a), Halves(m, a), b))
    decreases a
  {
    hide Xor, Xtime, Odd, Half;
    var whole := MulBits(v, m, a + b);
    if a == 0 {
      XorLaws(0, whole, 0);
      XorLaws(whole, 0, 0);
    } else {
      MulSplit(Xtime(v), Half(m), a - 1, b);
      XorLaws(if Odd(m) then v else 0, MulBits(Xtime(v), Half(m), a - 1), MulBits(Times(v, a), Halves(m, a), b));
    }
  }

  lemma FourParts(v: bv32, m: bv32)
    ensures var v1 := Times(v, 8); var v2 := Times(v1, 8); var v3 := Times(v2, 8);
            var m1 := Halves(m, 8); var m2 := Halves(m1, 8); var m3 := Halves(m2, 8);
            MulBits(v, m, 32)
              == Xor(MulBits(v, m, 8), Xor(MulBits(v1, m1, 8), Xor(MulBits(v2, m2, 8), MulBits(v3, m3, 8))))
  {
    hide Xor, MulBits, Times, Halves;
    var v1, m1 := Times(v, 8), Halves(m, 8);
    var v2, m2 := Times(v1, 8), Halves(m1, 8);
    MulSplit(v, m, 8, 24);
    MulSplit(v1, m1, 8, 16);
    MulSplit(v2, m2, 8, 8);
  }

  /** The stated constant is the inverse: the product of the two is one. */
  lemma InverseProduct()
    ensures MulBits(FIXED, INVERSE, 32) == 1
  {
    FourParts(0x9451_1DD2, 0xDC49_CD06);
    Part0();
    Part1();
    Part2();
    Part3();
    assert 0x8153_B4D1 ^ (0x8048_64B2 ^ (0x0525_90A0 ^ (0x043E_40C2 as bv32))) == 1;
  }

  lemma Part0()
    ensures MulBits(0x9451_1DD2, 0xDC49_CD06, 8) == 0x8153_B4D1
    ensures Times(0x9451_1DD2, 8) == 0x13E9_A450 && Halves(0xDC49_CD06, 8) == 0xDC_49CD
  {
  }

  lemma Part1()
    ensures MulBits(0x13E9_A450, 0xDC_49CD, 8) == 0x8048_64B2
    ensures Times(0x13E9_A450, 8) == 0x3669_8921 && Halves(0xDC_49CD, 8) == 0xDC49
  {
  }

  lemma Part2()
    ensures MulBits(0x3669_8921, 0xDC49, 8) == 0x0525_90A0
    ensures Times(0x3669_8921, 8) == 0xA6F9_E5B5 && Halves(0xDC49, 8) == 0xDC
  {
  }

  lemma Part3()
    ensures MulBits(0xA6F9_E5B5, 0xDC, 8) == 0x043E_40C2
  {
  }

  // ----- One is the unit -----

  lemma HalfFact(m: bv32)
    ensures (m >> 1) >> 31 == 0 && ((m >> 1) << 1) ^ (m & 1) == m && (m & 1 == 0 || m & 1 == 1)
  {
  }

  lemma DoubleHalf(m: bv32)
    ensures !Top(Half(m)) && Xor(if Odd(m) then 1 else 0, Dbl(Half(m))) == m
  {
    HalfFact(m);
    XorFacts((m >> 1) << 1, m & 1, 0);
  }

  lemma {:induction false} UnitBits(m: bv32, n: nat)
    requires Halves(m, n) == 0
    ensures MulBits(1, m, n) == m
    decreases n
  {
    hide Xor, Xtime, Odd, Half, Top, Dbl;
    if n > 0 {
      UnitBits(Half(m), n - 1);
      MulXtime(1, Half(m), n - 1);
      XtimeIs(Half(m));
      DoubleHalf(m);
    }
  }

  lemma HalvesFact(m: bv32)
    ensures Half(m) == m >> 1 && Half(m >> 1) == m >> 2 && Half(m >> 2) == m >> 3 && Half(m >> 3) == m >> 4
    ensures Half(m >> 4) == m >> 5 && Half(m >> 5) == m >> 6 && Half(m >> 6) == m >> 7 && Half(m >> 7) == m >> 8
  {
  }

  lemma EightHalves(m: bv32)
    ensures Halves(m, 8) == m >> 8
  {
    hide Half;
    HalvesFact(m);
    assert Halves(m, 8) == Halves(m >> 2, 6) == Halves(m >> 4, 4) == Halves(m >> 6, 2);
  }

  lemma {:induction false} HalvesAdd(m: bv32, a: nat, b: nat)
    ensures Halves(m, a + b) == Halves(Halves(m, a), b)
    decreases a
  {
    hide Half;
    if a > 0 {
      HalvesAdd(Half(m), a - 1, b);
    }
  }

  lemma AllHalves(m: bv32)
    ensures Halves(m, 32) == 0
  {
    hide Halves;
    HalvesAdd(m, 8, 24);
    HalvesAdd(m >> 8, 8, 16);
    HalvesAdd(m >> 16, 8, 8);
    EightHalves(m);
    EightHalves(m >> 8);
    EightHalves(m >> 16);
    EightHalves(m >> 24);
    ShiftedOut(m);
  }

  lemma ShiftedOut(m: bv32)
    ensures (m >> 8) >> 8 == m >> 16 && (m >> 16) >> 8 == m >> 24 && (m >> 24) >> 8 == 0
  {
  }

  lemma Unit(m: bv32)
    ensures MulBits(1, m, 32) == m
  {
    AllHalves(m);
    UnitBits(m, 32);
  }

  // ----- Main results -----

  /** The fixed multiplication is linear over GF(2). */
  lemma MulIsLinear(a: bv32, b: bv32)
    ensures Mul(Xor(a, b)) == Xor(Mul(a), Mul(b))
  {
    MulLinear(a, b, FIXED, 32);
  }

  /** It is a bijection of the 32-bit words, undone by multiplying by the stated inverse. */
  lemma MulIsBijective(x: bv32)
    ensures Unmul(Mul(x)) == x && Mul(Unmul(x)) == x
  {
    hide Xor, MulBits;
    Unit(x);
    Unit(INVERSE);
    Unit(FIXED);
    MulCommutes(1, x, FIXED, 32, 32);
    MulCommutes(FIXED, x, INVERSE, 32, 32);
    InverseProduct();
    MulCommutes(x, FIXED, INVERSE, 32, 32);
  }

  lemma {:induction false} NothingLeft(v: bv32, n: nat)
    ensures MulBits(v, 0, n) == 0
    decreases n
  {
    hide Xor, Xtime;
    XorLaws(0, 0, 0);
    if n > 0 {
      assert Half(0) == 0 && !Odd(0);
      NothingLeft(Xtime(v), n - 1);
    }
  }

  /** The accumulator loop: it stops when the multiplier has been shifted out. */
  method MulFixed(value: bv32) returns (result: bv32)
    ensures result == Mul(value)
  {
    hide Xor, Xtime, Odd, Half;
    var v, multiplier := value, FIXED;
    ghost var n := 32;
    result := 0;
    AllHalves(FIXED);
    XorLaws(0, Mul(value), 0);
    XorLaws(Mul(value), 0, 0);
    while multiplier != 0
      invariant 0 <= n && Halves(multiplier, n) == 0
      invariant Xor(result, MulBits(v, multiplier, n)) == Mul(value)
      decreases n
    {
      XorLaws(result, if Odd(multiplier) then v else 0, MulBits(Xtime(v), Half(multiplier), n - 1));
      XorLaws(result, 0, 0);
      if Odd(multiplier) {
        result := Xor(result, v);
      }
      v := Xtime(v);
      multiplier := Half(multiplier);
      n := n - 1;
    }
    NothingLeft(v, n);
    XorLaws(result, 0, 0);
  }
}
