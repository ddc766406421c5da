/**
 The field GF(2^8) of the AES (FIPS 197, section 4.2), multiplied the way the
 table builder does it: shift, reduce, accumulate.
 */
module Gf8 {

  function Xor(a: bv8, b: bv8): bv8 {
    a ^ b
  }

  lemma XorFacts(a: bv8, b: bv8, c: bv8)
    ensures a ^ b == b ^ a
    ensures (a ^ b) ^ c == a ^ (b ^ c)
    ensures a ^ a == 0
    ensures a ^ 0 == a
  {
  }

  lemma XorComm(a: bv8, b: bv8)
    ensures Xor(a, b) == Xor(b, a)
  {
    XorFacts(a, b, 0);
  }

  lemma XorAssoc(a: bv8, b: bv8, c: bv8)
    ensures Xor(Xor(a, b), c) == Xor(a, Xor(b, c))
  {
    XorFacts(a, b, c);
  }

  lemma XorSelf(a: bv8)
    ensures Xor(a, a) == 0 && Xor(a, 0) == a
  {
  }

  lemma XorLaws(a: bv8, b: bv8, c: bv8)
    ensures Xor(a, b) == Xor(b, a)
    ensures Xor(Xor(a, b), c) == Xor(a, Xor(b, c))
    ensures Xor(a, a) == 0
    ensures Xor(a, 0) == a
  {
    hide Xor;
    XorComm(a, b);
    XorAssoc(a, b, c);
    XorSelf(a);
  }

  lemma XorSwap(a: bv8, b: bv8, c: bv8, d: bv8)
    ensures Xor(Xor(a, b), Xor(c, d)) == Xor(Xor(a, c), Xor(b, d))
  {
    hide Xor;
    XorLaws(a, b, Xor(c, d));
    XorLaws(b, c, d);
    XorLaws(c, b, d);
    XorLaws(a, c, Xor(b, d));
  }

  /** Multiply by x: shift left and reduce. */
  function Xtime(v: bv8): bv8 {
    if v & 0x80 != 0 then (v << 1) ^ 0x1B else v << 1
  }

  predicate Odd(m: bv8) {
    m & 1 != 0
  }

  function Half(m: bv8): bv8 {
    m >> 1
  }

  /** `a` times the polynomial of the lowest `n` bits of `m`. */
  function MulBits(a: bv8, m: bv8, n: nat): bv8
    decreases n
  {
    if n == 0 then 0 else Xor(if Odd(m) then a else 0, MulBits(Xtime(a), Half(m), n - 1))
  }

  function Mul(a: bv8, b: bv8): bv8 {
    MulBits(a, b, 8)
  }

  // ----- Linearity -----

  predicate Top(v: bv8) {
    v & 0x80 != 0
  }

  function Dbl(v: bv8): bv8 {
    v << 1
  }

  lemma TopFact(a: bv8, b: bv8)
    ensures (a ^ b) & 0x80 != 0 <==> (a & 0x80 != 0) != (b & 0x80 != 0)
  {
  }

  lemma DblFact(a: bv8, b: bv8)
    ensures (a ^ b) << 1 == (a << 1) ^ (b << 1)
  {
  }

  lemma TopXor(a: bv8, b: bv8)
    ensures Top(Xor(a, b)) <==> Top(a) != Top(b)
  {
    TopFact(a, b);
  }

  lemma DblXor(a: bv8, b: bv8)
    ensures Dbl(Xor(a, b)) == Xor(Dbl(a), Dbl(b))
  {
    DblFact(a, b);
  }

  lemma XtimeIs(v: bv8)
    ensures Xtime(v) == if Top(v) then Xor(Dbl(v), 0x1B) else Dbl(v)
  {
  }

  lemma XtimeLinear(a: bv8, b: bv8)
    ensures Xtime(Xor(a, b)) == Xor(Xtime(a), Xtime(b))
  {
    hide Xor, Xtime, Top, Dbl;
    XtimeIs(a);
    XtimeIs(b);
    XtimeIs(Xor(a, b));
    TopXor(a, b);
    DblXor(a, b);
    var x, y, p: bv8 := Dbl(a), Dbl(b), 0x1B;
    XorLaws(x, y, p);
    XorLaws(y, p, 0);
    XorLaws(x, p, y);
    XorSwap(x, p, y, p);
    XorLaws(p, 0, 0);
    XorLaws(Xor(x, y), 0, 0);
  }

  lemma {:induction false} MulLinear(a: bv8, b: bv8, m: bv8, n: nat)
    ensures MulBits(Xor(a, b), m, n) == Xor(MulBits(a, m, n), MulBits(b, m, n))
    decreases n
  {
    hide Xor, Xtime, Odd, Half;
    XorLaws(0, 0, 0);
    if n > 0 {
      XtimeLinear(a, b);
      MulLinear(Xtime(a), Xtime(b), Half(m), n - 1);
      XorSwap(if Odd(m) then a else 0, MulBits(Xtime(a), Half(m), n - 1),
              if Odd(m) then b else 0, MulBits(Xtime(b), Half(m), n - 1));
    }
  }

  lemma {:induction false} MulXtime(a: bv8, m: bv8, n: nat)
    ensures MulBits(Xtime(a), m, n) == Xtime(MulBits(a, m, n))
    decreases n
  {
    hide Xor, Xtime, Odd, Half;
    XtimeZero();
    XorLaws(0, 0, 0);
    if n > 0 {
      MulXtime(Xtime(a), Half(m), n - 1);
      XtimeLinear(if Odd(m) then a else 0, MulBits(Xtime(a), Half(m), n - 1));
    }
  }

  lemma XtimeZero()
    ensures Xtime(0) == 0
  {
  }

  lemma {:induction false} MulZero(m: bv8, n: nat)
    ensures MulBits(0, m, n) == 0
    decreases n
  {
    hide Xor, Xtime, Odd, Half;
    XtimeZero();
    XorLaws(0, 0, 0);
    if n > 0 {
      MulZero(Half(m), n - 1);
    }
  }

  lemma {:induction false} MulCommutes(v: bv8, a: bv8, b: bv8, n: nat, k: nat)
    ensures MulBits(MulBits(v, a, n), b, k) == MulBits(MulBits(v, b, k), a, n)
    decreases n
  {
    hide Xor, Xtime, Odd, Half;
    MulZero(b, k);
    if n > 0 {
      var x, rest := if Odd(a) then v else 0, MulBits(Xtime(v), Half(a), n - 1);
      MulLinear(x, rest, b, k);
      MulCommutes(Xtime(v), Half(a), b, n - 1, k);
      MulXtime(v, b, k);
    }
  }

  function Halves(m: bv8, n: nat): bv8
    decreases n
  {
    if n == 0 then m else Halves(Half(m), n - 1)
  }

  lemma DoubleHalf(m: bv8)
    ensures Xor(if Odd(m) then 1 else 0, Xtime(Half(m))) == m
  {
  }

  lemma {:induction false} UnitBits(m: bv8, n: nat)
    requires Halves(m, n) == 0
    ensures MulBits(1, m, n) == m
    decreases n
  {
    hide Xor, Xtime, Odd, Half;
    if n > 0 {
      UnitBits(Half(m), n - 1);
      MulXtime(1, Half(m), n - 1);
      DoubleHalf(m);
    }
  }

  lemma EightHalves(m: bv8)
    ensures Halves(m, 8) == 0
  {
  }

  // ----- Field laws -----

  lemma MulIsLinear(a: bv8, b: bv8, m: bv8)
    ensures Mul(Xor(a, b), m) == Xor(Mul(a, m), Mul(b, m))
    ensures Mul(m, Xor(a, b)) == Xor(Mul(m, a), Mul(m, b))
  {
    hide Xor, Mul, MulBits;
    MulIs(Xor(a, b), m);
    MulIs(a, m);
    MulIs(b, m);
    MulLinear(a, b, m, 8);
    MulCommutative(Xor(a, b), m);
    MulCommutative(a, m);
    MulCommutative(b, m);
  }

  lemma MulIs(a: bv8, b: bv8)
    ensures Mul(a, b) == MulBits(a, b, 8)
  {
    hide MulBits;
  }

  lemma MulUnit(a: bv8)
    ensures Mul(1, a) == a && Mul(a, 1) == a
  {
    hide MulBits, Mul, Halves;
    MulIs(1, a);
    MulIs(a, 1);
    EightHalves(a);
    EightHalves(1);
    UnitBits(a, 8);
    UnitBits(1, 8);
    MulCommutes(1, a, 1, 8, 8);
  }

  lemma MulCommutative(a: bv8, b: bv8)
    ensures Mul(a, b) == Mul(b, a)
  {
    hide MulBits, Mul;
    MulIs(a, b);
    MulIs(b, a);
    MulIs(1, a);
    MulIs(1, b);
    MulUnit(a);
    MulUnit(b);
    MulCommutes(1, a, b, 8, 8);
  }

  lemma MulAssociative(a: bv8, b: bv8, c: bv8)
    ensures Mul(Mul(a, b), c) == Mul(a, Mul(b, c))
  {
    hide MulBits, Mul;
    MulCommutative(a, b);
    MulCommutative(a, Mul(b, c));
    MulIs(b, a);
    MulIs(Mul(b, a), c);
    MulIs(b, c);
    MulIs(Mul(b, c), a);
    MulCommutes(b, a, c, 8, 8);
  }

  // ----- Inverses -----
  //
  // `Conjugate(a)` is the sixteenth power of `a`, so `a * Conjugate(a)` lies in
  // the subfield of sixteen elements, whose inverses are listed.

  function Sel(m: bv8, a: bv8): bv8 {
    if m & 1 != 0 then a else 0
  }

  function Conjugate(a: bv8): bv8 {
    Sel(a, 1) ^ Sel(a >> 1, 0x5E) ^ Sel(a >> 2, 0xE4) ^ Sel(a >> 3, 0xE8)
    ^ Sel(a >> 4, 0x4D) ^ Sel(a >> 5, 0x91) ^ Sel(a >> 6, 0x1D) ^ Sel(a >> 7, 0x6C)
  }

  /** The product with its eight steps written out. */
  function Product(a: bv8, m: bv8): bv8 {
    var a1 := Xtime(a);
    var a2 := Xtime(a1);
    var a3 := Xtime(a2);
    var a4 := Xtime(a3);
    var a5 := Xtime(a4);
    var a6 := Xtime(a5);
    var a7 := Xtime(a6);
    Xor(Sel(m, a), Xor(Sel(m >> 1, a1), Xor(Sel(m >> 2, a2), Xor(Sel(m >> 3, a3),
      Xor(Sel(m >> 4, a4), Xor(Sel(m >> 5, a5), Xor(Sel(m >> 6, a6), Xor(Sel(m >> 7, a7), 0))))))))
  }

  function SubfieldInverse(n: bv8): bv8 {
    match n
    case 0x01 => 0x01
    case 0x0C => 0xB0
    case 0x0D => 0xE1
    case 0x50 => 0xED
    case 0x51 => 0x5C
    case 0x5C => 0x51
    case 0x5D => 0xEC
    case 0xB0 => 0x0C
    case 0xB1 => 0xE0
    case 0xBC => 0xBD
    case 0xBD => 0xBC
    case 0xE0 => 0xB1
    case 0xE1 => 0x0D
    case 0xEC => 0x5D
    case 0xED => 0x50
    case _ => 0
  }

  predicate InSubfield(n: bv8) {
    n in {0x01, 0x0C, 0x0D, 0x50, 0x51, 0x5C, 0x5D, 0xB0, 0xB1, 0xBC, 0xBD, 0xE0, 0xE1, 0xEC, 0xED}
  }

  lemma StepsFact(m: bv8)
    ensures Half(m) == m >> 1 && Half(m >> 1) == m >> 2 && Half(m >> 2) == m >> 3 && Half(m >> 3) == m >> 4
    ensures Half(m >> 4) == m >> 5 && Half(m >> 5) == m >> 6 && Half(m >> 6) == m >> 7
  {
  }

  lemma MulProduct(a: bv8, m: bv8)
    ensures Mul(a, m) == Product(a, m)
  {
    hide Xtime, Half, Xor, Odd, Sel, MulBits;
    StepsFact(m);
    var a1 := Xtime(a);
    var a2 := Xtime(a1);
    var a3 := Xtime(a2);
    var a4 := Xtime(a3);
    var a5 := Xtime(a4);
    var a6 := Xtime(a5);
    MulStep(Xtime(a6), m >> 7, 0);
    MulStep(a6, m >> 6, 1);
    MulStep(a5, m >> 5, 2);
    MulStep(a4, m >> 4, 3);
    MulStep(a3, m >> 3, 4);
    MulStep(a2, m >> 2, 5);
    MulStep(a1, m >> 1, 6);
    MulStep(a, m, 7);
  }

  lemma MulStep(a: bv8, m: bv8, n: nat)
    ensures MulBits(a, m, n + 1) == Xor(Sel(m, a), MulBits(Xtime(a), Half(m), n))
    ensures MulBits(a, m, 0) == 0
    ensures n == 0 ==> MulBits(a, m, n + 1) == Xor(Sel(m, a), 0)
  {
    hide Xtime, Half, Xor;
  }

  lemma NormNonzero(a: bv8)
    requires a != 0
    ensures Product(a, Conjugate(a)) != 0
  {
  }

  predicate Fixed(n: bv8) {
    && n & 2 == 0 && (n >> 2) & 1 == (n >> 3) & 1 && (n >> 5) & 1 == (n >> 7) & 1
    && (n >> 4) & 1 == ((n >> 5) & 1) ^ ((n >> 6) & 1)
  }

  lemma NormFixed(a: bv8)
    ensures Fixed(Product(a, Conjugate(a)))
  {
  }

  lemma FixedIsSubfield(n: bv8)
    requires Fixed(n) && n != 0
    ensures InSubfield(n)
  {
  }

  lemma SubfieldInverts(n: bv8)
    requires InSubfield(n)
    ensures Product(n, SubfieldInverse(n)) == 1
  {
  }

  /** The multiplicative inverse; zero is its own. */
  function Inverse(a: bv8): bv8 {
    if a == 0 then 0 else Mul(Conjugate(a), SubfieldInverse(Mul(a, Conjugate(a))))
  }

  /** `Inverse(a)` is the one element whose product with `a` is 1. */
  lemma InverseIsUnique(a: bv8, b: bv8)
    requires a != 0
    ensures Mul(a, b) == 1 <==> b == Inverse(a)
  {
    hide Mul, Conjugate, SubfieldInverse, Product, InSubfield, Fixed;
    var c := Conjugate(a);
    var n := Mul(a, c);
    MulProduct(a, c);
    NormNonzero(a);
    NormFixed(a);
    FixedIsSubfield(n);
    SubfieldInverts(n);
    MulProduct(n, SubfieldInverse(n));
    MulAssociative(a, c, SubfieldInverse(n));
    var i := Inverse(a);
    assert Mul(a, i) == 1;
    MulCommutative(a, i);
    MulAssociative(i, a, b);
    MulUnit(b);
    MulUnit(i);
  }

  lemma MulByZero(b: bv8)
    ensures Mul(0, b) == 0
  {
    hide MulBits, Mul;
    MulIs(0, b);
    MulZero(b, 8);
  }

  lemma InverseTwice(a: bv8)
    ensures Inverse(Inverse(a)) == a
  {
    hide Inverse, Mul;
    assert Inverse(0) == 0 by {
      InverseOfZero();
    }
    if a != 0 {
      var i := Inverse(a);
      InverseIsUnique(a, i);
      MulByZero(a);
      MulCommutative(a, i);
      InverseIsUnique(i, a);
    }
  }

  lemma InverseOfZero()
    ensures Inverse(0) == 0
  {
  }
}
