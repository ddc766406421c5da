/**
 The AES on 16-byte states (FIPS 197): the cipher, the Equivalent Inverse
 Cipher of section 5.3.5 with round keys in the order of use, and the proof
 that the second undoes the first.
 */
module Aes {
  import opened Gf8

  /** Four bytes, top row first. */
  datatype Column = Column(r0: bv8, r1: bv8, r2: bv8, r3: bv8)

  datatype State = State(c0: Column, c1: Column, c2: Column, c3: Column)

  // ----- The S-box -----

  function Rotl(s: bv8): bv8 {
    (s << 1) | (s >> 7)
  }

  function Affine(y: bv8): bv8 {
    var s1 := Rotl(y);
    var s2 := Rotl(s1);
    var s3 := Rotl(s2);
    var s4 := Rotl(s3);
    y ^ s1 ^ s2 ^ s3 ^ s4 ^ 0x63
  }

  function AffineInverse(x: bv8): bv8 {
    var s1 := Rotl(x);
    var s3 := Rotl(Rotl(s1));
    var s6 := Rotl(Rotl(Rotl(s3)));
    s1 ^ s3 ^ s6 ^ 0x05
  }

  function Sbox(x: bv8): bv8 {
    Affine(Inverse(x))
  }

  function InvSbox(x: bv8): bv8 {
    Inverse(AffineInverse(x))
  }

  lemma AffineInverts(x: bv8)
    ensures AffineInverse(Affine(x)) == x && Affine(AffineInverse(x)) == x
  {
  }

  /** The inverse S-box is the inverse permutation of the S-box. */
  lemma SboxInverts(x: bv8)
    ensures InvSbox(Sbox(x)) == x && Sbox(InvSbox(x)) == x
  {
    hide Affine, AffineInverse, Inverse;
    AffineInverts(Inverse(x));
    InverseTwice(x);
    AffineInverts(x);
    InverseTwice(AffineInverse(x));
  }

  // ----- Columns -----

  function Xor4(a: bv8, b: bv8, c: bv8, d: bv8): bv8 {
    Xor(Xor(a, b), Xor(c, d))
  }

  function MixRow(a: bv8, b: bv8, c: bv8, d: bv8): bv8 {
    Xor4(Mul(2, a), Mul(3, b), c, d)
  }

  function InvMixRow(a: bv8, b: bv8, c: bv8, d: bv8): bv8 {
    Xor4(Mul(0x0E, a), Mul(0x0B, b), Mul(0x0D, c), Mul(9, d))
  }

  /** Each row sees the column rotated to start at itself. */
  function MixColumn(c: Column): Column {
    Column(MixRow(c.r0, c.r1, c.r2, c.r3), MixRow(c.r1, c.r2, c.r3, c.r0),
           MixRow(c.r2, c.r3, c.r0, c.r1), MixRow(c.r3, c.r0, c.r1, c.r2))
  }

  function InvMixColumn(c: Column): Column {
    Column(InvMixRow(c.r0, c.r1, c.r2, c.r3), InvMixRow(c.r1, c.r2, c.r3, c.r0),
           InvMixRow(c.r2, c.r3, c.r0, c.r1), InvMixRow(c.r3, c.r0, c.r1, c.r2))
  }

  function XorColumn(a: Column, b: Column): Column {
    Column(Xor(a.r0, b.r0), Xor(a.r1, b.r1), Xor(a.r2, b.r2), Xor(a.r3, b.r3))
  }

  /** Sums of four can be added componentwise. */
  lemma Xor4Add(a0: bv8, a1: bv8, a2: bv8, a3: bv8, b0: bv8, b1: bv8, b2: bv8, b3: bv8)
    ensures Xor(Xor4(a0, a1, a2, a3), Xor4(b0, b1, b2, b3)) == Xor4(Xor(a0, b0), Xor(a1, b1), Xor(a2, b2), Xor(a3, b3))
  {
    hide Xor;
    XorSwap(Xor(a0, a1), Xor(a2, a3), Xor(b0, b1), Xor(b2, b3));
    XorSwap(a0, a1, b0, b1);
    XorSwap(a2, a3, b2, b3);
  }

  lemma InvMixRowLinear(a: Column, b: Column)
    ensures InvMixRow(Xor(a.r0, b.r0), Xor(a.r1, b.r1), Xor(a.r2, b.r2), Xor(a.r3, b.r3))
         == Xor(InvMixRow(a.r0, a.r1, a.r2, a.r3), InvMixRow(b.r0, b.r1, b.r2, b.r3))
  {
    hide Xor, Xor4, Mul;
    MulIsLinear(a.r0, b.r0, 0x0E);
    MulIsLinear(a.r1, b.r1, 0x0B);
    MulIsLinear(a.r2, b.r2, 0x0D);
    MulIsLinear(a.r3, b.r3, 9);
    Xor4Add(Mul(0x0E, a.r0), Mul(0x0B, a.r1), Mul(0x0D, a.r2), Mul(9, a.r3),
            Mul(0x0E, b.r0), Mul(0x0B, b.r1), Mul(0x0D, b.r2), Mul(9, b.r3));
  }

  lemma InvMixColumnLinear(a: Column, b: Column)
    ensures InvMixColumn(XorColumn(a, b)) == XorColumn(InvMixColumn(a), InvMixColumn(b))
  {
    hide Xor, InvMixRow;
    InvMixRowLinear(a, b);
    InvMixRowLinear(Column(a.r1, a.r2, a.r3, a.r0), Column(b.r1, b.r2, b.r3, b.r0));
    InvMixRowLinear(Column(a.r2, a.r3, a.r0, a.r1), Column(b.r2, b.r3, b.r0, b.r1));
    InvMixRowLinear(Column(a.r3, a.r0, a.r1, a.r2), Column(b.r3, b.r0, b.r1, b.r2));
  }

  // ----- MixColumns and its inverse -----

  /** A factor distributed over a row. */
  lemma Distribute(k: bv8, a: bv8, b: bv8, c: bv8, d: bv8)
    ensures Mul(k, Xor4(a, b, c, d)) == Xor4(Mul(k, a), Mul(k, b), Mul(k, c), Mul(k, d))
  {
    hide Xor, Mul;
    MulIsLinear(Xor(a, b), Xor(c, d), k);
    MulIsLinear(a, b, k);
    MulIsLinear(c, d, k);
  }

  /** Multiples of one element add up by their factors. */
  lemma Collect(p: bv8, q: bv8, r: bv8, s: bv8, a: bv8)
    ensures Xor4(Mul(p, a), Mul(q, a), Mul(r, a), Mul(s, a)) == Mul(Xor4(p, q, r, s), a)
  {
    hide Xor, Mul;
    MulIsLinear(Xor(p, q), Xor(r, s), a);
    MulIsLinear(p, q, a);
    MulIsLinear(r, s, a);
  }

  lemma Transpose(a0: bv8, a1: bv8, a2: bv8, a3: bv8, b0: bv8, b1: bv8, b2: bv8, b3: bv8,
                  c0: bv8, c1: bv8, c2: bv8, c3: bv8, d0: bv8, d1: bv8, d2: bv8, d3: bv8)
    ensures Xor4(Xor4(a0, a1, a2, a3), Xor4(b0, b1, b2, b3), Xor4(c0, c1, c2, c3), Xor4(d0, d1, d2, d3))
         == Xor4(Xor4(a0, b0, c0, d0), Xor4(a1, b1, c1, d1), Xor4(a2, b2, c2, d2), Xor4(a3, b3, c3, d3))
  {
    hide Xor;
    Xor4Add(a0, a1, a2, a3, b0, b1, b2, b3);
    Xor4Add(c0, c1, c2, c3, d0, d1, d2, d3);
    Xor4Add(Xor(a0, b0), Xor(a1, b1), Xor(a2, b2), Xor(a3, b3), Xor(c0, d0), Xor(c1, d1), Xor(c2, d2), Xor(c3, d3));
  }

  /** `k` times a row of MixColumns, by columns. */
  lemma ScaledMixRow(k: bv8, a: bv8, b: bv8, c: bv8, d: bv8)
    ensures Mul(k, MixRow(a, b, c, d)) == Xor4(Mul(Mul(k, 2), a), Mul(Mul(k, 3), b), Mul(k, c), Mul(k, d))
  {
    hide Xor4, Mul;
    Distribute(k, Mul(2, a), Mul(3, b), c, d);
    MulAssociative(k, 2, a);
    MulAssociative(k, 3, b);
  }

  lemma ScaledInvMixRow(k: bv8, a: bv8, b: bv8, c: bv8, d: bv8)
    ensures Mul(k, InvMixRow(a, b, c, d))
            == Xor4(Mul(Mul(k, 0x0E), a), Mul(Mul(k, 0x0B), b), Mul(Mul(k, 0x0D), c), Mul(Mul(k, 9), d))
  {
    hide Xor4, Mul;
    Distribute(k, Mul(0x0E, a), Mul(0x0B, b), Mul(0x0D, c), Mul(9, d));
    MulAssociative(k, 0x0E, a);
    MulAssociative(k, 0x0B, b);
    MulAssociative(k, 0x0D, c);
    MulAssociative(k, 9, d);
  }

  lemma Twos()
    ensures Mul(0x0E, 2) == 0x1C && Mul(0x0B, 2) == 0x16 && Mul(0x0D, 2) == 0x1A && Mul(9, 2) == 0x12
  {
  }

  lemma Threes()
    ensures Mul(0x0E, 3) == 0x12 && Mul(0x0B, 3) == 0x1D && Mul(0x0D, 3) == 0x17 && Mul(9, 3) == 0x1B
  {
  }

  lemma Sums()
    ensures Xor4(0x1C, 0x0B, 0x0D, 0x1B) == 1
    ensures Xor4(0x12, 0x16, 0x0D, 9) == 0
    ensures Xor4(0x0E, 0x1D, 0x1A, 9) == 0
    ensures Xor4(0x0E, 0x0B, 0x17, 0x12) == 0
  {
  }

  lemma OnlyFirst(a: bv8)
    ensures Xor4(a, 0, 0, 0) == a
  {
  }

  /** The first row of InvMixColumns after MixColumns. */
  lemma RowInverts(a: bv8, b: bv8, c: bv8, d: bv8)
    ensures InvMixRow(MixRow(a, b, c, d), MixRow(b, c, d, a), MixRow(c, d, a, b), MixRow(d, a, b, c)) == a
  {
    hide Xor4, Mul, MixRow;
    Twos();
    Threes();
    Sums();
    ScaledMixRow(0x0E, a, b, c, d);
    ScaledMixRow(0x0B, b, c, d, a);
    ScaledMixRow(0x0D, c, d, a, b);
    ScaledMixRow(9, d, a, b, c);
    Rotate4(Mul(0x16, b), Mul(0x1D, c), Mul(0x0B, d), Mul(0x0B, a));
    Rotate4(Mul(0x1A, c), Mul(0x17, d), Mul(0x0D, a), Mul(0x0D, b));
    Rotate4(Mul(0x12, d), Mul(0x1B, a), Mul(9, b), Mul(9, c));
    Transpose(Mul(0x1C, a), Mul(0x12, b), Mul(0x0E, c), Mul(0x0E, d),
              Mul(0x0B, a), Mul(0x16, b), Mul(0x1D, c), Mul(0x0B, d),
              Mul(0x0D, a), Mul(0x0D, b), Mul(0x1A, c), Mul(0x17, d), Mul(0x1B, a), Mul(9, b), Mul(9, c), Mul(0x12, d));
    Collect(0x1C, 0x0B, 0x0D, 0x1B, a);
    Collect(0x12, 0x16, 0x0D, 9, b);
    Collect(0x0E, 0x1D, 0x1A, 9, c);
    Collect(0x0E, 0x0B, 0x17, 0x12, d);
    MulUnit(a);
    MulByZero(b);
    MulByZero(c);
    MulByZero(d);
    OnlyFirst(a);
  }

  /** The terms of a sum of four may be rotated. */
  lemma Rotate4(a: bv8, b: bv8, c: bv8, d: bv8)
    ensures Xor4(a, b, c, d) == Xor4(d, a, b, c) == Xor4(c, d, a, b) == Xor4(b, c, d, a)
  {
    hide Xor;
    XorSwap(a, b, c, d);
    XorLaws(Xor(a, b), Xor(c, d), 0);
    XorLaws(a, d, 0);
    XorLaws(b, c, 0);
    XorSwap(d, a, b, c);
    XorLaws(Xor(d, a), Xor(b, c), 0);
    XorLaws(d, b, 0);
    XorLaws(a, c, 0);
    XorLaws(Xor(a, c), Xor(b, d), 0);
  }

  lemma SwappedFactors()
    ensures Mul(2, 0x0E) == 0x1C && Mul(2, 0x0B) == 0x16 && Mul(2, 0x0D) == 0x1A && Mul(2, 9) == 0x12
    ensures Mul(3, 0x0E) == 0x12 && Mul(3, 0x0B) == 0x1D && Mul(3, 0x0D) == 0x17 && Mul(3, 9) == 0x1B
  {
    hide Mul;
    Twos();
    Threes();
    MulCommutative(2, 0x0E);
    MulCommutative(2, 0x0B);
    MulCommutative(2, 0x0D);
    MulCommutative(2, 9);
    MulCommutative(3, 0x0E);
    MulCommutative(3, 0x0B);
    MulCommutative(3, 0x0D);
    MulCommutative(3, 9);
  }

  lemma MoreSums()
    ensures Xor4(0x1C, 0x1B, 0x0D, 0x0B) == 1
    ensures Xor4(0x16, 0x12, 9, 0x0D) == 0
    ensures Xor4(0x1A, 0x1D, 0x0E, 9) == 0
    ensures Xor4(0x12, 0x17, 0x0B, 0x0E) == 0
  {
  }

  /** The first row of MixColumns after InvMixColumns. */
  lemma RowRestores(a: bv8, b: bv8, c: bv8, d: bv8)
    ensures MixRow(InvMixRow(a, b, c, d), InvMixRow(b, c, d, a), InvMixRow(c, d, a, b), InvMixRow(d, a, b, c)) == a
  {
    hide Xor4, Mul;
    SwappedFactors();
    MoreSums();
    ScaledInvMixRow(2, a, b, c, d);
    ScaledInvMixRow(3, b, c, d, a);
    Rotate4(Mul(0x12, b), Mul(0x1D, c), Mul(0x17, d), Mul(0x1B, a));
    Rotate4(Mul(0x0E, c), Mul(0x0B, d), Mul(0x0D, a), Mul(9, b));
    Rotate4(Mul(0x0E, d), Mul(0x0B, a), Mul(0x0D, b), Mul(9, c));
    Transpose(Mul(0x1C, a), Mul(0x16, b), Mul(0x1A, c), Mul(0x12, d),
              Mul(0x1B, a), Mul(0x12, b), Mul(0x1D, c), Mul(0x17, d),
              Mul(0x0D, a), Mul(9, b), Mul(0x0E, c), Mul(0x0B, d), Mul(0x0B, a), Mul(0x0D, b), Mul(9, c), Mul(0x0E, d));
    Collect(0x1C, 0x1B, 0x0D, 0x0B, a);
    Collect(0x16, 0x12, 9, 0x0D, b);
    Collect(0x1A, 0x1D, 0x0E, 9, c);
    Collect(0x12, 0x17, 0x0B, 0x0E, d);
    MulUnit(a);
    MulByZero(b);
    MulByZero(c);
    MulByZero(d);
    OnlyFirst(a);
  }

  /** The two column transformations undo each other. */
  lemma MixColumnInverts(c: Column)
    ensures InvMixColumn(MixColumn(c)) == c
    ensures MixColumn(InvMixColumn(c)) == c
  {
    hide MixRow, InvMixRow;
    RowInverts(c.r0, c.r1, c.r2, c.r3);
    RowInverts(c.r1, c.r2, c.r3, c.r0);
    RowInverts(c.r2, c.r3, c.r0, c.r1);
    RowInverts(c.r3, c.r0, c.r1, c.r2);
    RowRestores(c.r0, c.r1, c.r2, c.r3);
    RowRestores(c.r1, c.r2, c.r3, c.r0);
    RowRestores(c.r2, c.r3, c.r0, c.r1);
    RowRestores(c.r3, c.r0, c.r1, c.r2);
  }

  // ----- States -----

  function MixColumns(s: State): State {
    State(MixColumn(s.c0), MixColumn(s.c1), MixColumn(s.c2), MixColumn(s.c3))
  }

  function InvMixColumns(s: State): State {
    State(InvMixColumn(s.c0), InvMixColumn(s.c1), InvMixColumn(s.c2), InvMixColumn(s.c3))
  }

  function AddRoundKey(s: State, k: State): State {
    State(XorColumn(s.c0, k.c0), XorColumn(s.c1, k.c1), XorColumn(s.c2, k.c2), XorColumn(s.c3, k.c3))
  }

  function SubColumn(c: Column): Column {
    Column(Sbox(c.r0), Sbox(c.r1), Sbox(c.r2), Sbox(c.r3))
  }

  function InvSubColumn(c: Column): Column {
    Column(InvSbox(c.r0), InvSbox(c.r1), InvSbox(c.r2), InvSbox(c.r3))
  }

  function SubBytes(s: State): State {
    State(SubColumn(s.c0), SubColumn(s.c1), SubColumn(s.c2), SubColumn(s.c3))
  }

  function InvSubBytes(s: State): State {
    State(InvSubColumn(s.c0), InvSubColumn(s.c1), InvSubColumn(s.c2), InvSubColumn(s.c3))
  }

  /** Row `r` moves `r` columns to the left. */
  function ShiftRows(s: State): State {
    State(Column(s.c0.r0, s.c1.r1, s.c2.r2, s.c3.r3), Column(s.c1.r0, s.c2.r1, s.c3.r2, s.c0.r3),
          Column(s.c2.r0, s.c3.r1, s.c0.r2, s.c1.r3), Column(s.c3.r0, s.c0.r1, s.c1.r2, s.c2.r3))
  }

  /** Row `r` moves `r` columns to the right. */
  function InvShiftRows(s: State): State {
    State(Column(s.c0.r0, s.c3.r1, s.c2.r2, s.c1.r3), Column(s.c1.r0, s.c0.r1, s.c3.r2, s.c2.r3),
          Column(s.c2.r0, s.c1.r1, s.c0.r2, s.c3.r3), Column(s.c3.r0, s.c2.r1, s.c1.r2, s.c0.r3))
  }

  lemma InvSubShift(s: State)
    ensures InvShiftRows(InvSubBytes(ShiftRows(SubBytes(s)))) == s
  {
    hide Sbox, InvSbox;
    SubColumnInverts(s.c0);
    SubColumnInverts(s.c1);
    SubColumnInverts(s.c2);
    SubColumnInverts(s.c3);
  }

  lemma SubColumnInverts(c: Column)
    ensures InvSubColumn(SubColumn(c)) == c
  {
    hide Sbox, InvSbox;
    SboxInverts(c.r0);
    SboxInverts(c.r1);
    SboxInverts(c.r2);
    SboxInverts(c.r3);
  }

  lemma MixColumnsInverts(s: State)
    ensures InvMixColumns(MixColumns(s)) == s && MixColumns(InvMixColumns(s)) == s
  {
    hide MixColumn, InvMixColumn;
    MixColumnInverts(s.c0);
    MixColumnInverts(s.c1);
    MixColumnInverts(s.c2);
    MixColumnInverts(s.c3);
  }

  lemma InvMixColumnsLinear(a: State, b: State)
    ensures InvMixColumns(AddRoundKey(a, b)) == AddRoundKey(InvMixColumns(a), InvMixColumns(b))
  {
    hide InvMixColumn, XorColumn;
    InvMixColumnLinear(a.c0, b.c0);
    InvMixColumnLinear(a.c1, b.c1);
    InvMixColumnLinear(a.c2, b.c2);
    InvMixColumnLinear(a.c3, b.c3);
  }

  lemma AddRoundKeyTwice(a: State, k: State)
    ensures AddRoundKey(AddRoundKey(a, k), k) == a
  {
    hide XorColumn;
    XorColumnTwice(a.c0, k.c0);
    XorColumnTwice(a.c1, k.c1);
    XorColumnTwice(a.c2, k.c2);
    XorColumnTwice(a.c3, k.c3);
  }

  lemma XorColumnTwice(a: Column, k: Column)
    ensures XorColumn(XorColumn(a, k), k) == a
  {
    hide Xor;
    XorTwice(a.r0, k.r0);
    XorTwice(a.r1, k.r1);
    XorTwice(a.r2, k.r2);
    XorTwice(a.r3, k.r3);
  }

  lemma XorTwice(a: bv8, b: bv8)
    ensures Xor(Xor(a, b), b) == a
  {
    XorFacts(a, b, b);
  }

  // ----- The ciphers -----

  /** The state after the first AddRoundKey and `r` rounds of the cipher. */
  function CipherRounds(s: State, keys: seq<State>, r: nat): State
    requires r < |keys|
  {
    if r == 0 then AddRoundKey(s, keys[0])
    else AddRoundKey(MixColumns(ShiftRows(SubBytes(CipherRounds(s, keys, r - 1)))), keys[r])
  }

  /** FIPS 197, section 5.1; the last round does not mix columns. */
  function Cipher(s: State, keys: seq<State>): State
    requires |keys| >= 2
  {
    AddRoundKey(ShiftRows(SubBytes(CipherRounds(s, keys, |keys| - 2))), keys[|keys| - 1])
  }

  /** The state after the first AddRoundKey and `r` rounds of the inverse. */
  function InverseRounds(s: State, keys: seq<State>, r: nat): State
    requires r < |keys|
  {
    if r == 0 then AddRoundKey(s, keys[0])
    else AddRoundKey(InvMixColumns(InvShiftRows(InvSubBytes(InverseRounds(s, keys, r - 1)))), keys[r])
  }

  /**
   The Equivalent Inverse Cipher. With one key the loop of rounds is empty and
   that key is used first and last.
   */
  function InverseCipher(s: State, keys: seq<State>): State
    requires |keys| >= 1
  {
    AddRoundKey(InvShiftRows(InvSubBytes(InverseRounds(s, keys, if |keys| == 1 then 0 else |keys| - 2))),
                keys[|keys| - 1])
  }

  /** The round keys for the inverse: reversed, and all but the outer two through InvMixColumns. */
  function DecryptionKeys(keys: seq<State>): (r: seq<State>)
    ensures |r| == |keys|
  {
    seq(|keys|, i requires 0 <= i < |keys| =>
      if i == 0 || i == |keys| - 1 then keys[|keys| - 1 - i] else InvMixColumns(keys[|keys| - 1 - i]))
  }

  /** After `i` rounds the inverse is where the cipher was before its last `i + 1`, shifted and substituted. */
  lemma {:induction false} RoundsMeet(s: State, keys: seq<State>, i: nat)
    requires i + 2 <= |keys|
    ensures InverseRounds(Cipher(s, keys), DecryptionKeys(keys), i)
            == ShiftRows(SubBytes(CipherRounds(s, keys, |keys| - 2 - i)))
  {
    hide ShiftRows, SubBytes, InvShiftRows, InvSubBytes, MixColumns, InvMixColumns, AddRoundKey;
    var n := |keys| - 2;
    if i == 0 {
      AddRoundKeyTwice(ShiftRows(SubBytes(CipherRounds(s, keys, n))), keys[n + 1]);
    } else {
      RoundsMeet(s, keys, i - 1);
      var e := CipherRounds(s, keys, n - (i - 1));
      InvSubShift(e);
      var mixed := ShiftRows(SubBytes(CipherRounds(s, keys, n - i)));
      InvMixColumnsLinear(MixColumns(mixed), keys[n - (i - 1)]);
      MixColumnsInverts(mixed);
      AddRoundKeyTwice(mixed, InvMixColumns(keys[n - (i - 1)]));
    }
  }

  /** Under the derived keys the Equivalent Inverse Cipher undoes the cipher, for every key schedule of any length. */
  lemma InverseCipherInverts(s: State, keys: seq<State>)
    requires |keys| >= 2
    ensures InverseCipher(Cipher(s, keys), DecryptionKeys(keys)) == s
  {
    hide ShiftRows, SubBytes, InvShiftRows, InvSubBytes, AddRoundKey, InverseRounds, Cipher;
    RoundsMeet(s, keys, |keys| - 2);
    InvSubShift(CipherRounds(s, keys, 0));
    AddRoundKeyTwice(s, keys[0]);
  }
}
