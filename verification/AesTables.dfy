/** The AES decryption tables, built by loops over GF(2^8). */
module AesTables {
  import opened Words
  import Gf8
  import Aes

  /** The shift-and-add loop. */
  method GfMul(a: bv8, b: bv8) returns (p: bv8)
    ensures p == Gf8.Mul(a, b)
  {
    hide Gf8.Xor, Gf8.Xtime, Gf8.Odd, Gf8.Half;
    p := 0;
    var x, m := a, b;
    Gf8.XorLaws(0, Gf8.Mul(a, b), 0);
    Gf8.XorLaws(Gf8.Mul(a, b), 0, 0);
    for i := 0 to 8
      invariant Gf8.Xor(p, Gf8.MulBits(x, m, 8 - i)) == Gf8.Mul(a, b)
    {
      Gf8.XorLaws(p, if Gf8.Odd(m) then x else 0, Gf8.MulBits(Gf8.Xtime(x), Gf8.Half(m), 8 - i - 1));
      Gf8.XorLaws(p, 0, 0);
      if Gf8.Odd(m) {
        p := Gf8.Xor(p, x);
      }
      x := Gf8.Xtime(x);
      m := Gf8.Half(m);
    }
    Gf8.XorLaws(p, 0, 0);
  }

  /** The inverse of `a`, by trying every byte; zero when none is found. */
  method SearchInverse(a: bv8) returns (r: bv8)
    requires a != 0
    ensures r == Gf8.Inverse(a)
  {
    hide Gf8.Inverse, Gf8.Mul;
    r := 0;
    ghost var i := Gf8.Inverse(a);
    Gf8.InverseIsUnique(a, i);
    ByteOfNat(i);
    assert i != 0 by {
      Gf8.MulByZero(a);
      Gf8.MulCommutative(a, 0);
    }
    for b := 1 to 256
      invariant r == 0 && b <= i as nat
    {
      NatOfByte(b);
      var p := GfMul(a, b as bv8);
      Gf8.InverseIsUnique(a, b as bv8);
      if p == 1 {
        r := b as bv8;
        break;
      }
      assert b != i as nat;
    }
  }

  /** `y` rotated left by `r` bits. */
  function Rotated(y: bv8, r: nat): bv8 {
    if r == 0 then y else Aes.Rotl(Rotated(y, r - 1))
  }

  function RotatedSum(y: bv8, r: nat): bv8 {
    if r == 0 then y else Gf8.Xor(RotatedSum(y, r - 1), Rotated(y, r))
  }

  lemma FourRotations(y: bv8)
    ensures Gf8.Xor(RotatedSum(y, 4), 0x63) == Aes.Affine(y)
  {
    hide Aes.Rotl;
    assert Rotated(y, 0) == y && RotatedSum(y, 0) == y;
    assert Rotated(y, 1) == Aes.Rotl(y);
    assert Rotated(y, 2) == Aes.Rotl(Rotated(y, 1));
    assert Rotated(y, 3) == Aes.Rotl(Rotated(y, 2));
    assert RotatedSum(y, 1) == Gf8.Xor(y, Rotated(y, 1));
    assert RotatedSum(y, 2) == Gf8.Xor(RotatedSum(y, 1), Rotated(y, 2));
    assert RotatedSum(y, 3) == Gf8.Xor(RotatedSum(y, 2), Rotated(y, 3));
  }

  /** The affine transformation, by adding four rotations. */
  method AffineOf(y: bv8) returns (x: bv8)
    ensures x == Aes.Affine(y)
  {
    hide Aes.Affine, Aes.Rotl, Gf8.Xor;
    x := y;
    var s := y;
    for r := 0 to 4
      invariant s == Rotated(y, r) && x == RotatedSum(y, r)
    {
      s := Aes.Rotl(s);
      x := Gf8.Xor(x, s);
    }
    FourRotations(y);
    x := Gf8.Xor(x, 0x63);
  }

  function InverseAt(i: nat): bv8
    requires i < 0x100
  {
    Gf8.Inverse(i as bv8)
  }

  function SboxAt(i: nat): bv8
    requires i < 0x100
  {
    Aes.Sbox(i as bv8)
  }

  lemma SboxAtIs(i: nat)
    requires i < 0x100
    ensures SboxAt(i) == Aes.Affine(InverseAt(i))
  {
    hide Aes.Affine, Gf8.Inverse;
  }

  method InverseTable() returns (inverses: seq<bv8>)
    ensures |inverses| == 0x100
    ensures forall i :: 0 <= i < 0x100 ==> inverses[i] == InverseAt(i)
  {
    hide Gf8.Inverse;
    var inv := new bv8[0x100](i => 0);
    InverseOfZero();
    for a := 1 to 0x100
      invariant forall i :: 0 <= i < a ==> inv[i] == InverseAt(i)
    {
      ByteNonzero(a);
      inv[a] := SearchInverse(a as bv8);
    }
    inverses := inv[..];
  }

  method SboxTable() returns (table: seq<bv8>)
    ensures |table| == 0x100
    ensures forall i :: 0 <= i < 0x100 ==> table[i] == SboxAt(i)
  {
    hide Aes.Affine, Gf8.Inverse, SboxAt, InverseAt;
    var inverses := InverseTable();
    var sb := new bv8[0x100];
    for i := 0 to 0x100
      invariant forall j :: 0 <= j < i ==> sb[j] == SboxAt(j)
    {
      SboxAtIs(i);
      sb[i] := AffineOf(inverses[i]);
    }
    table := sb[..];
  }

  lemma ByteNonzero(a: nat)
    requires 0 < a < 0x100
    ensures a as bv8 != 0
  {
    NatOfByte(a);
  }

  lemma InverseOfZero()
    ensures InverseAt(0) == 0
  {
    Gf8.InverseOfZero();
  }

  /** The inverse S-box, by scattering the S-box. */
  method InvSboxTable() returns (isb: seq<bv8>)
    ensures |isb| == 0x100
    ensures forall x: bv8 :: isb[x as nat] == Aes.InvSbox(x)
  {
    hide Aes.InvSbox, Aes.Sbox, SboxAt, ScatteredTo;
    var sb := SboxTable();
    var t := new bv8[0x100](i => 0);
    NoneScattered(t[..]);
    for i := 0 to 0x100
      invariant ScatteredTo(t[..], i)
    {
      ScatterStep(t[..], i);
      var at := sb[i] as nat;
      ghost var before := t[..];
      t[at] := i as bv8;
      assert t[..] == before[at := i as bv8];
    }
    isb := t[..];
    ScatteredIsInverse(isb);
  }

  /** The first `i` values of the S-box point back to their arguments. */
  ghost predicate ScatteredTo(t: seq<bv8>, i: nat) {
    |t| == 0x100 && i <= 0x100 && forall j :: 0 <= j < i ==> t[SboxAt(j) as nat] == j as bv8
  }

  lemma NoneScattered(t: seq<bv8>)
    requires |t| == 0x100
    ensures ScatteredTo(t, 0)
  {
  }

  lemma ScatterStep(t: seq<bv8>, i: nat)
    requires ScatteredTo(t, i) && i < 0x100
    ensures SboxAt(i) as nat < |t| && ScatteredTo(t[SboxAt(i) as nat := i as bv8], i + 1)
  {
    hide SboxAt;
    SboxAtDiffers(i);
    ByteOfNat(SboxAt(i));
  }

  lemma SboxAtDiffers(i: nat)
    requires i < 0x100
    ensures forall j :: 0 <= j < i ==> SboxAt(j) as nat != SboxAt(i) as nat
  {
    hide SboxAt;
    forall j | 0 <= j < i
      ensures SboxAt(j) as nat != SboxAt(i) as nat
    {
      SboxInjective(j, i);
    }
  }

  lemma ScatteredIsInverse(t: seq<bv8>)
    requires ScatteredTo(t, 0x100)
    ensures forall x: bv8 :: t[x as nat] == Aes.InvSbox(x)
  {
    hide Aes.InvSbox, Aes.Sbox, SboxAt;
    forall x: bv8
      ensures t[x as nat] == Aes.InvSbox(x)
    {
      var j := Aes.InvSbox(x) as nat;
      ByteOfNat(Aes.InvSbox(x));
      SboxAtInverse(x);
      assert t[SboxAt(j) as nat] == j as bv8;
    }
  }

  lemma SboxAtInverse(x: bv8)
    ensures SboxAt(Aes.InvSbox(x) as nat) == x
  {
    hide Aes.Sbox, Aes.InvSbox;
    Aes.SboxInverts(x);
    ByteOfNat(Aes.InvSbox(x));
  }

  lemma SboxInjective(i: nat, j: nat)
    requires i < j < 0x100
    ensures SboxAt(i) as nat != SboxAt(j) as nat
  {
    hide Aes.Sbox, Aes.InvSbox;
    Aes.SboxInverts(i as bv8);
    Aes.SboxInverts(j as bv8);
    NatOfByte(i);
    NatOfByte(j);
    ByteOfNat(Aes.Sbox(i as bv8));
    ByteOfNat(Aes.Sbox(j as bv8));
  }

  // ----- The five tables -----

  /** Each table holds 256 little-endian words. */
  datatype Tables = Tables(cm1: seq<bv8>, cm2: seq<bv8>, cm3: seq<bv8>, cm4: seq<bv8>, sbox: seq<bv8>)

  /** The contribution of a byte to its column, for each of the four rows it may come from. */
  function T1(x: bv8): bv32 {
    var s := Aes.InvSbox(x);
    Join(Gf8.Mul(0x0B, s), Gf8.Mul(0x0D, s), Gf8.Mul(9, s), Gf8.Mul(0x0E, s))
  }

  function T2(x: bv8): bv32 {
    var s := Aes.InvSbox(x);
    Join(Gf8.Mul(0x0D, s), Gf8.Mul(9, s), Gf8.Mul(0x0E, s), Gf8.Mul(0x0B, s))
  }

  function T3(x: bv8): bv32 {
    var s := Aes.InvSbox(x);
    Join(Gf8.Mul(9, s), Gf8.Mul(0x0E, s), Gf8.Mul(0x0B, s), Gf8.Mul(0x0D, s))
  }

  function T4(x: bv8): bv32 {
    var s := Aes.InvSbox(x);
    Join(Gf8.Mul(0x0E, s), Gf8.Mul(0x0B, s), Gf8.Mul(0x0D, s), Gf8.Mul(9, s))
  }

  function Quad(x: bv8): bv32 {
    var s := Aes.InvSbox(x);
    Join(s, s, s, s)
  }

  /** Entries 0..n of a table of words hold the values of `f`. */
  ghost predicate FilledTo(table: seq<bv8>, f: bv8 -> bv32, n: nat) {
    && |table| == 0x400 && n <= 0x100
    && forall i: nat :: i < n ==> EntryAt(table, i) == f(i as bv8)
  }

  function EntryAt(table: seq<bv8>, i: nat): bv32
    requires 4 * i + 4 <= |table|
  {
    Get(table, 4 * i)
  }

  ghost predicate BuiltTo(t: Tables, n: nat) {
    FilledTo(t.cm1, T1, n) && FilledTo(t.cm2, T2, n) && FilledTo(t.cm3, T3, n) && FilledTo(t.cm4, T4, n)
    && FilledTo(t.sbox, Quad, n)
  }

  /** Every table is complete. */
  ghost predicate Built(t: Tables) {
    BuiltTo(t, 0x100)
  }

  lemma FillStep(table: seq<bv8>, f: bv8 -> bv32, n: nat)
    requires FilledTo(table, f, n) && n < 0x100
    ensures FilledTo(Put(table, 4 * n, f(n as bv8)), f, n + 1)
  {
    hide Get, Put, Bytes4;
    GetPut(table, 4 * n, f(n as bv8));
    PutLength(table, 4 * n, f(n as bv8));
    var next := Put(table, 4 * n, f(n as bv8));
    forall i: nat | i < n + 1
      ensures EntryAt(next, i) == f(i as bv8)
    {
      if i < n {
        assert EntryAt(table, i) == f(i as bv8);
        assert Get(next, 4 * i) == Get(table, 4 * i);
      }
    }
  }

  lemma PutLength(d: seq<bv8>, o: nat, w: bv32)
    requires o + 4 <= |d|
    ensures |Put(d, o, w)| == |d|
  {
  }

  /** Write the four bytes of `b`, rotated left by `k`, as entry `x`. */
  method WriteRotated(d: array<bv8>, x: nat, b: seq<bv8>, k: nat)
    requires 4 * x + 4 <= d.Length && |b| == 4 && k < 4
    modifies d
    ensures d[..] == Put(old(d[..]), 4 * x, Join(b[k], b[(k + 1) % 4], b[(k + 2) % 4], b[(k + 3) % 4]))
  {
    hide Join, Part;
    PartsJoin(b[k], b[(k + 1) % 4], b[(k + 2) % 4], b[(k + 3) % 4]);
    ghost var before := d[..];
    for j := 0 to 4
      invariant forall i :: 0 <= i < d.Length ==>
                d[i] == if 4 * x <= i < 4 * x + j then b[(i - 4 * x + k) % 4] else before[i]
    {
      d[4 * x + j] := b[(j + k) % 4];
    }
  }

  /** Add entry `x` to a table of `f` that is filled up to there. */
  method AddEntry(d: array<bv8>, f: bv8 -> bv32, x: nat, b: seq<bv8>, k: nat)
    requires FilledTo(d[..], f, x) && x < 0x100 && |b| == 4 && k < 4
    requires f(x as bv8) == Join(b[k], b[(k + 1) % 4], b[(k + 2) % 4], b[(k + 3) % 4])
    modifies d
    ensures FilledTo(d[..], f, x + 1)
  {
    hide Join, Put;
    FillStep(d[..], f, x);
    WriteRotated(d, x, b, k);
  }

  /** The four products for one byte of the inverse S-box. */
  method Products(s: bv8) returns (b: seq<bv8>)
    ensures b == [Gf8.Mul(0x0B, s), Gf8.Mul(0x0D, s), Gf8.Mul(9, s), Gf8.Mul(0x0E, s)]
  {
    hide Gf8.Mul;
    var b0 := GfMul(0x0B, s);
    var b1 := GfMul(0x0D, s);
    var b2 := GfMul(9, s);
    var b3 := GfMul(0x0E, s);
    b := [b0, b1, b2, b3];
  }

  /** The values of the five tables at `x`, from the inverse S-box of `x`. */
  lemma Rows(x: bv8, s: bv8, b: seq<bv8>)
    requires s == Aes.InvSbox(x) && b == [Gf8.Mul(0x0B, s), Gf8.Mul(0x0D, s), Gf8.Mul(9, s), Gf8.Mul(0x0E, s)]
    ensures T1(x) == Join(b[0], b[1], b[2], b[3]) && T2(x) == Join(b[1], b[2], b[3], b[0])
    ensures T3(x) == Join(b[2], b[3], b[0], b[1]) && T4(x) == Join(b[3], b[0], b[1], b[2])
    ensures Quad(x) == Join(s, s, s, s)
  {
    hide Join, Gf8.Mul, Aes.InvSbox;
  }

  /** Entry `x` of the four tables of products. */
  method AddMixes(cm1: array<bv8>, cm2: array<bv8>, cm3: array<bv8>, cm4: array<bv8>, x: nat, s: bv8)
    requires cm1 != cm2 && cm1 != cm3 && cm1 != cm4 && cm2 != cm3 && cm2 != cm4 && cm3 != cm4
    requires x < 0x100 && s == Aes.InvSbox(x as bv8)
    requires FilledTo(cm1[..], T1, x) && FilledTo(cm2[..], T2, x) && FilledTo(cm3[..], T3, x)
             && FilledTo(cm4[..], T4, x)
    modifies cm1, cm2, cm3, cm4
    ensures FilledTo(cm1[..], T1, x + 1) && FilledTo(cm2[..], T2, x + 1)
    ensures FilledTo(cm3[..], T3, x + 1) && FilledTo(cm4[..], T4, x + 1)
  {
    hide Aes.InvSbox, Gf8.Mul, Join, FilledTo, T1, T2, T3, T4;
    var b := Products(s);
    Rows(x as bv8, s, b);
    AddEntry(cm1, T1, x, b, 0);
    AddEntry(cm2, T2, x, b, 1);
    AddEntry(cm3, T3, x, b, 2);
    AddEntry(cm4, T4, x, b, 3);
  }

  /** Entry `x` of all five tables. */
  method AddRow(cm1: array<bv8>, cm2: array<bv8>, cm3: array<bv8>, cm4: array<bv8>, sbox: array<bv8>, x: nat, s: bv8)
    requires cm1 != cm2 && cm1 != cm3 && cm1 != cm4 && cm1 != sbox && cm2 != cm3 && cm2 != cm4 && cm2 != sbox
    requires cm3 != cm4 && cm3 != sbox && cm4 != sbox
    requires x < 0x100 && s == Aes.InvSbox(x as bv8)
    requires BuiltTo(Tables(cm1[..], cm2[..], cm3[..], cm4[..], sbox[..]), x)
    modifies cm1, cm2, cm3, cm4, sbox
    ensures BuiltTo(Tables(cm1[..], cm2[..], cm3[..], cm4[..], sbox[..]), x + 1)
  {
    hide Aes.InvSbox, Join, FilledTo, T1, T2, T3, T4;
    AddEntry(sbox, Quad, x, [s, s, s, s], 0);
    AddMixes(cm1, cm2, cm3, cm4, x, s);
  }

  method BuildTables() returns (t: Tables)
    ensures Built(t)
  {
    hide Aes.InvSbox, FilledTo, BuiltTo, T1, T2, T3, T4, Quad;
    var isb := InvSboxTable();
    var cm1 := new bv8[0x400](i => 0);
    var cm2 := new bv8[0x400](i => 0);
    var cm3 := new bv8[0x400](i => 0);
    var cm4 := new bv8[0x400](i => 0);
    var sbox := new bv8[0x400](i => 0);
    Empty(Tables(cm1[..], cm2[..], cm3[..], cm4[..], sbox[..]));
    for x := 0 to 0x100
      invariant BuiltTo(Tables(cm1[..], cm2[..], cm3[..], cm4[..], sbox[..]), x)
    {
      AtIndex(isb, x);
      AddRow(cm1, cm2, cm3, cm4, sbox, x, isb[x]);
    }
    t := Tables(cm1[..], cm2[..], cm3[..], cm4[..], sbox[..]);
  }

  lemma AtIndex(isb: seq<bv8>, i: nat)
    requires |isb| == 0x100 && i < 0x100
    requires forall x: bv8 :: isb[x as nat] == Aes.InvSbox(x)
    ensures isb[i] == Aes.InvSbox(i as bv8)
  {
    hide Aes.InvSbox;
    NatOfByte(i);
    var x := i as bv8;
    assert isb[x as nat] == Aes.InvSbox(x);
  }

  lemma Empty(t: Tables)
    requires |t.cm1| == |t.cm2| == |t.cm3| == |t.cm4| == |t.sbox| == 0x400
    ensures BuiltTo(t, 0)
  {
  }
}
