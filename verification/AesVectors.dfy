/**
 The examples printed in FIPS 197, for the parts of the cipher and of the key
 expansion.
 */
module AesVectors {
  import opened Aes
  import Gf8
  import AesBlocks
  import AesKey

  /** The S-box value of `x`, whose inverse is `y`. */
  lemma SboxBy(x: bv8, y: bv8)
    requires x != 0 && Gf8.Product(x, y) == 1
    ensures Sbox(x) == Affine(y)
  {
    hide Affine, Gf8.Product, Gf8.Mul, Gf8.Inverse;
    Gf8.MulProduct(x, y);
    Gf8.InverseIsUnique(x, y);
  }

  lemma SboxOfZero()
    ensures Sbox(0) == 0x63
  {
  }

  // ----- Round 1 of the AES-256 example, appendix C.3 -----

  lemma SubFirst()
    ensures Sbox(0x00) == 0x63
    ensures Sbox(0x10) == 0xCA
    ensures Sbox(0x20) == 0xB7
    ensures Sbox(0x30) == 0x04
    ensures Sbox(0x40) == 0x09
    ensures Sbox(0x50) == 0x53
    ensures Sbox(0x60) == 0xD0
    ensures Sbox(0x70) == 0x51
  {
    hide Sbox, Gf8.Product, Affine;
    SubFirstInverses();
    SboxOfZero();
    SboxBy(0x10, 0x74);
    SboxBy(0x20, 0x3A);
    SboxBy(0x30, 0x2C);
    SboxBy(0x40, 0x1D);
    SboxBy(0x50, 0xED);
    SboxBy(0x60, 0x16);
    SboxBy(0x70, 0x79);
  }

  lemma SubFirstInverses()
    ensures Gf8.Product(0x10, 0x74) == 1 && Affine(0x74) == 0xCA
    ensures Gf8.Product(0x20, 0x3A) == 1 && Affine(0x3A) == 0xB7
    ensures Gf8.Product(0x30, 0x2C) == 1 && Affine(0x2C) == 0x04
    ensures Gf8.Product(0x40, 0x1D) == 1 && Affine(0x1D) == 0x09
    ensures Gf8.Product(0x50, 0xED) == 1 && Affine(0xED) == 0x53
    ensures Gf8.Product(0x60, 0x16) == 1 && Affine(0x16) == 0xD0
    ensures Gf8.Product(0x70, 0x79) == 1 && Affine(0x79) == 0x51
  {
  }

  lemma SubSecond()
    ensures Sbox(0x80) == 0xCD
    ensures Sbox(0x90) == 0x60
    ensures Sbox(0xA0) == 0xE0
    ensures Sbox(0xB0) == 0xE7
    ensures Sbox(0xC0) == 0xBA
    ensures Sbox(0xD0) == 0x70
    ensures Sbox(0xE0) == 0xE1
    ensures Sbox(0xF0) == 0x8C
  {
    hide Sbox, Gf8.Product, Affine;
    SubSecondInverses();
    SboxBy(0x80, 0x83);
    SboxBy(0x90, 0xDE);
    SboxBy(0xA0, 0xFB);
    SboxBy(0xB0, 0x0C);
    SboxBy(0xC0, 0x0B);
    SboxBy(0xD0, 0x7A);
    SboxBy(0xE0, 0xB1);
    SboxBy(0xF0, 0x5B);
  }

  lemma SubSecondInverses()
    ensures Gf8.Product(0x80, 0x83) == 1 && Affine(0x83) == 0xCD
    ensures Gf8.Product(0x90, 0xDE) == 1 && Affine(0xDE) == 0x60
    ensures Gf8.Product(0xA0, 0xFB) == 1 && Affine(0xFB) == 0xE0
    ensures Gf8.Product(0xB0, 0x0C) == 1 && Affine(0x0C) == 0xE7
    ensures Gf8.Product(0xC0, 0x0B) == 1 && Affine(0x0B) == 0xBA
    ensures Gf8.Product(0xD0, 0x7A) == 1 && Affine(0x7A) == 0x70
    ensures Gf8.Product(0xE0, 0xB1) == 1 && Affine(0xB1) == 0xE1
    ensures Gf8.Product(0xF0, 0x5B) == 1 && Affine(0x5B) == 0x8C
  {
  }

  const START: State := State(Column(0x00, 0x10, 0x20, 0x30), Column(0x40, 0x50, 0x60, 0x70),
                              Column(0x80, 0x90, 0xA0, 0xB0), Column(0xC0, 0xD0, 0xE0, 0xF0))
  const SUBSTITUTED: State := State(Column(0x63, 0xCA, 0xB7, 0x04), Column(0x09, 0x53, 0xD0, 0x51),
                                    Column(0xCD, 0x60, 0xE0, 0xE7), Column(0xBA, 0x70, 0xE1, 0x8C))
  const SHIFTED: State := State(Column(0x63, 0x53, 0xE0, 0x8C), Column(0x09, 0x60, 0xE1, 0x04),
                                Column(0xCD, 0x70, 0xB7, 0x51), Column(0xBA, 0xCA, 0xD0, 0xE7))
  const MIXED: State := State(Column(0x5F, 0x72, 0x64, 0x15), Column(0x57, 0xF5, 0xBC, 0x92),
                              Column(0xF7, 0xBE, 0x3B, 0x29), Column(0x1D, 0xB9, 0xF9, 0x1A))
  const KEY: State := State(Column(0x10, 0x11, 0x12, 0x13), Column(0x14, 0x15, 0x16, 0x17),
                            Column(0x18, 0x19, 0x1A, 0x1B), Column(0x1C, 0x1D, 0x1E, 0x1F))
  const NEXT: State := State(Column(0x4F, 0x63, 0x76, 0x06), Column(0x43, 0xE0, 0xAA, 0x85),
                             Column(0xEF, 0xA7, 0x21, 0x32), Column(0x01, 0xA4, 0xE7, 0x05))

  lemma SubBytesExample()
    ensures SubBytes(START) == SUBSTITUTED
  {
    hide Sbox;
    SubFirst();
    SubSecond();
  }

  lemma ShiftRowsExample()
    ensures ShiftRows(SUBSTITUTED) == SHIFTED
  {
  }

  lemma ColumnBy(a: bv8, b: bv8, c: bv8, d: bv8)
    ensures MixColumn(Column(a, b, c, d))
         == Column(AesKey.MixSum(a, b, c, d), AesKey.MixSum(b, c, d, a), AesKey.MixSum(c, d, a, b),
                   AesKey.MixSum(d, a, b, c))
  {
    hide AesKey.MixSum, MixRow;
    AesKey.MixSumIs(a, b, c, d);
    AesKey.MixSumIs(b, c, d, a);
    AesKey.MixSumIs(c, d, a, b);
    AesKey.MixSumIs(d, a, b, c);
  }

  lemma MixColumnsExample()
    ensures MixColumns(SHIFTED) == MIXED
  {
    hide MixColumn;
    ColumnBy(0x63, 0x53, 0xE0, 0x8C);
    ColumnBy(0x09, 0x60, 0xE1, 0x04);
    ColumnBy(0xCD, 0x70, 0xB7, 0x51);
    ColumnBy(0xBA, 0xCA, 0xD0, 0xE7);
  }

  /** The example's second round starts from here. */
  lemma RoundExample()
    ensures AddRoundKey(MixColumns(ShiftRows(SubBytes(START))), KEY) == NEXT
  {
    hide SubBytes, ShiftRows, MixColumns;
    SubBytesExample();
    ShiftRowsExample();
    MixColumnsExample();
  }

  /** Bytes fill a state column by column (section 3.4), and the example's first row is every fourth byte. */
  lemma StateOrder(b: seq<bv8>)
    requires |b| == 16
    ensures AesBlocks.StateBytes(AesBlocks.BlockState(b)) == b
    ensures AesBlocks.BlockState(b).c0.r1 == b[1] && AesBlocks.BlockState(b).c1.r0 == b[4]
    ensures AesBlocks.BlockState(b).c3.r2 == b[14]
  {
    AesBlocks.BytesOfState(b);
  }

  // ----- The key expansion of appendix A.3 -----

  lemma SubKey()
    ensures Sbox(0x09) == 0x01
    ensures Sbox(0x14) == 0xFA
    ensures Sbox(0x20) == 0xB7
    ensures Sbox(0x67) == 0x85
    ensures Sbox(0xDE) == 0x1D
    ensures Sbox(0xDF) == 0x9E
    ensures Sbox(0xF4) == 0xBF
    ensures Sbox(0xFC) == 0xB0
  {
    hide Sbox, Gf8.Product, Affine;
    SubKeyInverses();
    SboxBy(0x09, 0x4F);
    SboxBy(0x14, 0x99);
    SboxBy(0x20, 0x3A);
    SboxBy(0x67, 0x43);
    SboxBy(0xDE, 0x90);
    SboxBy(0xDF, 0x6B);
    SboxBy(0xF4, 0x68);
    SboxBy(0xFC, 0xCD);
  }

  lemma SubKeyInverses()
    ensures Gf8.Product(0x09, 0x4F) == 1 && Affine(0x4F) == 0x01
    ensures Gf8.Product(0x14, 0x99) == 1 && Affine(0x99) == 0xFA
    ensures Gf8.Product(0x20, 0x3A) == 1 && Affine(0x3A) == 0xB7
    ensures Gf8.Product(0x67, 0x43) == 1 && Affine(0x43) == 0x85
    ensures Gf8.Product(0xDE, 0x90) == 1 && Affine(0x90) == 0x1D
    ensures Gf8.Product(0xDF, 0x6B) == 1 && Affine(0x6B) == 0x9E
    ensures Gf8.Product(0xF4, 0x68) == 1 && Affine(0x68) == 0xBF
    ensures Gf8.Product(0xFC, 0xCD) == 1 && Affine(0xCD) == 0xB0
  {
  }

  /** The key of the example. */
  const KEY_BYTES: seq<bv8> := [
    0x60, 0x3D, 0xEB, 0x10, 0x15, 0xCA, 0x71, 0xBE, 0x2B, 0x73, 0xAE, 0xF0, 0x85, 0x7D, 0x77, 0x81,
    0x1F, 0x35, 0x2C, 0x07, 0x3B, 0x61, 0x08, 0xD7, 0x2D, 0x98, 0x10, 0xA3, 0x09, 0x14, 0xDF, 0xF4]

  lemma FirstWord(i: nat)
    requires i < 8
    ensures AesKey.ExpandedWord(KEY_BYTES, i)
         == Column(KEY_BYTES[4 * i], KEY_BYTES[4 * i + 1], KEY_BYTES[4 * i + 2], KEY_BYTES[4 * i + 3])
  {
  }

  lemma KeyWords()
    ensures AesKey.ExpandedWord(KEY_BYTES, 0) == Column(0x60, 0x3D, 0xEB, 0x10)
    ensures AesKey.ExpandedWord(KEY_BYTES, 1) == Column(0x15, 0xCA, 0x71, 0xBE)
    ensures AesKey.ExpandedWord(KEY_BYTES, 2) == Column(0x2B, 0x73, 0xAE, 0xF0)
    ensures AesKey.ExpandedWord(KEY_BYTES, 3) == Column(0x85, 0x7D, 0x77, 0x81)
    ensures AesKey.ExpandedWord(KEY_BYTES, 4) == Column(0x1F, 0x35, 0x2C, 0x07)
    ensures AesKey.ExpandedWord(KEY_BYTES, 7) == Column(0x09, 0x14, 0xDF, 0xF4)
  {
    hide AesKey.ExpandedWord;
    FirstWord(0);
    FirstWord(1);
    FirstWord(2);
    FirstWord(3);
    FirstWord(4);
    FirstWord(7);
  }

  lemma RconExample()
    ensures AesKey.Rcon(1) == 0x01 && AesKey.Rcon(2) == 0x02 && AesKey.Rcon(7) == 0x40
  {
    assert AesKey.Rcon(3) == 4 && AesKey.Rcon(4) == 8 && AesKey.Rcon(5) == 0x10;
  }

  /** One expanded word from the two that it is made of. */
  lemma NextWord(i: nat)
    requires i >= 8
    ensures var before := AesKey.ExpandedWord(KEY_BYTES, i - 1);
            AesKey.ExpandedWord(KEY_BYTES, i)
            == XorColumn(AesKey.ExpandedWord(KEY_BYTES, i - 8),
                 if i % 8 == 0 then XorColumn(SubColumn(AesKey.RotWord(before)), Column(AesKey.Rcon(i / 8), 0, 0, 0))
                 else if i % 8 == 4 then SubColumn(before)
                 else before)
  {
    hide XorColumn, SubColumn, AesKey.RotWord, AesKey.Rcon;
  }

  /** Words 8 to 12: with rotation and round constant, plain, and with substitution only. */
  lemma KeyExpansionExample()
    ensures AesKey.ExpandedWord(KEY_BYTES, 8) == Column(0x9B, 0xA3, 0x54, 0x11)
    ensures AesKey.ExpandedWord(KEY_BYTES, 11) == Column(0x20, 0x67, 0xFC, 0xDE)
    ensures AesKey.ExpandedWord(KEY_BYTES, 12) == Column(0xA8, 0xB0, 0x9C, 0x1A)
  {
    hide AesKey.ExpandedWord, Sbox, AesKey.Rcon;
    KeyWords();
    RconExample();
    SubKey();
    NextWord(8);
    NextWord(9);
    NextWord(10);
    NextWord(11);
    NextWord(12);
  }
}
