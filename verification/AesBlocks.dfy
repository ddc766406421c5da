/**
 AES decryption in the image: the T-table rounds, cipher block chaining, and
 the same with the round keys in a snapshot. A column is a word whose top byte
 is its first row.
 */
module AesBlocks {
  import opened Words
  import opened AesTables
  import opened Aes
  import Gf8
  import Cbc

  // ----- Words as columns -----

  function ColumnOf(w: bv32): Column {
    Column(Part(w, 3), Part(w, 2), Part(w, 1), Part(w, 0))
  }

  function ByteSwap(w: bv32): bv32 {
    Join(Part(w, 3), Part(w, 2), Part(w, 1), Part(w, 0))
  }

  datatype Block = Block(n0: bv32, n1: bv32, n2: bv32, n3: bv32)

  function StateOf(b: Block): State {
    State(ColumnOf(b.n0), ColumnOf(b.n1), ColumnOf(b.n2), ColumnOf(b.n3))
  }

  /** The sum over the four tables and the round key. */
  function Mixed(x0: bv8, x1: bv8, x2: bv8, x3: bv8, key: bv32): bv32 {
    Xor(Xor(Xor(T1(x0), T2(x1)), Xor(T3(x2), T4(x3))), key)
  }

  /** One byte from each of four words. */
  function Select(a: bv32, b: bv32, c: bv32, d: bv32): bv32 {
    (a & 0xFF00_0000) | (b & 0x00FF_0000) | (c & 0x0000_FF00) | (d & 0x0000_00FF)
  }

  lemma PartXor0(a: bv32, b: bv32)
    ensures Part(Xor(a, b), 0) == Gf8.Xor(Part(a, 0), Part(b, 0))
  {
  }

  lemma PartXor1(a: bv32, b: bv32)
    ensures Part(Xor(a, b), 1) == Gf8.Xor(Part(a, 1), Part(b, 1))
  {
  }

  lemma PartXor2(a: bv32, b: bv32)
    ensures Part(Xor(a, b), 2) == Gf8.Xor(Part(a, 2), Part(b, 2))
  {
  }

  lemma PartXor3(a: bv32, b: bv32)
    ensures Part(Xor(a, b), 3) == Gf8.Xor(Part(a, 3), Part(b, 3))
  {
  }

  lemma ColumnXor(a: bv32, b: bv32)
    ensures ColumnOf(Xor(a, b)) == XorColumn(ColumnOf(a), ColumnOf(b))
  {
    hide Xor, Gf8.Xor, Part;
    PartXor0(a, b);
    PartXor1(a, b);
    PartXor2(a, b);
    PartXor3(a, b);
  }

  lemma ColumnJoin(r0: bv8, r1: bv8, r2: bv8, r3: bv8)
    ensures ColumnOf(Join(r3, r2, r1, r0)) == Column(r0, r1, r2, r3)
  {
    hide Join, Part;
    PartsJoin(r3, r2, r1, r0);
  }

  /** One table lookup per byte does the work of three transformations and the key addition. */
  lemma TableRound(x0: bv8, x1: bv8, x2: bv8, x3: bv8, key: bv32)
    ensures ColumnOf(Mixed(x0, x1, x2, x3, key))
            == XorColumn(InvMixColumn(InvSubColumn(Column(x0, x1, x2, x3))), ColumnOf(key))
  {
    hide Xor, Gf8.Xor, Join, ColumnOf, T1, T2, T3, T4, InvMixColumn, InvSubColumn;
    var t1, t2, t3, t4 := T1(x0), T2(x1), T3(x2), T4(x3);
    ColumnXor(t1, t2);
    ColumnXor(t3, t4);
    ColumnXor(Xor(t1, t2), Xor(t3, t4));
    ColumnXor(Xor(Xor(t1, t2), Xor(t3, t4)), key);
    TableSum(x0, x1, x2, x3);
  }

  lemma TableSum(x0: bv8, x1: bv8, x2: bv8, x3: bv8)
    ensures XorColumn(XorColumn(ColumnOf(T1(x0)), ColumnOf(T2(x1))), XorColumn(ColumnOf(T3(x2)), ColumnOf(T4(x3))))
         == InvMixColumn(InvSubColumn(Column(x0, x1, x2, x3)))
  {
    hide Gf8.Xor, Gf8.Mul, Join, ColumnOf, InvSbox, Xor4;
    var a, b, c, d := InvSbox(x0), InvSbox(x1), InvSbox(x2), InvSbox(x3);
    ColumnJoin(Gf8.Mul(0x0E, a), Gf8.Mul(9, a), Gf8.Mul(0x0D, a), Gf8.Mul(0x0B, a));
    ColumnJoin(Gf8.Mul(0x0B, b), Gf8.Mul(0x0E, b), Gf8.Mul(9, b), Gf8.Mul(0x0D, b));
    ColumnJoin(Gf8.Mul(0x0D, c), Gf8.Mul(0x0B, c), Gf8.Mul(0x0E, c), Gf8.Mul(9, c));
    ColumnJoin(Gf8.Mul(9, d), Gf8.Mul(0x0D, d), Gf8.Mul(0x0B, d), Gf8.Mul(0x0E, d));
    Xor4Is(Gf8.Mul(0x0E, a), Gf8.Mul(0x0B, b), Gf8.Mul(0x0D, c), Gf8.Mul(9, d));
    Xor4Is(Gf8.Mul(9, a), Gf8.Mul(0x0E, b), Gf8.Mul(0x0B, c), Gf8.Mul(0x0D, d));
    Xor4Is(Gf8.Mul(0x0D, a), Gf8.Mul(9, b), Gf8.Mul(0x0E, c), Gf8.Mul(0x0B, d));
    Xor4Is(Gf8.Mul(0x0B, a), Gf8.Mul(0x0D, b), Gf8.Mul(9, c), Gf8.Mul(0x0E, d));
    Rotate4(Gf8.Mul(9, a), Gf8.Mul(0x0E, b), Gf8.Mul(0x0B, c), Gf8.Mul(0x0D, d));
    Rotate4(Gf8.Mul(0x0D, a), Gf8.Mul(9, b), Gf8.Mul(0x0E, c), Gf8.Mul(0x0B, d));
    Rotate4(Gf8.Mul(0x0B, a), Gf8.Mul(0x0D, b), Gf8.Mul(9, c), Gf8.Mul(0x0E, d));
  }

  lemma Xor4Is(a: bv8, b: bv8, c: bv8, d: bv8)
    ensures Gf8.Xor(Gf8.Xor(a, b), Gf8.Xor(c, d)) == Xor4(a, b, c, d)
  {
    hide Gf8.Xor;
  }

  lemma SelectFact(a: bv8, b: bv8, c: bv8, d: bv8)
    ensures Select(Join(a, a, a, a), Join(b, b, b, b), Join(c, c, c, c), Join(d, d, d, d)) == Join(d, c, b, a)
  {
  }

  lemma SelectQuads(x0: bv8, x1: bv8, x2: bv8, x3: bv8)
    ensures ColumnOf(Select(Quad(x0), Quad(x1), Quad(x2), Quad(x3))) == InvSubColumn(Column(x0, x1, x2, x3))
  {
    hide Join, Select, ColumnOf, InvSbox;
    SelectFact(InvSbox(x0), InvSbox(x1), InvSbox(x2), InvSbox(x3));
    ColumnJoin(InvSbox(x0), InvSbox(x1), InvSbox(x2), InvSbox(x3));
  }

  // ----- Round keys -----

  function RoundKey(k: seq<bv8>, o: nat): State
    requires o + 16 <= |k|
  {
    State(ColumnOf(Get(k, o)), ColumnOf(Get(k, o + 4)), ColumnOf(Get(k, o + 8)), ColumnOf(Get(k, o + 12)))
  }

  /** The `rounds + 1` round keys stored from `o` on, in the order of use. */
  function Keys(k: seq<bv8>, o: nat, rounds: nat): (keys: seq<State>)
    requires o + 16 * (rounds + 1) <= |k|
    ensures |keys| == rounds + 1
  {
    seq(rounds + 1, i requires 0 <= i <= rounds => RoundKey(k, o + 16 * i))
  }

  // ----- The rounds -----

  method Lookup(table: seq<bv8>, f: bv8 -> bv32, x: bv8) returns (w: bv32)
    requires FilledTo(table, f, 0x100)
    ensures w == f(x)
  {
    hide Join;
    ByteOfNat(x);
    assert EntryAt(table, x as nat) == f((x as nat) as bv8);
    w := Get(table, 4 * x as nat);
  }

  method MixedWord(t: Tables, x0: bv8, x1: bv8, x2: bv8, x3: bv8, key: bv32) returns (w: bv32)
    requires Built(t)
    ensures w == Mixed(x0, x1, x2, x3, key)
  {
    hide FilledTo, T1, T2, T3, T4, Xor;
    var a := Lookup(t.cm1, T1, x0);
    var b := Lookup(t.cm2, T2, x1);
    var c := Lookup(t.cm3, T3, x2);
    var d := Lookup(t.cm4, T4, x3);
    w := Xor(Xor(Xor(a, b), Xor(c, d)), key);
  }

  method SelectedWord(t: Tables, x0: bv8, x1: bv8, x2: bv8, x3: bv8) returns (w: bv32)
    requires Built(t)
    ensures w == Select(Quad(x0), Quad(x1), Quad(x2), Quad(x3))
  {
    hide FilledTo, Quad;
    var a := Lookup(t.sbox, Quad, x0);
    var b := Lookup(t.sbox, Quad, x1);
    var c := Lookup(t.sbox, Quad, x2);
    var d := Lookup(t.sbox, Quad, x3);
    w := Select(a, b, c, d);
  }

  /** A middle round, reading the round key at `o`. */
  method MiddleRound(t: Tables, b: Block, k: seq<bv8>, o: nat) returns (r: Block)
    requires Built(t) && o + 16 <= |k|
    ensures StateOf(r) == AddRoundKey(InvMixColumns(InvShiftRows(InvSubBytes(StateOf(b)))), RoundKey(k, o))
  {
    hide Built, Mixed, Get, InvSbox, InvMixColumn, XorColumn, Part;
    var k0, k1, k2, k3 := Get(k, o), Get(k, o + 4), Get(k, o + 8), Get(k, o + 12);
    var n0 := MixedWord(t, Part(b.n0, 3), Part(b.n3, 2), Part(b.n2, 1), Part(b.n1, 0), k0);
    var n1 := MixedWord(t, Part(b.n1, 3), Part(b.n0, 2), Part(b.n3, 1), Part(b.n2, 0), k1);
    var n2 := MixedWord(t, Part(b.n2, 3), Part(b.n1, 2), Part(b.n0, 1), Part(b.n3, 0), k2);
    var n3 := MixedWord(t, Part(b.n3, 3), Part(b.n2, 2), Part(b.n1, 1), Part(b.n0, 0), k3);
    TableRound(Part(b.n0, 3), Part(b.n3, 2), Part(b.n2, 1), Part(b.n1, 0), k0);
    TableRound(Part(b.n1, 3), Part(b.n0, 2), Part(b.n3, 1), Part(b.n2, 0), k1);
    TableRound(Part(b.n2, 3), Part(b.n1, 2), Part(b.n0, 1), Part(b.n3, 0), k2);
    TableRound(Part(b.n3, 3), Part(b.n2, 2), Part(b.n1, 1), Part(b.n0, 0), k3);
    r := Block(n0, n1, n2, n3);
  }

  /** The last round does not mix columns. */
  method LastRound(t: Tables, b: Block, k: seq<bv8>, o: nat) returns (r: Block)
    requires Built(t) && o + 16 <= |k|
    ensures StateOf(r) == AddRoundKey(InvShiftRows(InvSubBytes(StateOf(b))), RoundKey(k, o))
  {
    hide Built, Select, Quad, Get, InvSbox, XorColumn, Part, Xor;
    var k0, k1, k2, k3 := Get(k, o), Get(k, o + 4), Get(k, o + 8), Get(k, o + 12);
    var s0 := SelectedWord(t, Part(b.n0, 3), Part(b.n3, 2), Part(b.n2, 1), Part(b.n1, 0));
    var s1 := SelectedWord(t, Part(b.n1, 3), Part(b.n0, 2), Part(b.n3, 1), Part(b.n2, 0));
    var s2 := SelectedWord(t, Part(b.n2, 3), Part(b.n1, 2), Part(b.n0, 1), Part(b.n3, 0));
    var s3 := SelectedWord(t, Part(b.n3, 3), Part(b.n2, 2), Part(b.n1, 1), Part(b.n0, 0));
    SelectQuads(Part(b.n0, 3), Part(b.n3, 2), Part(b.n2, 1), Part(b.n1, 0));
    SelectQuads(Part(b.n1, 3), Part(b.n0, 2), Part(b.n3, 1), Part(b.n2, 0));
    SelectQuads(Part(b.n2, 3), Part(b.n1, 2), Part(b.n0, 1), Part(b.n3, 0));
    SelectQuads(Part(b.n3, 3), Part(b.n2, 2), Part(b.n1, 1), Part(b.n0, 0));
    ColumnXor(s0, k0);
    ColumnXor(s1, k1);
    ColumnXor(s2, k2);
    ColumnXor(s3, k3);
    r := Block(Xor(s0, k0), Xor(s1, k1), Xor(s2, k2), Xor(s3, k3));
  }

  method FirstKey(b: Block, k: seq<bv8>, o: nat) returns (r: Block)
    requires o + 16 <= |k|
    ensures StateOf(r) == AddRoundKey(StateOf(b), RoundKey(k, o))
  {
    hide Get, XorColumn, Part, Xor, ColumnOf;
    var k0, k1, k2, k3 := Get(k, o), Get(k, o + 4), Get(k, o + 8), Get(k, o + 12);
    ColumnXor(b.n0, k0);
    ColumnXor(b.n1, k1);
    ColumnXor(b.n2, k2);
    ColumnXor(b.n3, k3);
    r := Block(Xor(b.n0, k0), Xor(b.n1, k1), Xor(b.n2, k2), Xor(b.n3, k3));
  }

  /** All rounds on one block, with the keys stored in `k` at `o`. */
  method Rounds(t: Tables, b: Block, k: seq<bv8>, o: nat, rounds: nat) returns (r: Block)
    requires Built(t) && o + 16 * (rounds + 1) <= |k|
    ensures StateOf(r) == InverseCipher(StateOf(b), Keys(k, o, rounds))
  {
    hide Built, StateOf, RoundKey, AddRoundKey, InvMixColumns, InvShiftRows, InvSubBytes;
    ghost var keys := Keys(k, o, rounds);
    assert keys[0] == RoundKey(k, o);
    r := FirstKey(b, k, o);
    var i := 1;
    while i < rounds
      invariant 1 <= i && (rounds == 0 || i <= rounds) && (rounds == 0 ==> i == 1)
      invariant StateOf(r) == InverseRounds(StateOf(b), keys, i - 1)
    {
      r := MiddleRound(t, r, k, o + 16 * i);
      assert keys[i] == RoundKey(k, o + 16 * i);
      i := i + 1;
    }
    assert keys[rounds] == RoundKey(k, o + 16 * rounds);
    r := LastRound(t, r, k, o + 16 * rounds);
  }

  // ----- Blocks in memory -----

  function BlockState(b: seq<bv8>): State
    requires |b| == Cbc.BLOCK
  {
    State(Column(b[0], b[1], b[2], b[3]), Column(b[4], b[5], b[6], b[7]),
          Column(b[8], b[9], b[10], b[11]), Column(b[12], b[13], b[14], b[15]))
  }

  function ColumnBytes(c: Column): (b: seq<bv8>)
    ensures |b| == 4
  {
    [c.r0, c.r1, c.r2, c.r3]
  }

  function StateBytes(s: State): (b: seq<bv8>)
    ensures |b| == Cbc.BLOCK
  {
    ColumnBytes(s.c0) + ColumnBytes(s.c1) + ColumnBytes(s.c2) + ColumnBytes(s.c3)
  }

  lemma StateOfBytes(s: State)
    ensures BlockState(StateBytes(s)) == s
  {
  }

  lemma BytesOfState(b: seq<bv8>)
    requires |b| == Cbc.BLOCK
    ensures StateBytes(BlockState(b)) == b
  {
  }

  /** Decryption of a block under stored round keys. */
  function Decryption(keys: seq<State>): Cbc.Cipher
    requires |keys| >= 1
  {
    (b: seq<bv8>) => if |b| == Cbc.BLOCK then StateBytes(InverseCipher(BlockState(b), keys)) else b
  }

  /** Encryption of a block under a key schedule. */
  function Encryption(keys: seq<State>): Cbc.Cipher
    requires |keys| >= 2
  {
    (b: seq<bv8>) => if |b| == Cbc.BLOCK then StateBytes(Cipher(BlockState(b), keys)) else b
  }

  /** With the derived round keys, decryption of a block undoes encryption. */
  lemma DecryptionUndoesEncryption(keys: seq<State>)
    requires |keys| >= 2
    ensures Cbc.OnBlocks(Decryption(DecryptionKeys(keys))) && Cbc.OnBlocks(Encryption(keys))
    ensures Cbc.Undoes(Decryption(DecryptionKeys(keys)), Encryption(keys))
  {
    hide StateBytes, BlockState, Cipher, InverseCipher, DecryptionKeys;
    forall b: seq<bv8> | |b| == Cbc.BLOCK
      ensures Decryption(DecryptionKeys(keys))(Encryption(keys)(b)) == b
    {
      StateOfBytes(Cipher(BlockState(b), keys));
      InverseCipherInverts(BlockState(b), keys);
      BytesOfState(b);
    }
  }

  lemma SwappedColumn(b0: bv8, b1: bv8, b2: bv8, b3: bv8)
    ensures ColumnOf(ByteSwap(Join(b0, b1, b2, b3))) == Column(b0, b1, b2, b3)
  {
    hide Join, Part;
    PartsJoin(b0, b1, b2, b3);
    PartsJoin(b3, b2, b1, b0);
  }

  lemma SwappedBytes(w: bv32)
    ensures Bytes4(ByteSwap(w)) == ColumnBytes(ColumnOf(w))
  {
    hide Join, Part;
    PartsJoin(Part(w, 3), Part(w, 2), Part(w, 1), Part(w, 0));
  }

  method LoadBlock(d: array<bv8>, pos: nat) returns (b: Block)
    requires pos + Cbc.BLOCK <= d.Length
    ensures StateOf(b) == BlockState(d[pos..pos + Cbc.BLOCK])
  {
    hide Join, ByteSwap, ColumnOf;
    var n0 := ReadWord(d, pos);
    var n1 := ReadWord(d, pos + 4);
    var n2 := ReadWord(d, pos + 8);
    var n3 := ReadWord(d, pos + 12);
    SwappedColumn(d[pos], d[pos + 1], d[pos + 2], d[pos + 3]);
    SwappedColumn(d[pos + 4], d[pos + 5], d[pos + 6], d[pos + 7]);
    SwappedColumn(d[pos + 8], d[pos + 9], d[pos + 10], d[pos + 11]);
    SwappedColumn(d[pos + 12], d[pos + 13], d[pos + 14], d[pos + 15]);
    b := Block(ByteSwap(n0), ByteSwap(n1), ByteSwap(n2), ByteSwap(n3));
  }

  /** Four words written in a row are one block. */
  lemma FourPuts(d: seq<bv8>, o: nat, a: bv32, b: bv32, c: bv32, e: bv32)
    requires o + 16 <= |d|
    ensures Put(Put(Put(Put(d, o, a), o + 4, b), o + 8, c), o + 12, e)
            == Cbc.PutBlock(d, o, 0, Bytes4(a) + Bytes4(b) + Bytes4(c) + Bytes4(e))
  {
    hide Bytes4, Put;
    PutTwo(d, o, a, b);
    var d2 := d[..o] + (Bytes4(a) + Bytes4(b)) + d[o + 8..];
    PutTwo(d2, o + 8, c, e);
    assert d2[..o + 8] == d[..o] + (Bytes4(a) + Bytes4(b));
    assert d2[o + 16..] == d[o + 16..];
  }

  lemma PutTwo(d: seq<bv8>, o: nat, a: bv32, b: bv32)
    requires o + 8 <= |d|
    ensures Put(Put(d, o, a), o + 4, b) == d[..o] + (Bytes4(a) + Bytes4(b)) + d[o + 8..]
  {
    hide Bytes4;
  }

  method StoreBlock(d: array<bv8>, pos: nat, b: Block)
    requires pos + Cbc.BLOCK <= d.Length
    modifies d
    ensures d[..] == Cbc.PutBlock(old(d[..]), pos, 0, StateBytes(StateOf(b)))
  {
    hide Bytes4, Put, ByteSwap, ColumnBytes, ColumnOf, Cbc.PutBlock;
    FourPuts(d[..], pos, ByteSwap(b.n0), ByteSwap(b.n1), ByteSwap(b.n2), ByteSwap(b.n3));
    SwappedBytes(b.n0);
    SwappedBytes(b.n1);
    SwappedBytes(b.n2);
    SwappedBytes(b.n3);
    WriteWord(d, pos, ByteSwap(b.n0));
    WriteWord(d, pos + 4, ByteSwap(b.n1));
    WriteWord(d, pos + 8, ByteSwap(b.n2));
    WriteWord(d, pos + 12, ByteSwap(b.n3));
  }

  /** Decrypt the block at `pos` under the round keys at `o` of `k`, which is read before the block is written. */
  method AesRound(t: Tables, d: array<bv8>, pos: nat, k: seq<bv8>, o: nat, rounds: nat)
    requires Built(t) && pos + Cbc.BLOCK <= d.Length && o + 16 * (rounds + 1) <= |k|
    modifies d
    ensures d[..] == Cbc.PutBlock(old(d[..]), pos, 0, Decryption(Keys(k, o, rounds))(old(d[pos..pos + Cbc.BLOCK])))
  {
    hide Built, StateOf, BlockState, StateBytes, InverseCipher, Keys, Cbc.PutBlock;
    var b := LoadBlock(d, pos);
    var r := Rounds(t, b, k, o, rounds);
    StoreBlock(d, pos, r);
  }
}
