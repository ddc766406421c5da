/**
 The Android protector's container: header fields, Huffman tree and segment
 table under keys derived from a seed, and the word transform of the segments.
 */
module AndroidContainer {
  import opened Words
  import opened Wrappers
  import opened Gf32

  const MAX_TREE: nat := 0x1B00

  datatype Error = OutOfBounds | BadFields | BadSegment

  datatype Segment = Segment(offset: bv32, size: bv32)

  datatype Header = Header(start: nat, outputSize: bv32, skipAes: bool, tree: seq<bv8>, segments: seq<Segment>)

  // ----- Keys -----

  function State(seed: bv32): bv32 {
    Xor(WrapShr(seed * seed, 17), WrapShl(seed * seed, 11))
  }

  function SizeKey(state: bv32): bv32 {
    WrapShl(0xA21D_FB3A, state & 7) + state * 0xF87B_337C
  }

  function FlagKey(state: bv32): bv32 {
    state + 0xBD19_C63C + WrapShr(0x416E_2AF2, state & 0x0D)
  }

  function TreeSizeKey(state: bv32): bv32 {
    WrapShl(0x643A_3A3B, state & 0x0B) - (state ^ 0x3B2B_F538)
  }

  function TreeState(state: bv32): bv32 {
    (state + 0xF1CB_5B81) * state
  }

  function TreeLeft(state: bv32, i: nat): bv32 {
    Mul(WrapShl(TreeState(state), OfNat(i) & 0x1B))
  }

  function TreeRight(state: bv32, i: nat): bv32 {
    WrapShr(TreeState(state) - 0x23B3_2203 * state, OfNat(i) & 0x17)
  }

  /** What is added to byte `i` of the tree. */
  function TreeAdjustment(state: bv32, i: nat): bv8 {
    Part(WrapShr(TreeLeft(state, i) - TreeRight(state, i), OfNat(i) & 0x1F), 0)
  }

  function TableState(state: bv32): bv32 {
    (state + 0xB31F_451C) * state
  }

  function TableXor(state: bv32): bv32 {
    WrapShl(TableState(state), 3)
  }

  /** What is added to word `k` of the segment table; offsets and sizes alternate. */
  function TableAdd(state: bv32, k: nat): bv32 {
    WrapShr(TableState(state) - 0x822F_E82D * state, if k % 2 == 0 then 5 else 9)
  }

  /** The registers of the segment transform; `state` is the key of the current word. */
  datatype Registers = Registers(left: bv32, right: bv32, state: bv32)

  function Advance(r: Registers, i: nat): Registers {
    var n := OfNat(i);
    var left := WrapShr(r.state + 0x72F6_FCBE + (r.left + 0x4F8B_1BCA) * r.left, (n * n) & 0x0F);
    var right := WrapShl(r.state - 0x71B6_A98D + (r.right - 0x1605_A81C) * r.right, n & 7);
    Registers(left, right, Xor(left, right))
  }

  /** The registers once `n` words have been processed. */
  function RegistersAt(seed: bv32, n: nat): Registers {
    if n == 0 then Registers(0xE34E_AC63, 0x07B4_8238, seed) else Advance(RegistersAt(seed, n - 1), n - 1)
  }

  function SegmentAdd(k: nat): bv32 {
    0xB43B_9BAF * (OfNat(k) & 0x0D)
  }

  function SegmentXor(k: nat): bv32 {
    0xAF57_F7FB * (OfNat(k) & 3)
  }

  // ----- The keys of one seed, worked out -----

  const SEED: bv32 := 0x1234_5678
  const STATE: bv32 := 0xA6C2_0EFA

  lemma StateExample()
    ensures State(SEED) == STATE
  {
  }

  lemma FieldKeysExample()
    ensures SizeKey(STATE) == 0x5990_FC00
    ensures FlagKey(STATE) == 0x641D_4360
    ensures TreeSizeKey(STATE) == 0x4AFE_F03E
  {
  }

  lemma TableKeysExample()
    ensures TreeState(STATE) == 0x2922_B61E
    ensures TableXor(STATE) == 0xAA8A_8BE0
    ensures TableAdd(STATE, 0) == 0x019D_E0FC && TableAdd(STATE, 1) == 0x0019_DE0F
  {
  }

  lemma TreeKeysExample()
    ensures TreeLeft(STATE, 5) == Mul(0x5245_6C3C) && TreeRight(STATE, 5) == 0x0640_8AA9
  {
    hide Mul, OfNat;
    SmallWord(5, 5);
  }

  lemma RegistersExample()
    ensures RegistersAt(SEED, 1) == Registers(0x6697_F89D, 0x692F_9B0B, 0x0FB8_6396)
    ensures RegistersAt(SEED, 4) == Registers(0x0056_0DC8, 0x626C_5860, 0x623A_55A8)
  {
    hide Advance;
    FirstAdvances();
    ThirdAdvance();
    FourthAdvance();
    assert RegistersAt(SEED, 0) == Registers(0xE34E_AC63, 0x07B4_8238, SEED);
    assert RegistersAt(SEED, 2) == Advance(RegistersAt(SEED, 1), 1);
    assert RegistersAt(SEED, 3) == Advance(RegistersAt(SEED, 2), 2);
  }

  lemma FirstAdvances()
    ensures Advance(Registers(0xE34E_AC63, 0x07B4_8238, SEED), 0) == Registers(0x6697_F89D, 0x692F_9B0B, 0x0FB8_6396)
    ensures Advance(Registers(0x6697_F89D, 0x692F_9B0B, 0x0FB8_6396), 1)
         == Registers(0x225B_D5BF, 0x6F8D_BE9C, 0x4DD6_6B23)
  {
    hide OfNat;
    SmallWord(0, 0);
    SmallWord(1, 1);
  }

  lemma ThirdAdvance()
    ensures Advance(Registers(0x225B_D5BF, 0x6F8D_BE9C, 0x4DD6_6B23), 2)
         == Registers(0x0F0C_59A1, 0x4101_DE58, 0x4E0D_87F9)
  {
    hide OfNat;
    SmallWord(2, 2);
  }

  lemma FourthAdvance()
    ensures Advance(Registers(0x0F0C_59A1, 0x4101_DE58, 0x4E0D_87F9), 3)
         == Registers(0x0056_0DC8, 0x626C_5860, 0x623A_55A8)
  {
    hide OfNat;
    SmallWord(3, 3);
  }

  lemma SegmentKeysExample()
    ensures SegmentAdd(1) == SegmentAdd(3) == 0xB43B_9BAF && SegmentAdd(2) == 0
    ensures SegmentXor(1) == 0xAF57_F7FB && SegmentXor(2) == 0x5EAF_EFF6 && SegmentXor(3) == 0x0E07_E7F1
  {
    hide OfNat;
    SmallWord(1, 1);
    SmallWord(2, 2);
    SmallWord(3, 3);
  }

  /** All keys of one seed: state, fields, table, tree byte 5, registers after four words, words 1 to 3. */
  lemma KeysExample()
    ensures State(SEED) == STATE
    ensures SizeKey(STATE) == 0x5990_FC00 && FlagKey(STATE) == 0x641D_4360 && TreeSizeKey(STATE) == 0x4AFE_F03E
    ensures TableXor(STATE) == 0xAA8A_8BE0 && TableAdd(STATE, 0) == 0x019D_E0FC && TableAdd(STATE, 1) == 0x0019_DE0F
    ensures TreeLeft(STATE, 5) == Mul(0x5245_6C3C) && TreeRight(STATE, 5) == 0x0640_8AA9
    ensures RegistersAt(SEED, 4) == Registers(0x0056_0DC8, 0x626C_5860, 0x623A_55A8)
    ensures SegmentAdd(1) == SegmentAdd(3) == 0xB43B_9BAF && SegmentAdd(2) == 0
    ensures SegmentXor(1) == 0xAF57_F7FB && SegmentXor(2) == 0x5EAF_EFF6 && SegmentXor(3) == 0x0E07_E7F1
  {
    hide State, SizeKey, FlagKey, TreeSizeKey, TableXor, TableAdd, TreeLeft, TreeRight, RegistersAt, SegmentAdd,
         SegmentXor, Mul;
    StateExample();
    FieldKeysExample();
    TableKeysExample();
    TreeKeysExample();
    RegistersExample();
    SegmentKeysExample();
  }

  // ----- The word codes -----

  /** The three ways a word is encoded; each is keyed by position, never by the data. */
  datatype WordCode = TreeWords | TableWords(state: bv32) | SegmentWords(seed: bv32)

  function DecodeWord(c: WordCode, k: nat, w: bv32): bv32 {
    match c
    case TreeWords => Mul(w)
    case TableWords(state) => Add(Mul(Xor(w, TableXor(state))), TableAdd(state, k))
    case SegmentWords(seed) =>
      var s := RegistersAt(seed, k + 1).state;
      Xor(Sub(Xor(Add(w, SegmentAdd(k)), SegmentXor(k)), s), s)
  }

  function EncodeWord(c: WordCode, k: nat, w: bv32): bv32 {
    match c
    case TreeWords => Unmul(w)
    case TableWords(state) => Xor(Unmul(Sub(w, TableAdd(state, k))), TableXor(state))
    case SegmentWords(seed) =>
      var s := RegistersAt(seed, k + 1).state;
      Sub(Xor(Add(Xor(w, s), s), SegmentXor(k)), SegmentAdd(k))
  }

  /** One word of each kind decoded, with the keys of the seed above. */
  lemma WordsExample()
    ensures DecodeWord(TreeWords, 3, 0x0102_0304) == Mul(0x0102_0304)
    ensures DecodeWord(TableWords(STATE), 1, 0x0102_0304) == Mul(0xAB88_88E4) + 0x0019_DE0F
    ensures DecodeWord(SegmentWords(SEED), 3, 0x0102_0304) == 0x3B3A_7632
  {
    hide Mul, TableXor, TableAdd, RegistersAt, SegmentAdd, SegmentXor;
    KeysExample();
  }

  /** Encoding and decoding a word undo each other, for every key and position. */
  lemma WordCodeInverts(c: WordCode, k: nat, w: bv32)
    ensures DecodeWord(c, k, EncodeWord(c, k, w)) == w
    ensures EncodeWord(c, k, DecodeWord(c, k, w)) == w
  {
    hide Xor, Add, Sub, Mul, Unmul, TableXor, TableAdd, SegmentAdd, SegmentXor, RegistersAt;
    match c
    case TreeWords =>
      MulIsBijective(w);
    case TableWords(state) =>
      var x, a := TableXor(state), TableAdd(state, k);
      XorTwice(Unmul(Sub(w, a)), x);
      MulIsBijective(Sub(w, a));
      AddSub(w, a);
      AddSub(Mul(Xor(w, x)), a);
      MulIsBijective(Xor(w, x));
      XorTwice(w, x);
    case SegmentWords(seed) =>
      var s, a, x := RegistersAt(seed, k + 1).state, SegmentAdd(k), SegmentXor(k);
      var e := Add(Xor(w, s), s);
      AddSub(Xor(e, x), a);
      XorTwice(e, x);
      AddSub(Xor(w, s), s);
      XorTwice(w, s);
      var d := Xor(Add(w, a), x);
      XorTwice(Sub(d, s), s);
      AddSub(d, s);
      XorTwice(Add(w, a), x);
      AddSub(w, a);
  }

  /** The first `n` words decoded; everything after them stays. */
  function Decoded(c: WordCode, d: seq<bv8>, n: nat): (r: seq<bv8>)
    requires 4 * n <= |d|
    ensures |r| == |d|
  {
    if n == 0 then d else Put(Decoded(c, d, n - 1), 4 * (n - 1), DecodeWord(c, n - 1, Get(d, 4 * (n - 1))))
  }

  function Encoded(c: WordCode, d: seq<bv8>, n: nat): (r: seq<bv8>)
    requires 4 * n <= |d|
    ensures |r| == |d|
  {
    if n == 0 then d else Put(Encoded(c, d, n - 1), 4 * (n - 1), EncodeWord(c, n - 1, Get(d, 4 * (n - 1))))
  }

  lemma {:induction false} DecodedWords(c: WordCode, d: seq<bv8>, n: nat)
    requires 4 * n <= |d|
    ensures var r := Decoded(c, d, n);
            && (forall k: nat :: k < n ==> Get(r, 4 * k) == DecodeWord(c, k, Get(d, 4 * k)))
            && (forall i :: 4 * n <= i < |d| ==> r[i] == d[i])
  {
    hide Get, Bytes4, DecodeWord;
    if n > 0 {
      DecodedWords(c, d, n - 1);
      GetPut(Decoded(c, d, n - 1), 4 * (n - 1), DecodeWord(c, n - 1, Get(d, 4 * (n - 1))));
    }
  }

  lemma {:induction false} EncodedWords(c: WordCode, d: seq<bv8>, n: nat)
    requires 4 * n <= |d|
    ensures var r := Encoded(c, d, n);
            && (forall k: nat :: k < n ==> Get(r, 4 * k) == EncodeWord(c, k, Get(d, 4 * k)))
            && (forall i :: 4 * n <= i < |d| ==> r[i] == d[i])
  {
    hide Get, Bytes4, EncodeWord;
    if n > 0 {
      EncodedWords(c, d, n - 1);
      GetPut(Encoded(c, d, n - 1), 4 * (n - 1), EncodeWord(c, n - 1, Get(d, 4 * (n - 1))));
    }
  }

  /** On data of any length the two transforms are inverse bijections, and leave the last under four bytes alone. */
  lemma WordsInvert(c: WordCode, d: seq<bv8>)
    ensures Decoded(c, Encoded(c, d, |d| / 4), |d| / 4) == d
    ensures Encoded(c, Decoded(c, d, |d| / 4), |d| / 4) == d
    ensures forall i :: 4 * (|d| / 4) <= i < |d| ==> Decoded(c, d, |d| / 4)[i] == d[i]
  {
    hide Get, DecodeWord, EncodeWord, Decoded, Encoded;
    var n := |d| / 4;
    var e, p := Encoded(c, d, n), Decoded(c, d, n);
    EncodedWords(c, d, n);
    DecodedWords(c, e, n);
    DecodedWords(c, d, n);
    EncodedWords(c, p, n);
    forall k: nat | k < n
      ensures Get(Decoded(c, e, n), 4 * k) == Get(d, 4 * k)
      ensures Get(Encoded(c, p, n), 4 * k) == Get(d, 4 * k)
    {
      WordCodeInverts(c, k, Get(d, 4 * k));
    }
    SameWords(Decoded(c, e, n), d, n);
    SameWords(Encoded(c, p, n), d, n);
  }

  // ----- The header -----

  function AlignUp4(n: nat): (r: nat)
    ensures n <= r < n + 4 && r % 4 == 0
  {
    (n + 3) / 4 * 4
  }

  function AddBytes(d: seq<bv8>, state: bv32): (r: seq<bv8>)
    ensures |r| == |d|
  {
    seq(|d|, i requires 0 <= i < |d| => d[i] + TreeAdjustment(state, i))
  }

  function SubBytes(d: seq<bv8>, state: bv32): (r: seq<bv8>)
    ensures |r| == |d|
  {
    seq(|d|, i requires 0 <= i < |d| => d[i] - TreeAdjustment(state, i))
  }

  lemma SubAddBytes(d: seq<bv8>, state: bv32)
    ensures AddBytes(SubBytes(d, state), state) == d
  {
    hide TreeAdjustment;
    var r := AddBytes(SubBytes(d, state), state);
    forall i | 0 <= i < |d|
      ensures r[i] == d[i]
    {
      SubAddByte(d[i], TreeAdjustment(state, i));
    }
  }

  lemma SubAddByte(a: bv8, b: bv8)
    ensures (a - b) + b == a
  {
  }

  /** Tree bytes: word by word, then byte by byte. */
  function DecodeTree(enc: seq<bv8>, state: bv32): (r: seq<bv8>)
    ensures |r| == |enc|
  {
    AddBytes(Decoded(TreeWords, enc, |enc| / 4), state)
  }

  function EncodeTree(tree: seq<bv8>, state: bv32): (r: seq<bv8>)
    ensures |r| == |tree|
  {
    Encoded(TreeWords, SubBytes(tree, state), |tree| / 4)
  }

  lemma TreeRoundTrip(tree: seq<bv8>, state: bv32)
    ensures DecodeTree(EncodeTree(tree, state), state) == tree
  {
    hide AddBytes, SubBytes, Decoded, Encoded;
    WordsInvert(TreeWords, SubBytes(tree, state));
    SubAddBytes(tree, state);
  }

  function TableBytes(segments: seq<Segment>): (r: seq<bv8>)
    ensures |r| == 8 * |segments|
  {
    if segments == [] then []
    else
      var s := segments[|segments| - 1];
      TableBytes(segments[..|segments| - 1]) + Bytes4(s.offset) + Bytes4(s.size)
  }

  function ReadTable(table: seq<bv8>, n: nat): (r: seq<Segment>)
    requires 8 * n <= |table|
    ensures |r| == n
  {
    if n == 0 then [] else ReadTable(table, n - 1) + [Segment(Get(table, 8 * (n - 1)), Get(table, 8 * (n - 1) + 4))]
  }

  lemma WordOfBytes(w: bv32, d: seq<bv8>, o: nat)
    requires o + 4 <= |d| && d[o..o + 4] == Bytes4(w)
    ensures Get(d, o) == w
  {
    hide Join, Part;
    JoinParts(w);
    assert d[o] == d[o..o + 4][0] && d[o + 1] == d[o..o + 4][1] && d[o + 2] == d[o..o + 4][2]
           && d[o + 3] == d[o..o + 4][3];
  }

  lemma PrefixSlices(table: seq<bv8>, all: seq<bv8>, o: nat)
    requires o + 8 == |all| <= |table| && table[..|all|] == all
    ensures table[..o] == all[..o] && table[o..o + 4] == all[o..o + 4] && table[o + 4..o + 8] == all[o + 4..o + 8]
  {
    assert forall i :: 0 <= i < |all| ==> table[i] == table[..|all|][i];
  }

  lemma ThreePieces(p: seq<bv8>, a: seq<bv8>, b: seq<bv8>)
    ensures var all := p + a + b;
            all[..|p|] == p && all[|p|..|p| + |a|] == a && all[|p| + |a|..] == b
  {
  }

  lemma TableBytesStep(segments: seq<Segment>)
    requires segments != []
    ensures var s := segments[|segments| - 1];
            TableBytes(segments) == TableBytes(segments[..|segments| - 1]) + Bytes4(s.offset) + Bytes4(s.size)
  {
    hide Bytes4;
  }

  lemma LastSegment(segments: seq<Segment>)
    requires segments != []
    ensures var n := |segments| - 1; var all := TableBytes(segments);
            && all[..8 * n] == TableBytes(segments[..n])
            && all[8 * n..8 * n + 4] == Bytes4(segments[n].offset)
            && all[8 * n + 4..8 * n + 8] == Bytes4(segments[n].size)
  {
    hide Bytes4, TableBytes;
    var n := |segments| - 1;
    TableBytesStep(segments);
    ThreePieces(TableBytes(segments[..n]), Bytes4(segments[n].offset), Bytes4(segments[n].size));
  }

  lemma {:induction false} TableReads(segments: seq<Segment>, table: seq<bv8>)
    requires 8 * |segments| <= |table| && table[..8 * |segments|] == TableBytes(segments)
    ensures ReadTable(table, |segments|) == segments
  {
    hide Bytes4, Get, TableBytes;
    if segments != [] {
      var n := |segments| - 1;
      var s := segments[n];
      var all := TableBytes(segments);
      LastSegment(segments);
      PrefixSlices(table, all, 8 * n);
      TableReads(segments[..n], table);
      WordOfBytes(s.offset, table, 8 * n);
      WordOfBytes(s.size, table, 8 * n + 4);
    }
  }

  predicate SegmentsFit(segments: seq<Segment>, start: nat, len: nat) {
    forall i :: 0 <= i < |segments| ==>
      segments[i].size != 0 && start + ToNat(segments[i].offset) + ToNat(segments[i].size) <= len
  }

  /** The flag word: segment count in the low byte, and 1 in the next to skip AES. */
  function FlagWord(count: bv8, skip: bool): bv32 {
    Join(count, if skip then 1 else 0, 0, 0)
  }

  /** The three words in front of the tree, decrypted. */
  datatype Fields = Fields(outputSize: bv32, flags: bv32, treeSize: nat)

  function ReadFields(data: seq<bv8>, start: nat, seed: bv32): Fields
    requires start + 12 <= |data|
  {
    var state := State(seed);
    Fields(Add(Mul(Get(data, start)), SizeKey(state)),
           Xor(Mul(Get(data, start + 4)), FlagKey(state)),
           ToNat(Add(Mul(Get(data, start + 8)), TreeSizeKey(state))))
  }

  function ReadSegments(table: seq<bv8>, state: bv32): seq<Segment> {
    ReadTable(Decoded(TableWords(state), table, |table| / 4), |table| / 8)
  }

  /** Decrypt and check the header at `start`. */
  function Parse(data: seq<bv8>, start: nat, seed: bv32): Result<Header, Error> {
    if start + 12 > |data| then Err(OutOfBounds)
    else
      var f := ReadFields(data, start, seed);
      var count := Part(f.flags, 0) as nat;
      var at := start + AlignUp4(12 + f.treeSize);
      if count == 0 || f.treeSize > MAX_TREE then Err(BadFields)
      else if start + 12 + f.treeSize > |data| then Err(OutOfBounds)
      else if at + 8 * count > |data| then Err(OutOfBounds)
      else
        var tree := DecodeTree(data[start + 12..start + 12 + f.treeSize], State(seed));
        var segments := ReadSegments(data[at..at + 8 * count], State(seed));
        if SegmentsFit(segments, start, |data|) then
          Ok(Header(start, f.outputSize, Part(f.flags, 1) == 1, tree, segments))
        else Err(BadSegment)
  }

  /** The encoder: every field under the inverse of its decoding. */
  function Encode(h: Header, seed: bv32): seq<bv8>
    requires |h.segments| < 0x100
  {
    var state := State(seed);
    var flags := FlagWord(|h.segments| as bv8, h.skipAes);
    Pack(Unmul(Sub(h.outputSize, SizeKey(state))),
         Unmul(Xor(flags, FlagKey(state))),
         Unmul(Sub(OfNat(|h.tree|), TreeSizeKey(state))),
         EncodeTree(h.tree, state),
         Encoded(TableWords(state), TableBytes(h.segments), 2 * |h.segments|))
  }

  /** Three fields, the tree padded to a multiple of four bytes, and the table. */
  function Pack(a: bv32, b: bv32, c: bv32, tree: seq<bv8>, table: seq<bv8>): seq<bv8> {
    Bytes4(a) + Bytes4(b) + Bytes4(c) + tree + seq(AlignUp4(12 + |tree|) - 12 - |tree|, _ => 0) + table
  }

  lemma FieldsRoundTrip(seed: bv32, size: bv32, flags: bv32, tree: nat)
    requires tree < 0x1_0000_0000
    ensures var state := State(seed);
            && Add(Mul(Unmul(Sub(size, SizeKey(state)))), SizeKey(state)) == size
            && Xor(Mul(Unmul(Xor(flags, FlagKey(state)))), FlagKey(state)) == flags
            && ToNat(Add(Mul(Unmul(Sub(OfNat(tree), TreeSizeKey(state)))), TreeSizeKey(state))) == tree
  {
    hide Add, Sub, Xor, Mul, Unmul, State, SizeKey, FlagKey, TreeSizeKey, ToNat, OfNat;
    var state := State(seed);
    MulIsBijective(Sub(size, SizeKey(state)));
    AddSub(size, SizeKey(state));
    MulIsBijective(Xor(flags, FlagKey(state)));
    XorTwice(flags, FlagKey(state));
    MulIsBijective(Sub(OfNat(tree), TreeSizeKey(state)));
    AddSub(OfNat(tree), TreeSizeKey(state));
    ToOfNat(tree);
  }

  lemma FlagParts(count: bv8, skip: bool)
    ensures Part(FlagWord(count, skip), 0) == count && (Part(FlagWord(count, skip), 1) == 1 <==> skip)
  {
    hide Join, Part;
    PartsJoin(count, if skip then 1 else 0, 0, 0);
  }

  /** Each piece of a concatenation can be cut out again. */
  lemma Cut(a: seq<bv8>, x: seq<bv8>, b: seq<bv8>)
    ensures (a + x + b)[|a|..|a| + |x|] == x
  {
  }

  lemma FieldsLie(prefix: seq<bv8>, a: bv32, b: bv32, c: bv32, rest: seq<bv8>)
    ensures var data := prefix + Bytes4(a) + Bytes4(b) + Bytes4(c) + rest;
            Get(data, |prefix|) == a && Get(data, |prefix| + 4) == b && Get(data, |prefix| + 8) == c
  {
    hide Bytes4, Get;
    var data, s := prefix + Bytes4(a) + Bytes4(b) + Bytes4(c) + rest, |prefix|;
    assert data[s..s + 4] == Bytes4(a);
    assert data[s + 4..s + 8] == Bytes4(b);
    assert data[s + 8..s + 12] == Bytes4(c);
    WordOfBytes(a, data, s);
    WordOfBytes(b, data, s + 4);
    WordOfBytes(c, data, s + 8);
  }

  lemma BlobsLie(front: seq<bv8>, tree: seq<bv8>, pad: seq<bv8>, table: seq<bv8>, rest: seq<bv8>)
    ensures var data := front + tree + pad + table + rest; var at := |front| + |tree| + |pad|;
            data[|front|..|front| + |tree|] == tree && data[at..at + |table|] == table
  {
    Cut(front, tree, pad + table + rest);
    assert front + tree + (pad + table + rest) == front + tree + pad + table + rest;
    Cut(front + tree + pad, table, rest);
  }

  lemma Regroup(prefix: seq<bv8>, a: seq<bv8>, b: seq<bv8>, c: seq<bv8>, t: seq<bv8>, p: seq<bv8>, w: seq<bv8>,
                rest: seq<bv8>)
    ensures prefix + (a + b + c + t + p + w) + rest == prefix + a + b + c + (t + p + w + rest)
    ensures prefix + (a + b + c + t + p + w) + rest == (prefix + a + b + c) + t + p + w + rest
  {
  }

  /** Three words, a tree and a table lie in `data` from `s` on. */
  predicate Laid(data: seq<bv8>, s: nat, a: bv32, b: bv32, c: bv32, tree: seq<bv8>, table: seq<bv8>) {
    var at := s + AlignUp4(12 + |tree|);
    && at + |table| <= |data|
    && Get(data, s) == a && Get(data, s + 4) == b && Get(data, s + 8) == c
    && data[s + 12..s + 12 + |tree|] == tree
    && data[at..at + |table|] == table
  }

  lemma PackLies(prefix: seq<bv8>, a: bv32, b: bv32, c: bv32, tree: seq<bv8>, table: seq<bv8>, rest: seq<bv8>)
    ensures Laid(prefix + Pack(a, b, c, tree, table) + rest, |prefix|, a, b, c, tree, table)
  {
    hide Bytes4, Get, AlignUp4;
    var p: seq<bv8> := seq(AlignUp4(12 + |tree|) - 12 - |tree|, _ => 0);
    Regroup(prefix, Bytes4(a), Bytes4(b), Bytes4(c), tree, p, table, rest);
    FieldsLie(prefix, a, b, c, tree + p + table + rest);
    BlobsLie(prefix + Bytes4(a) + Bytes4(b) + Bytes4(c), tree, p, table, rest);
  }

  /** No segment is empty or reaches past the end. */
  ghost predicate AllInside(segments: seq<Segment>, start: nat, len: nat) {
    forall s :: s in segments ==> s.size != 0 && start + ToNat(s.offset) + ToNat(s.size) <= len
  }

  lemma InsideIs(segments: seq<Segment>, start: nat, len: nat)
    ensures AllInside(segments, start, len) <==> SegmentsFit(segments, start, len)
  {
    hide ToNat;
    assert forall i :: 0 <= i < |segments| ==> segments[i] in segments;
  }

  /** What the decoder reads when the pieces of an encoded header lie in the file; `flags` is the flag word. */
  ghost predicate IsHeader(data: seq<bv8>, seed: bv32, h: Header, flags: bv32) {
    var state, n := State(seed), |h.segments|;
    && 0 < n < 0x100 && |h.tree| <= MAX_TREE
    && Part(flags, 0) as nat == n && (Part(flags, 1) == 1 <==> h.skipAes)
    && Laid(data, h.start, Unmul(Sub(h.outputSize, SizeKey(state))), Unmul(Xor(flags, FlagKey(state))),
            Unmul(Sub(OfNat(|h.tree|), TreeSizeKey(state))),
            EncodeTree(h.tree, state), Encoded(TableWords(state), TableBytes(h.segments), 2 * n))
    && AllInside(h.segments, h.start, |data|)
  }

  lemma LaidFields(data: seq<bv8>, seed: bv32, h: Header, flags: bv32)
    requires IsHeader(data, seed, h, flags)
    ensures h.start + 12 <= |data| && ReadFields(data, h.start, seed) == Fields(h.outputSize, flags, |h.tree|)
  {
    hide Get, Add, Sub, Xor, Mul, Unmul, State, SizeKey, FlagKey, TreeSizeKey, ToNat, OfNat, EncodeTree, Encoded,
         TableBytes, Part, AllInside;
    FieldsRoundTrip(seed, h.outputSize, flags, |h.tree|);
  }

  lemma LaidTail(data: seq<bv8>, seed: bv32, h: Header, flags: bv32)
    requires IsHeader(data, seed, h, flags)
    ensures var s := h.start; var n := |h.segments|; var at := s + AlignUp4(12 + |h.tree|);
            && s + 12 + |h.tree| <= |data| && at + 8 * n <= |data|
            && DecodeTree(data[s + 12..s + 12 + |h.tree|], State(seed)) == h.tree
            && ReadSegments(data[at..at + 8 * n], State(seed)) == h.segments
  {
    hide Get, State, Sub, Xor, Unmul, SizeKey, FlagKey, TreeSizeKey, OfNat, DecodeTree, EncodeTree, Decoded, Encoded,
         TableBytes, ReadTable, Part, AllInside;
    TreeRoundTrip(h.tree, State(seed));
    var table := TableBytes(h.segments);
    WordsInvert(TableWords(State(seed)), table);
    assert table[..8 * |h.segments|] == table;
    TableReads(h.segments, table);
  }

  lemma HeaderIsParsed(data: seq<bv8>, seed: bv32, h: Header, flags: bv32)
    requires IsHeader(data, seed, h, flags)
    ensures Parse(data, h.start, seed) == Ok(h)
  {
    hide ReadFields, State, Part, DecodeTree, ReadSegments, SegmentsFit, AlignUp4, IsHeader;
    HeaderBounds(data, seed, h, flags);
    LaidFields(data, seed, h, flags);
    LaidTail(data, seed, h, flags);
  }

  lemma HeaderBounds(data: seq<bv8>, seed: bv32, h: Header, flags: bv32)
    requires IsHeader(data, seed, h, flags)
    ensures var n := |h.segments|;
            && 0 < n < 0x100 && |h.tree| <= MAX_TREE && SegmentsFit(h.segments, h.start, |data|)
            && Part(flags, 0) as nat == n && (Part(flags, 1) == 1 <==> h.skipAes)
  {
    hide State, Part, SegmentsFit, AllInside, Laid;
    InsideIs(h.segments, h.start, |data|);
  }

  // ----- What a parsed header was encoded as -----

  lemma AddSubBytes(d: seq<bv8>, state: bv32)
    ensures SubBytes(AddBytes(d, state), state) == d
  {
    hide TreeAdjustment;
    var r := SubBytes(AddBytes(d, state), state);
    forall i | 0 <= i < |d|
      ensures r[i] == d[i]
    {
      AddSubByte(d[i], TreeAdjustment(state, i));
    }
  }

  lemma AddSubByte(a: bv8, b: bv8)
    ensures (a + b) - b == a
  {
  }

  lemma TreeEncodes(enc: seq<bv8>, state: bv32)
    ensures EncodeTree(DecodeTree(enc, state), state) == enc
  {
    hide AddBytes, SubBytes, Decoded, Encoded;
    WordsInvert(TreeWords, enc);
    AddSubBytes(Decoded(TreeWords, enc, |enc| / 4), state);
  }

  lemma WordBytes(d: seq<bv8>, o: nat)
    requires o + 4 <= |d|
    ensures Bytes4(Get(d, o)) == d[o..o + 4]
  {
    hide Join, Part;
    PartsJoin(d[o], d[o + 1], d[o + 2], d[o + 3]);
  }

  lemma {:induction false} TableWrites(table: seq<bv8>, n: nat)
    requires 8 * n <= |table|
    ensures TableBytes(ReadTable(table, n)) == table[..8 * n]
  {
    if n > 0 {
      hide TableBytes, ReadTable;
      TableWrites(table, n - 1);
      LastWrites(table, n);
    }
  }

  lemma LastWrites(table: seq<bv8>, n: nat)
    requires 0 < n && 8 * n <= |table| && TableBytes(ReadTable(table, n - 1)) == table[..8 * (n - 1)]
    ensures TableBytes(ReadTable(table, n)) == table[..8 * n]
  {
    hide Bytes4, Get, TableBytes, ReadTable;
    var o := 8 * (n - 1);
    TableLast(table, n);
    TableBytesStep(ReadTable(table, n));
    WordBytes(table, o);
    WordBytes(table, o + 4);
    NextEight(table, o);
  }

  lemma TableLast(table: seq<bv8>, n: nat)
    requires 0 < n && 8 * n <= |table|
    ensures var o := 8 * (n - 1); var segments := ReadTable(table, n);
            segments[..n - 1] == ReadTable(table, n - 1) && segments[n - 1] == Segment(Get(table, o), Get(table, o + 4))
  {
    hide Get;
  }

  lemma NextEight(table: seq<bv8>, o: nat)
    requires o + 8 <= |table|
    ensures table[..o + 8] == table[..o] + table[o..o + 4] + table[o + 4..o + 8]
  {
  }

  lemma SegmentsEncode(enc: seq<bv8>, state: bv32, n: nat)
    requires |enc| == 8 * n
    ensures |ReadSegments(enc, state)| == n
    ensures Encoded(TableWords(state), TableBytes(ReadSegments(enc, state)), 2 * n) == enc
  {
    hide Decoded, Encoded, TableBytes, ReadTable;
    var table := Decoded(TableWords(state), enc, 2 * n);
    WordsInvert(TableWords(state), enc);
    TableWrites(table, n);
    assert table[..8 * n] == table;
  }

  lemma FieldsEncode(seed: bv32, a: bv32, b: bv32, c: bv32)
    ensures var state := State(seed);
            && Unmul(Sub(Add(Mul(a), SizeKey(state)), SizeKey(state))) == a
            && Unmul(Xor(Xor(Mul(b), FlagKey(state)), FlagKey(state))) == b
            && Unmul(Sub(OfNat(ToNat(Add(Mul(c), TreeSizeKey(state)))), TreeSizeKey(state))) == c
  {
    hide Add, Sub, Xor, Mul, Unmul, State, SizeKey, FlagKey, TreeSizeKey, ToNat, OfNat;
    var state := State(seed);
    MulIsBijective(a);
    AddSub(Mul(a), SizeKey(state));
    MulIsBijective(b);
    XorTwice(Mul(b), FlagKey(state));
    MulIsBijective(c);
    AddSub(Mul(c), TreeSizeKey(state));
    OfToNat(Add(Mul(c), TreeSizeKey(state)));
  }

  lemma ParsedIsHeader(data: seq<bv8>, start: nat, seed: bv32)
    requires Parse(data, start, seed).Ok?
    ensures var h := Parse(data, start, seed).value;
            h.start == start && start + 12 <= |data| && IsHeader(data, seed, h, ReadFields(data, start, seed).flags)
  {
    hide Get, Sub, Xor, Unmul, State, SizeKey, FlagKey, TreeSizeKey, OfNat, DecodeTree, ReadSegments, Part, SegmentsFit,
         AlignUp4, Parse, ReadFields, AllInside, IsHeader;
    ParsedParts(data, start, seed);
    var h, f := Parse(data, start, seed).value, ReadFields(data, start, seed);
    InsideIs(h.segments, start, |data|);
    FieldsRead(data, start, seed);
    ByteBound(Part(f.flags, 0));
    PartsAreHeader(data, seed, h, f);
  }

  lemma PartsAreHeader(data: seq<bv8>, seed: bv32, h: Header, f: Fields)
    requires var n := Part(f.flags, 0) as nat; var at := h.start + AlignUp4(12 + f.treeSize);
             && 0 < n < 0x100 && f.treeSize <= MAX_TREE && AllInside(h.segments, h.start, |data|)
             && at + 8 * n <= |data| && h.start + 12 + f.treeSize <= |data|
             && h.outputSize == f.outputSize && (Part(f.flags, 1) == 1 <==> h.skipAes)
             && h.tree == DecodeTree(data[h.start + 12..h.start + 12 + f.treeSize], State(seed))
             && h.segments == ReadSegments(data[at..at + 8 * n], State(seed))
    requires Get(data, h.start) == Unmul(Sub(f.outputSize, SizeKey(State(seed))))
    requires Get(data, h.start + 4) == Unmul(Xor(f.flags, FlagKey(State(seed))))
    requires Get(data, h.start + 8) == Unmul(Sub(OfNat(f.treeSize), TreeSizeKey(State(seed))))
    ensures IsHeader(data, seed, h, f.flags)
  {
    hide Get, Sub, Xor, Unmul, State, SizeKey, FlagKey, TreeSizeKey, OfNat, DecodeTree, EncodeTree, Encoded, TableBytes,
         ReadSegments, Part, AlignUp4, Laid, AllInside, IsHeader;
    var start, n, at := h.start, Part(f.flags, 0) as nat, h.start + AlignUp4(12 + f.treeSize);
    var tree, table := data[start + 12..start + 12 + f.treeSize], data[at..at + 8 * n];
    TreeEncodes(tree, State(seed));
    SegmentsEncode(table, State(seed), n);
    LaidBy(data, start, f.treeSize, n);
    MakeHeader(data, seed, h, f.flags, Get(data, start), Get(data, start + 4), Get(data, start + 8), tree, table);
  }

  lemma MakeHeader(data: seq<bv8>, seed: bv32, h: Header, flags: bv32, a: bv32, b: bv32, c: bv32, tree: seq<bv8>,
                   table: seq<bv8>)
    requires 0 < |h.segments| < 0x100 && |h.tree| <= MAX_TREE && AllInside(h.segments, h.start, |data|)
    requires Part(flags, 0) as nat == |h.segments| && (Part(flags, 1) == 1 <==> h.skipAes)
    requires Laid(data, h.start, a, b, c, tree, table)
    requires a == Unmul(Sub(h.outputSize, SizeKey(State(seed)))) && b == Unmul(Xor(flags, FlagKey(State(seed))))
    requires c == Unmul(Sub(OfNat(|h.tree|), TreeSizeKey(State(seed)))) && tree == EncodeTree(h.tree, State(seed))
    requires table == Encoded(TableWords(State(seed)), TableBytes(h.segments), 2 * |h.segments|)
    ensures IsHeader(data, seed, h, flags)
  {
    hide Sub, Xor, Unmul, State, SizeKey, FlagKey, TreeSizeKey, OfNat, EncodeTree, Encoded, TableBytes, Part, AllInside,
         Laid;
  }

  lemma LaidBy(data: seq<bv8>, s: nat, tree: nat, n: nat)
    requires s + 12 + tree <= |data| && s + AlignUp4(12 + tree) + 8 * n <= |data|
    ensures var at := s + AlignUp4(12 + tree);
            Laid(data, s, Get(data, s), Get(data, s + 4), Get(data, s + 8), data[s + 12..s + 12 + tree],
                 data[at..at + 8 * n])
  {
    hide Get;
  }

  lemma ByteBound(b: bv8)
    ensures (b as nat) < 0x100
  {
  }

  lemma FieldsRead(data: seq<bv8>, start: nat, seed: bv32)
    requires start + 12 <= |data|
    ensures var state := State(seed); var f := ReadFields(data, start, seed);
            && Get(data, start) == Unmul(Sub(f.outputSize, SizeKey(state)))
            && Get(data, start + 4) == Unmul(Xor(f.flags, FlagKey(state)))
            && Get(data, start + 8) == Unmul(Sub(OfNat(f.treeSize), TreeSizeKey(state)))
  {
    hide Get, Add, Sub, Xor, Mul, Unmul, State, SizeKey, FlagKey, TreeSizeKey, ToNat, OfNat;
    FieldsEncode(seed, Get(data, start), Get(data, start + 4), Get(data, start + 8));
  }

  predicate Bounded(data: seq<bv8>, start: nat, f: Fields) {
    var n := Part(f.flags, 0) as nat;
    && 0 < n && f.treeSize <= MAX_TREE && start + 12 + f.treeSize <= |data|
    && start + AlignUp4(12 + f.treeSize) + 8 * n <= |data|
  }

  function HeaderOf(data: seq<bv8>, start: nat, seed: bv32, f: Fields): Header
    requires Bounded(data, start, f)
  {
    var at := start + AlignUp4(12 + f.treeSize);
    Header(start, f.outputSize, Part(f.flags, 1) == 1,
           DecodeTree(data[start + 12..start + 12 + f.treeSize], State(seed)),
           ReadSegments(data[at..at + 8 * Part(f.flags, 0) as nat], State(seed)))
  }

  /** What a successful parse has read and checked. */
  lemma ParsedParts(data: seq<bv8>, start: nat, seed: bv32)
    requires Parse(data, start, seed).Ok?
    ensures start + 12 <= |data|
    ensures var f := ReadFields(data, start, seed); var h := Parse(data, start, seed).value;
            Bounded(data, start, f) && h == HeaderOf(data, start, seed, f) && SegmentsFit(h.segments, start, |data|)
  {
    hide ReadFields, State, Part, DecodeTree, ReadSegments, SegmentsFit, AlignUp4;
  }

  /**
   A file parses to a header exactly when the header, with some flag word, lies
   encoded at `start`, and its counts and segments are within bounds.
   */
  lemma ParseIs(data: seq<bv8>, start: nat, seed: bv32, h: Header)
    ensures Parse(data, start, seed) == Ok(h) <==> h.start == start && exists flags :: IsHeader(data, seed, h, flags)
  {
    hide Parse, IsHeader, ReadFields;
    if Parse(data, start, seed) == Ok(h) {
      ParsedIsHeader(data, start, seed);
    }
    forall flags | h.start == start && IsHeader(data, seed, h, flags)
      ensures Parse(data, start, seed) == Ok(h)
    {
      HeaderIsParsed(data, seed, h, flags);
    }
  }

  /** Where the pieces of an encoded header lie. */
  lemma Pieces(h: Header, seed: bv32, prefix: seq<bv8>, rest: seq<bv8>)
    requires |h.segments| < 0x100
    ensures var state := State(seed); var n := |h.segments|;
            Laid(prefix + Encode(h, seed) + rest, |prefix|,
                 Unmul(Sub(h.outputSize, SizeKey(state))),
                 Unmul(Xor(FlagWord(n as bv8, h.skipAes), FlagKey(state))),
                 Unmul(Sub(OfNat(|h.tree|), TreeSizeKey(state))),
                 EncodeTree(h.tree, state), Encoded(TableWords(state), TableBytes(h.segments), 2 * n))
  {
    hide Unmul, Sub, Xor, SizeKey, FlagKey, TreeSizeKey, State, EncodeTree, Encoded, TableBytes, OfNat, FlagWord, Pack,
         Laid;
    var state, n := State(seed), |h.segments|;
    PackLies(prefix, Unmul(Sub(h.outputSize, SizeKey(state))),
             Unmul(Xor(FlagWord(n as bv8, h.skipAes), FlagKey(state))),
             Unmul(Sub(OfNat(|h.tree|), TreeSizeKey(state))), EncodeTree(h.tree, state),
             Encoded(TableWords(state), TableBytes(h.segments), 2 * n), rest);
  }

  /**
   Parsing what the encoder wrote, anywhere in a file and for every seed,
   recovers every field of the header.
   */
  lemma HeaderRoundTrip(h: Header, seed: bv32, prefix: seq<bv8>, rest: seq<bv8>)
    requires 0 < |h.segments| < 0x100 && |h.tree| <= MAX_TREE && h.start == |prefix|
    requires SegmentsFit(h.segments, |prefix|, |prefix + Encode(h, seed) + rest|)
    ensures Parse(prefix + Encode(h, seed) + rest, |prefix|, seed) == Ok(h)
  {
    hide Encode, State, FlagWord, Part, SegmentsFit, Laid, Unmul, Sub, Xor, SizeKey, FlagKey, TreeSizeKey, OfNat,
         EncodeTree, Encoded, TableBytes, Parse, AllInside;
    var n := |h.segments|;
    InsideIs(h.segments, |prefix|, |prefix + Encode(h, seed) + rest|);
    Pieces(h, seed, prefix, rest);
    FlagParts(n as bv8, h.skipAes);
    NatOfByte(n);
    HeaderIsParsed(prefix + Encode(h, seed) + rest, seed, h, FlagWord(n as bv8, h.skipAes));
  }
}
