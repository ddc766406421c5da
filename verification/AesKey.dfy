/**
 Recovery of an AES-256 key from the decryption schedule embedded in a module
 image of the Android protector.
 */
module AesKey {
  import opened Words
  import opened Wrappers
  import opened Aes
  import AesBlocks
  import AesChain
  import Gf8

  const ROUNDS: nat := 14

  // ----- The key schedule (FIPS 197, section 5.2, with eight key words) -----

  function Rcon(j: nat): bv8 {
    if j <= 1 then 1 else Gf8.Xtime(Rcon(j - 1))
  }

  function RotWord(c: Column): Column {
    Column(c.r1, c.r2, c.r3, c.r0)
  }

  function ExpandedWord(key: seq<bv8>, i: nat): Column
    requires |key| == 32
  {
    if i < 8 then Column(key[4 * i], key[4 * i + 1], key[4 * i + 2], key[4 * i + 3])
    else
      var before := ExpandedWord(key, i - 1);
      var t :=
        if i % 8 == 0 then XorColumn(SubColumn(RotWord(before)), Column(Rcon(i / 8), 0, 0, 0))
        else if i % 8 == 4 then SubColumn(before)
        else before;
      XorColumn(ExpandedWord(key, i - 8), t)
  }

  function Schedule(key: seq<bv8>): (keys: seq<State>)
    requires |key| == 32
    ensures |keys| == ROUNDS + 1
  {
    seq(ROUNDS + 1, r requires 0 <= r <= ROUNDS =>
      State(ExpandedWord(key, 4 * r), ExpandedWord(key, 4 * r + 1),
            ExpandedWord(key, 4 * r + 2), ExpandedWord(key, 4 * r + 3)))
  }

  // ----- The configuration -----

  datatype Error = NoSchedule | NotUnique | BadSize | OutOfBounds

  datatype Config = Config(headerSeed: bv32, containerSeed: bv32, aesKey: seq<bv8>, skipAes: bool, scheduleOffset: nat)

  /** Key length 256 and 14 rounds. */
  predicate MarkerAt(image: seq<bv8>, i: nat) {
    i + 4 <= |image| && image[i] == 0 && image[i + 1] == 1 && image[i + 2] == 0x0E && image[i + 3] == 0
  }

  /** The key of a decryption schedule: its last round key, then the one before it with the columns mixed. */
  function RecoveredKey(keys: seq<State>): (key: seq<bv8>)
    requires |keys| == ROUNDS + 1
    ensures |key| == 32
  {
    AesBlocks.StateBytes(keys[14]) + AesBlocks.StateBytes(MixColumns(keys[13]))
  }

  /** The configuration around the schedule at `o`. */
  function ConfigAt(image: seq<bv8>, o: nat, hasSkip: bool): Result<Config, Error>
    requires MarkerAt(image, o)
  {
    if o < 8 then Err(NotUnique)
    else if Get(image, o - 4) != 0 && Get(image, o - 4) != 0xF4 then Err(BadSize)
    else if o + 4 + 240 > |image| then Err(OutOfBounds)
    else
      var key := RecoveredKey(AesBlocks.Keys(image, o + 4, ROUNDS));
      if !hasSkip then Ok(Config(Get(image, o - 8), Get(image, o - 8), key, false, o))
      else if o + 0x240 >= |image| then Err(OutOfBounds)
      else Ok(Config(Get(image, o - 8), Get(image, o + 0x100), key, image[o + 0x240] != 0, o))
  }

  // ----- The key of a schedule -----

  lemma KeyHalves(key: seq<bv8>)
    requires |key| == 32
    ensures AesBlocks.StateBytes(Schedule(key)[0]) == key[..16] && AesBlocks.StateBytes(Schedule(key)[1]) == key[16..]
  {
    hide ExpandedWord;
    forall i: nat | i < 8
      ensures AesBlocks.ColumnBytes(ExpandedWord(key, i)) == key[4 * i..4 * i + 4]
    {
      FirstWords(key, i);
    }
    assert key[..16] == key[0..4] + key[4..8] + key[8..12] + key[12..16];
    assert key[16..] == key[16..20] + key[20..24] + key[24..28] + key[28..32];
  }

  lemma FirstWords(key: seq<bv8>, i: nat)
    requires |key| == 32 && i < 8
    ensures AesBlocks.ColumnBytes(ExpandedWord(key, i)) == key[4 * i..4 * i + 4]
  {
  }

  /** Every key is recovered from its decryption schedule. */
  lemma KeyIsRecovered(key: seq<bv8>)
    requires |key| == 32
    ensures RecoveredKey(DecryptionKeys(Schedule(key))) == key
  {
    hide ExpandedWord, MixColumns, InvMixColumns, AesBlocks.StateBytes;
    KeyHalves(key);
    MixColumnsInverts(Schedule(key)[1]);
  }

  /** What must lie around a marker: a known size word before it, and everything that is read. */
  predicate Usable(image: seq<bv8>, o: nat, hasSkip: bool) {
    && 8 <= o && o + 4 + 240 <= |image| && (hasSkip ==> o + 0x240 < |image|)
    && (Get(image, o - 4) == 0 || Get(image, o - 4) == 0xF4)
  }

  /** A marker is accepted exactly when it is usable; seeds and skip flag are read from their places around it. */
  lemma ConfigIs(image: seq<bv8>, o: nat, hasSkip: bool)
    requires MarkerAt(image, o)
    ensures ConfigAt(image, o, hasSkip).Ok? <==> Usable(image, o, hasSkip)
    ensures Usable(image, o, hasSkip) ==>
              var c := ConfigAt(image, o, hasSkip).value;
              && c.headerSeed == Get(image, o - 8) && c.scheduleOffset == o
              && c.containerSeed == Get(image, if hasSkip then o + 0x100 else o - 8)
              && (c.skipAes <==> hasSkip && image[o + 0x240] != 0)
  {
    hide Get, AesBlocks.Keys, RecoveredKey;
  }

  /** If the decryption schedule of a key follows the marker, as the protector stores it, exactly that key comes out. */
  lemma ImageYieldsKey(image: seq<bv8>, o: nat, hasSkip: bool, key: seq<bv8>)
    requires |key| == 32 && MarkerAt(image, o) && Usable(image, o, hasSkip)
    requires AesBlocks.Keys(image, o + 4, ROUNDS) == DecryptionKeys(Schedule(key))
    ensures ConfigAt(image, o, hasSkip).Ok? && ConfigAt(image, o, hasSkip).value.aesKey == key
  {
    hide Get, AesBlocks.Keys, DecryptionKeys, RecoveredKey, Schedule;
    KeyIsRecovered(key);
  }

  // ----- The parser -----

  /** The first marker at or after `from`. */
  method NextMarker(image: seq<bv8>, from: nat) returns (r: Option<nat>)
    ensures r.Some? ==>
            from <= r.value && MarkerAt(image, r.value) && forall i: nat :: from <= i < r.value ==> !MarkerAt(image, i)
    ensures r.None? ==> forall i: nat :: from <= i ==> !MarkerAt(image, i)
  {
    var i := from;
    while i + 4 <= |image|
      invariant from <= i && forall k: nat :: from <= k < i ==> !MarkerAt(image, k)
    {
      if image[i] == 0 && image[i + 1] == 1 && image[i + 2] == 0x0E && image[i + 3] == 0 {
        return Some(i);
      }
      i := i + 1;
    }
    r := None;
  }

  lemma DoubleIs(a: bv8)
    ensures Gf8.Mul(2, a) == Gf8.Xtime(a)
  {
    hide Gf8.Mul, Gf8.Xtime, Gf8.Product;
    Gf8.MulCommutative(2, a);
    Gf8.MulProduct(a, 2);
    ProductBy2(a);
  }

  lemma TripleIs(a: bv8)
    ensures Gf8.Mul(3, a) == Gf8.Xor(Gf8.Xtime(a), a)
  {
    hide Gf8.Mul, Gf8.Xtime, Gf8.Product;
    Gf8.MulCommutative(3, a);
    Gf8.MulProduct(a, 3);
    ProductBy3(a);
  }

  lemma ProductBy2(a: bv8)
    ensures Gf8.Product(a, 2) == Gf8.Xtime(a)
  {
    hide Gf8.Xtime;
  }

  lemma ProductBy3(a: bv8)
    ensures Gf8.Product(a, 3) == Gf8.Xor(Gf8.Xtime(a), a)
  {
    hide Gf8.Xtime;
  }

  /** A row as the mixing loop adds it up. */
  function MixSum(a: bv8, b: bv8, c: bv8, d: bv8): bv8 {
    Gf8.Xor(Gf8.Xor(Gf8.Xor(Gf8.Xtime(a), Gf8.Xor(Gf8.Xtime(b), b)), c), d)
  }

  lemma MixSumIs(a: bv8, b: bv8, c: bv8, d: bv8)
    ensures MixSum(a, b, c, d) == MixRow(a, b, c, d)
  {
    hide Gf8.Xor, Gf8.Xtime, Gf8.Mul;
    DoubleIs(a);
    TripleIs(b);
    Gf8.XorAssoc(Gf8.Xor(Gf8.Xtime(a), Gf8.Xor(Gf8.Xtime(b), b)), c, d);
  }

  function MixedBytes(block: seq<bv8>, w: nat): (b: seq<bv8>)
    requires |block| == 16 && w < 4
    ensures |b| == 4
  {
    AesBlocks.ColumnBytes(MixColumn(Column(block[4 * w], block[4 * w + 1], block[4 * w + 2], block[4 * w + 3])))
  }

  /** The first `n` columns mixed. */
  function MixedTo(block: seq<bv8>, n: nat): seq<bv8>
    requires |block| == 16 && n <= 4
  {
    if n == 0 then [] else MixedTo(block, n - 1) + MixedBytes(block, n - 1)
  }

  lemma FourColumns(block: seq<bv8>)
    requires |block| == 16
    ensures MixedTo(block, 4) == AesBlocks.StateBytes(MixColumns(AesBlocks.BlockState(block)))
  {
    hide MixColumn;
    assert MixedTo(block, 0) == [];
    assert MixedTo(block, 2) == MixedBytes(block, 0) + MixedBytes(block, 1);
  }

  lemma MixedSums(a: bv8, b: bv8, c: bv8, d: bv8)
    ensures AesBlocks.ColumnBytes(MixColumn(Column(a, b, c, d)))
            == [MixSum(a, b, c, d), MixSum(b, c, d, a), MixSum(c, d, a, b), MixSum(d, a, b, c)]
  {
    hide MixSum, MixRow;
    MixSumIs(a, b, c, d);
    MixSumIs(b, c, d, a);
    MixSumIs(c, d, a, b);
    MixSumIs(d, a, b, c);
  }

  /** Mix the four columns of a block. */
  method MixBlock(block: seq<bv8>) returns (output: seq<bv8>)
    requires |block| == 16
    ensures output == AesBlocks.StateBytes(MixColumns(AesBlocks.BlockState(block)))
  {
    hide MixSum, MixColumn, AesBlocks.ColumnBytes, AesBlocks.StateBytes, MixColumns;
    output := [];
    for w := 0 to 4
      invariant output == MixedTo(block, w)
    {
      var a, b, c, d := block[4 * w], block[4 * w + 1], block[4 * w + 2], block[4 * w + 3];
      MixedSums(a, b, c, d);
      output := output + [MixSum(a, b, c, d), MixSum(b, c, d, a), MixSum(c, d, a, b), MixSum(d, a, b, c)];
    }
    FourColumns(block);
  }

  /** Reverse the bytes of each word of a round key. */
  method ReverseWords(source: seq<bv8>) returns (output: seq<bv8>)
    requires |source| == 16
    ensures output == AesBlocks.StateBytes(AesBlocks.RoundKey(source, 0))
  {
    hide Part, Join;
    var out := new bv8[16](i => 0);
    for word := 0 to 4
      invariant forall i :: 0 <= i < 4 * word ==> out[i] == source[i / 4 * 4 + 3 - i % 4]
    {
      for byte := 0 to 4
        invariant forall i :: 0 <= i < 4 * word + byte ==> out[i] == source[i / 4 * 4 + 3 - i % 4]
      {
        out[4 * word + byte] := source[4 * word + 3 - byte];
      }
    }
    output := out[..];
    ReversedIs(source, output);
  }

  /** Every word of `output` is the word of `source` backwards. */
  predicate WordsReversed(source: seq<bv8>, output: seq<bv8>)
    requires |source| == |output| == 16
  {
    forall i :: 0 <= i < 16 ==> output[i] == source[i / 4 * 4 + 3 - i % 4]
  }

  lemma ReversedColumn(source: seq<bv8>, output: seq<bv8>, o: nat)
    requires |source| == |output| && o + 4 <= |source|
    requires output[o] == source[o + 3] && output[o + 1] == source[o + 2]
    requires output[o + 2] == source[o + 1] && output[o + 3] == source[o]
    ensures output[o..o + 4] == AesBlocks.ColumnBytes(AesBlocks.ColumnOf(Get(source, o)))
  {
    hide Get, AesBlocks.ColumnOf;
    StoredColumn(source, o);
  }

  lemma ReversedBytes(source: seq<bv8>, output: seq<bv8>, w: nat)
    requires |source| == |output| == 16 && w < 4 && WordsReversed(source, output)
    ensures output[4 * w] == source[4 * w + 3] && output[4 * w + 1] == source[4 * w + 2]
    ensures output[4 * w + 2] == source[4 * w + 1] && output[4 * w + 3] == source[4 * w]
  {
  }

  lemma ReversedIs(source: seq<bv8>, output: seq<bv8>)
    requires |source| == |output| == 16 && WordsReversed(source, output)
    ensures output == AesBlocks.StateBytes(AesBlocks.RoundKey(source, 0))
  {
    hide Get, AesBlocks.ColumnOf, WordsReversed;
    ReversedBytes(source, output, 0);
    ReversedBytes(source, output, 1);
    ReversedBytes(source, output, 2);
    ReversedBytes(source, output, 3);
    ReversedColumn(source, output, 0);
    ReversedColumn(source, output, 4);
    ReversedColumn(source, output, 8);
    ReversedColumn(source, output, 12);
    FourParts(output);
  }

  lemma FourParts(s: seq<bv8>)
    requires |s| == 16
    ensures s == s[0..4] + s[4..8] + s[8..12] + s[12..16]
  {
  }

  lemma StoredColumn(k: seq<bv8>, o: nat)
    requires o + 4 <= |k|
    ensures AesBlocks.ColumnBytes(AesBlocks.ColumnOf(Get(k, o))) == [k[o + 3], k[o + 2], k[o + 1], k[o]]
  {
    hide Part, Join;
    PartsJoin(k[o], k[o + 1], k[o + 2], k[o + 3]);
  }

  /** The fifteen round keys of the stored schedule, as bytes. */
  method RoundKeys(schedule: seq<bv8>) returns (keys: seq<seq<bv8>>)
    requires |schedule| == 16 * (ROUNDS + 1)
    ensures |keys| == ROUNDS + 1
    ensures forall r :: 0 <= r <= ROUNDS ==> keys[r] == AesBlocks.StateBytes(AesBlocks.Keys(schedule, 0, ROUNDS)[r])
  {
    hide AesBlocks.StateBytes, AesBlocks.RoundKey;
    keys := [];
    for r := 0 to ROUNDS + 1
      invariant |keys| == r
      invariant forall i :: 0 <= i < r ==> keys[i] == AesBlocks.StateBytes(AesBlocks.Keys(schedule, 0, ROUNDS)[i])
    {
      var source := schedule[16 * r..16 * r + 16];
      AesChain.SameRoundKey(source, schedule, 0, 16 * r);
      var key := ReverseWords(source);
      keys := keys + [key];
    }
  }

  /** The key recovered from the 240 bytes of a stored schedule. */
  method RecoverKey(schedule: seq<bv8>) returns (key: seq<bv8>)
    requires |schedule| == 16 * (ROUNDS + 1)
    ensures key == RecoveredKey(AesBlocks.Keys(schedule, 0, ROUNDS))
  {
    hide AesBlocks.StateBytes, AesBlocks.BlockState, AesBlocks.Keys, MixColumns;
    var keys := RoundKeys(schedule);
    var mixed := MixBlock(keys[13]);
    AesBlocks.StateOfBytes(AesBlocks.Keys(schedule, 0, ROUNDS)[13]);
    key := keys[14] + mixed;
  }

  /** One marker gives the configuration there; none and several are different errors. */
  method ParseConfig(image: seq<bv8>, hasSkip: bool) returns (r: Result<Config, Error>)
    ensures (forall o: nat :: !MarkerAt(image, o)) ==> r == Err(NoSchedule)
    ensures forall o: nat, p: nat :: o < p && MarkerAt(image, o) && MarkerAt(image, p) ==> r == Err(NotUnique)
    ensures forall o: nat :: MarkerAt(image, o) && (forall p: nat :: MarkerAt(image, p) ==> p == o) ==>
            r == ConfigAt(image, o, hasSkip)
  {
    hide Get, AesBlocks.Keys, RecoveredKey;
    var first := NextMarker(image, 0);
    if first.None? {
      return Err(NoSchedule);
    }
    var o := first.value;
    assert MarkerAt(image, o);
    var second := NextMarker(image, o + 1);
    if o < 8 || second.Some? {
      return Err(NotUnique);
    }
    r := ReadConfig(image, o, hasSkip);
  }

  method ReadConfig(image: seq<bv8>, o: nat, hasSkip: bool) returns (r: Result<Config, Error>)
    requires MarkerAt(image, o) && o >= 8
    ensures r == ConfigAt(image, o, hasSkip)
  {
    hide Get, AesBlocks.Keys, RecoveredKey;
    var headerSeed, size := Get(image, o - 8), Get(image, o - 4);
    if size != 0 && size != 0xF4 {
      return Err(BadSize);
    }
    if o + 4 + 240 > |image| {
      return Err(OutOfBounds);
    }
    var schedule := image[o + 4..o + 4 + 240];
    SchedulePart(image, o);
    var key := RecoverKey(schedule);
    if !hasSkip {
      return Ok(Config(headerSeed, headerSeed, key, false, o));
    }
    if o + 0x240 >= |image| {
      return Err(OutOfBounds);
    }
    r := Ok(Config(headerSeed, Get(image, o + 0x100), key, image[o + 0x240] != 0, o));
  }

  lemma SchedulePart(image: seq<bv8>, o: nat)
    requires o + 4 + 240 <= |image|
    ensures AesBlocks.Keys(image[o + 4..o + 4 + 240], 0, ROUNDS) == AesBlocks.Keys(image, o + 4, ROUNDS)
  {
    hide AesBlocks.Keys;
    var schedule := image[o + 4..o + 4 + 240];
    assert schedule[0..240] == schedule;
    AesChain.SameKeys(schedule, image, 0, o + 4, ROUNDS);
  }
}
