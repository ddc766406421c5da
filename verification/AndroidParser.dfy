/** Parsing the Android protector's container header, with its loops over a copied tree and table. */
module AndroidParser {
  import opened Words
  import opened Wrappers
  import opened AndroidContainer
  import Gf32

  /** Multiply each whole word of the tree by the fixed field element. */
  method DecodeTreeWords(tree: array<bv8>)
    modifies tree
    ensures tree[..] == Decoded(TreeWords, old(tree[..]), tree.Length / 4)
  {
    hide Get, Put, Gf32.Mul;
    ghost var enc := tree[..];
    var n := tree.Length / 4;
    for i := 0 to n
      invariant tree[..] == Decoded(TreeWords, enc, i)
    {
      var value := ReadWord(tree, 4 * i);
      DecodedWords(TreeWords, enc, i);
      SameWord(tree[..], enc, 4 * i);
      var decoded := Gf32.MulFixed(value);
      WriteWord(tree, 4 * i, decoded);
    }
  }

  /** Add to each byte of the tree the adjustment for its position. */
  method AdjustTree(tree: array<bv8>, state: bv32)
    modifies tree
    ensures tree[..] == AddBytes(old(tree[..]), state)
  {
    hide TreeAdjustment;
    ghost var words := tree[..];
    for i := 0 to tree.Length
      invariant forall j :: 0 <= j < tree.Length ==>
                tree[j] == if j < i then words[j] + TreeAdjustment(state, j) else words[j]
    {
      tree[i] := tree[i] + TreeAdjustment(state, i);
    }
    assert tree[..] == AddBytes(words, state);
  }

  /** Undo the key and the field multiplication of each word of the segment table. */
  method DecodeTableWords(table: array<bv8>, state: bv32)
    modifies table
    ensures table[..] == Decoded(TableWords(state), old(table[..]), table.Length / 4)
  {
    hide Get, Put, Gf32.Mul, TableXor, TableAdd, Xor, Add;
    ghost var enc := table[..];
    var n := table.Length / 4;
    for i := 0 to n
      invariant table[..] == Decoded(TableWords(state), enc, i)
    {
      var value := ReadWord(table, 4 * i);
      DecodedWords(TableWords(state), enc, i);
      SameWord(table[..], enc, 4 * i);
      var product := Gf32.MulFixed(Xor(value, TableXor(state)));
      WriteWord(table, 4 * i, Add(product, TableAdd(state, i)));
    }
  }

  /** Collect the segments, stopping at the first that is empty or outside the file. */
  method CollectSegments(table: seq<bv8>, count: nat, start: nat, len: nat) returns (r: Option<seq<Segment>>)
    requires 8 * count <= |table|
    ensures r == if SegmentsFit(ReadTable(table, count), start, len) then Some(ReadTable(table, count)) else None
  {
    hide Get, ToNat;
    var segments: seq<Segment> := [];
    for i := 0 to count
      invariant segments == ReadTable(table, i) && SegmentsFit(segments, start, len)
    {
      var s := Segment(Get(table, 8 * i), Get(table, 8 * i + 4));
      TablePrefix(table, i + 1, count);
      if s.size == 0 || start + ToNat(s.offset) + ToNat(s.size) > len {
        assert ReadTable(table, count)[i] == s;
        return None;
      }
      segments := segments + [s];
    }
    r := Some(segments);
  }

  lemma {:induction false} TablePrefix(table: seq<bv8>, i: nat, n: nat)
    requires i <= n && 8 * n <= |table|
    ensures ReadTable(table, n)[..i] == ReadTable(table, i)
    ensures i > 0 ==> ReadTable(table, n)[i - 1] == Segment(Get(table, 8 * (i - 1)), Get(table, 8 * (i - 1) + 4))
    decreases n
  {
    hide Get;
    if i < n {
      TablePrefix(table, i, n - 1);
    }
  }

  method FieldsOf(data: seq<bv8>, start: nat, seed: bv32) returns (f: Fields)
    requires start + 12 <= |data|
    ensures f == ReadFields(data, start, seed)
  {
    hide Get, State, SizeKey, FlagKey, TreeSizeKey, Gf32.Mul, Xor, Add, ToNat;
    var state := State(seed);
    var size := Gf32.MulFixed(Get(data, start));
    var flags := Gf32.MulFixed(Get(data, start + 4));
    var treeSize := Gf32.MulFixed(Get(data, start + 8));
    f := Fields(Add(size, SizeKey(state)), Xor(flags, FlagKey(state)), ToNat(Add(treeSize, TreeSizeKey(state))));
  }

  method TreeOf(enc: seq<bv8>, state: bv32) returns (tree: seq<bv8>)
    ensures tree == DecodeTree(enc, state)
  {
    hide Decoded, AddBytes;
    var t := CopyOf(enc);
    DecodeTreeWords(t);
    AdjustTree(t, state);
    tree := t[..];
  }

  method SegmentsOf(enc: seq<bv8>, state: bv32, start: nat, len: nat) returns (r: Option<seq<Segment>>)
    ensures r == if SegmentsFit(ReadSegments(enc, state), start, len) then Some(ReadSegments(enc, state)) else None
  {
    hide Decoded, SegmentsFit, ReadTable;
    var t := CopyOf(enc);
    DecodeTableWords(t, state);
    r := CollectSegments(t[..], t.Length / 8, start, len);
  }

  /** The header at `start`, or the error of the first check that fails. */
  method ParseHeader(data: seq<bv8>, start: nat, seed: bv32) returns (r: Result<Header, Error>)
    ensures r == Parse(data, start, seed)
  {
    hide SegmentsFit, ReadSegments, ReadFields, DecodeTree, State, Part, AlignUp4;
    if start + 12 > |data| {
      return Err(OutOfBounds);
    }
    var f := FieldsOf(data, start, seed);
    var count := Part(f.flags, 0) as nat;
    if count == 0 || f.treeSize > MAX_TREE {
      return Err(BadFields);
    }
    if start + 12 + f.treeSize > |data| {
      return Err(OutOfBounds);
    }
    var tree := TreeOf(data[start + 12..start + 12 + f.treeSize], State(seed));
    var at := start + AlignUp4(12 + f.treeSize);
    if at + 8 * count > |data| {
      return Err(OutOfBounds);
    }
    var segments := SegmentsOf(data[at..at + 8 * count], State(seed), start, |data|);
    if segments.None? {
      return Err(BadSegment);
    }
    r := Ok(Header(start, f.outputSize, Part(f.flags, 1) == 1, tree, segments.value));
  }
}
