/**
 The word ciphers of the Windows payload: two whose key takes in each
 ciphertext word, and one whose key depends on the position alone.
 */
module FeedbackCiphers {
  import opened Words

  // ----- Ciphertext feedback -----

  /** The two recurrences differ in the sign of the word index. */
  datatype Feedback = Prefix | Info

  function NextKey(f: Feedback, key: bv32, cell: bv32, i: nat): bv32 {
    var n := OfNat(i);
    Xor(n * n, if f.Prefix? then Add(Add(key, cell), n) else Sub(Add(key, cell), n))
  }

  /** One key of each recurrence, worked out. */
  lemma NextKeyExample()
    ensures NextKey(Prefix, 0x24F9_9AD4, 0x0102_0304, 5) == 0x25FB_9DC4
    ensures NextKey(Info, 0x24F9_9AD4, 0x0102_0304, 5) == 0x25FB_9DCA
  {
    hide OfNat;
    SmallWord(5, 5);
  }

  /** Words of plaintext from words of ciphertext; `i` is the index of the first. */
  function DecodeCells(f: Feedback, cells: seq<bv32>, key: bv32, i: nat): (plain: seq<bv32>)
    ensures |plain| == |cells|
  {
    if cells == [] then []
    else [Xor(key, cells[0])] + DecodeCells(f, cells[1..], NextKey(f, key, cells[0], i), i + 1)
  }

  function EncodeCells(f: Feedback, plain: seq<bv32>, key: bv32, i: nat): (cells: seq<bv32>)
    ensures |cells| == |plain|
  {
    if plain == [] then []
    else
      var cell := Xor(plain[0], key);
      [cell] + EncodeCells(f, plain[1..], NextKey(f, key, cell, i), i + 1)
  }

  /** Decoding undoes encoding and encoding undoes decoding, for every key and number of words. */
  lemma {:induction false} CellsRoundTrip(f: Feedback, words: seq<bv32>, key: bv32, i: nat)
    ensures DecodeCells(f, EncodeCells(f, words, key, i), key, i) == words
    ensures EncodeCells(f, DecodeCells(f, words, key, i), key, i) == words
    decreases |words|
  {
    hide Xor, NextKey;
    if words != [] {
      var cell := Xor(words[0], key);
      XorTwice(words[0], key);
      XorLaws(key, cell, 0);
      CellsRoundTrip(f, words[1..], NextKey(f, key, cell, i), i + 1);
      assert EncodeCells(f, words, key, i)[1..] == EncodeCells(f, words[1..], NextKey(f, key, cell, i), i + 1);
      var plain := Xor(key, words[0]);
      XorLaws(plain, key, 0);
      XorTwice(key, words[0]);
      XorLaws(key, words[0], 0);
      CellsRoundTrip(f, words[1..], NextKey(f, key, words[0], i), i + 1);
      assert DecodeCells(f, words, key, i)[1..] == DecodeCells(f, words[1..], NextKey(f, key, words[0], i), i + 1);
    }
  }

  /** The key after the first `n` cells. */
  function KeyFrom(f: Feedback, cells: seq<bv32>, key: bv32, i: nat, n: nat): bv32
    requires n <= |cells|
  {
    if n == 0 then key else NextKey(f, KeyFrom(f, cells, key, i, n - 1), cells[n - 1], i + n - 1)
  }

  lemma {:induction false} KeyFromTail(f: Feedback, cells: seq<bv32>, key: bv32, i: nat, n: nat)
    requires 0 < n <= |cells|
    ensures KeyFrom(f, cells, key, i, n) == KeyFrom(f, cells[1..], NextKey(f, key, cells[0], i), i + 1, n - 1)
  {
    hide NextKey;
    if n > 1 {
      KeyFromTail(f, cells, key, i, n - 1);
    }
  }

  /** Word `k` of the plaintext is its cell under the key that the cells before it leave. */
  lemma {:induction false} DecodedCell(f: Feedback, cells: seq<bv32>, key: bv32, i: nat, k: nat)
    requires k < |cells|
    ensures DecodeCells(f, cells, key, i)[k] == Xor(KeyFrom(f, cells, key, i, k), cells[k])
    decreases k
  {
    hide Xor, NextKey;
    if k > 0 {
      KeyFromTail(f, cells, key, i, k);
      DecodedCell(f, cells[1..], NextKey(f, key, cells[0], i), i + 1, k - 1);
    }
  }

  // ----- In memory -----

  /** The `n` words stored at `o`. */
  function CellsAt(d: seq<bv8>, o: nat, n: nat): (cells: seq<bv32>)
    requires n > 0 ==> o + 4 * n <= |d|
    ensures |cells| == n
  {
    seq(n, i requires 0 <= i < n => Get(d, o + 4 * i))
  }

  /** `d` with the words `w` written at `o`. */
  function PutCells(d: seq<bv8>, o: nat, w: seq<bv32>): (r: seq<bv8>)
    requires w != [] ==> o + 4 * |w| <= |d|
    ensures |r| == |d|
    decreases |w|
  {
    if w == [] then d else Put(PutCells(d, o, w[..|w| - 1]), o + 4 * (|w| - 1), w[|w| - 1])
  }

  lemma PutNext(d: seq<bv8>, o: nat, w: seq<bv32>, i: nat)
    requires o + 4 * |w| <= |d| && i < |w|
    ensures PutCells(d, o, w[..i + 1]) == Put(PutCells(d, o, w[..i]), o + 4 * i, w[i])
  {
    hide Put;
    assert w[..i + 1][..i] == w[..i];
  }

  /** The written words can be read back and nothing else changes. */
  lemma {:induction false} PutCellsHolds(d: seq<bv8>, o: nat, w: seq<bv32>)
    requires o + 4 * |w| <= |d|
    ensures CellsAt(PutCells(d, o, w), o, |w|) == w
    ensures forall i :: 0 <= i < |d| && !(o <= i < o + 4 * |w|) ==> PutCells(d, o, w)[i] == d[i]
    decreases |w|
  {
    hide Get, Bytes4;
    if w != [] {
      var n := |w| - 1;
      PutCellsHolds(d, o, w[..n]);
      var before := PutCells(d, o, w[..n]);
      GetPut(before, o + 4 * n, w[n]);
      var after := PutCells(d, o, w);
      forall i | 0 <= i < |w|
        ensures CellsAt(after, o, |w|)[i] == w[i]
      {
        if i < n {
          assert CellsAt(before, o, n)[i] == w[..n][i];
        }
      }
    }
  }

  /**
   Decode `size / 4` words of `input` into `dst`. The first key is the given
   one plus the complement of the size; a tail of under four bytes is not
   decoded.
   */
  method DecodePayloadPrefix(input: seq<bv8>, source: nat, dst: array<bv8>, at: nat, key0: bv32, size: nat)
    requires size < 0x1_0000_0000
    requires size >= 4 ==> source + 4 * (size / 4) <= |input| && at + 4 * (size / 4) <= dst.Length
    modifies dst
    ensures dst[..]
            == PutCells(old(dst[..]), at,
                        DecodeCells(Prefix, CellsAt(input, source, size / 4), Add(key0, OfNat(0xFFFF_FFFF - size)), 0))
  {
    hide Xor, Add, NextKey, Get, Put, OfNat, DecodeCells;
    var first := Add(key0, OfNat(0xFFFF_FFFF - size));
    var key := first;
    var n := size / 4;
    ghost var cells := CellsAt(input, source, n);
    ghost var plain := DecodeCells(Prefix, cells, first, 0);
    ghost var before := dst[..];
    for i := 0 to n
      invariant key == KeyFrom(Prefix, cells, first, 0, i)
      invariant dst[..] == PutCells(before, at, plain[..i])
    {
      var cell := Get(input, source + 4 * i);
      DecodedCell(Prefix, cells, first, 0, i);
      PutNext(before, at, plain, i);
      WriteWord(dst, at + 4 * i, Xor(key, cell));
      key := NextKey(Prefix, key, cell, i);
    }
    assert plain[..n] == plain;
  }

  /** A payload encoded into the file decodes to its plaintext. */
  lemma PayloadRoundTrip(file: seq<bv8>, source: nat, plain: seq<bv32>, key: bv32)
    requires source + 4 * |plain| <= |file|
    ensures DecodeCells(Prefix, CellsAt(PutCells(file, source, EncodeCells(Prefix, plain, key, 0)), source, |plain|),
                        key, 0) == plain
  {
    hide PutCells, CellsAt, DecodeCells, EncodeCells;
    CellsRoundTrip(Prefix, plain, key, 0);
    PutCellsHolds(file, source, EncodeCells(Prefix, plain, key, 0));
  }

  /** The eight words of the information header: the first is the key of the others. */
  function InfoWords(cells: seq<bv32>): (info: seq<bv32>)
    requires |cells| == 8
    ensures |info| == 8
  {
    [cells[0]] + DecodeCells(Info, cells[1..], cells[0], 0)
  }

  function InfoCells(info: seq<bv32>): (cells: seq<bv32>)
    requires |info| == 8
    ensures |cells| == 8
  {
    [info[0]] + EncodeCells(Info, info[1..], info[0], 0)
  }

  lemma InfoRoundTrip(words: seq<bv32>)
    requires |words| == 8
    ensures InfoWords(InfoCells(words)) == words && InfoCells(InfoWords(words)) == words
  {
    hide EncodeCells, DecodeCells;
    CellsRoundTrip(Info, words[1..], words[0], 0);
    assert InfoCells(words)[1..] == EncodeCells(Info, words[1..], words[0], 0);
    assert InfoWords(words)[1..] == DecodeCells(Info, words[1..], words[0], 0);
  }

  const INFO_AT: nat := 4096

  method DecryptData1(file: seq<bv8>) returns (info: array<bv32>)
    requires INFO_AT + 32 <= |file|
    ensures fresh(info) && info[..] == InfoWords(CellsAt(file, INFO_AT, 8))
  {
    hide Xor, NextKey, Get;
    ghost var all := CellsAt(file, INFO_AT, 8);
    ghost var cells := all[1..];
    ghost var plain := DecodeCells(Info, cells, all[0], 0);
    info := new bv32[8];
    info[0] := Get(file, INFO_AT);
    var k := Get(file, INFO_AT);
    for i := 0 to 7
      invariant k == KeyFrom(Info, cells, all[0], 0, i)
      invariant info[0] == all[0] && forall j :: 0 <= j < i ==> info[j + 1] == plain[j]
    {
      var cell := Get(file, INFO_AT + (4 * i + 4));
      assert cell == all[i + 1] == cells[i];
      DecodedCell(Info, cells, all[0], 0, i);
      info[i + 1] := Xor(k, cell);
      k := NextKey(Info, k, cell, i);
    }
    assert info[..] == [all[0]] + plain;
  }

  // ----- A key that depends on the position alone -----

  function RotateRight1(w: bv32): bv32 {
    (w >> 1) | (w << 31)
  }

  function RotateLeft1(w: bv32): bv32 {
    (w << 1) | (w >> 31)
  }

  lemma RotationsInvert(w: bv32)
    ensures RotateLeft1(RotateRight1(w)) == w && RotateRight1(RotateLeft1(w)) == w
  {
  }

  function RotateRight(w: bv32, n: nat): bv32
    decreases n
  {
    if n == 0 then w else RotateRight(RotateRight1(w), n - 1)
  }

  function RotateLeft(w: bv32, n: nat): bv32 {
    if n == 0 then w else RotateLeft1(RotateLeft(w, n - 1))
  }

  lemma {:induction false} RotateInverts(w: bv32, n: nat)
    ensures RotateLeft(RotateRight(w, n), n) == w
    ensures RotateRight(RotateLeft(w, n), n) == w
    decreases n
  {
    hide RotateRight1, RotateLeft1;
    if n > 0 {
      RotateInverts(RotateRight1(w), n - 1);
      RotationsInvert(w);
      RotateInverts(w, n - 1);
      RotationsInvert(RotateLeft(w, n - 1));
    }
  }

  /** The key of word `i`: each word adds its index. */
  function PositionKey(key: bv32, i: nat): bv32 {
    if i == 0 then key else Add(PositionKey(key, i - 1), OfNat(i - 1))
  }

  function DecodeWord(w: bv32, key: bv32, shift: nat, i: nat): bv32 {
    Sub(RotateRight(Xor(w, PositionKey(key, i)), shift % 32), OfNat(i))
  }

  function EncodeWord(w: bv32, key: bv32, shift: nat, i: nat): bv32 {
    Xor(RotateLeft(Add(w, OfNat(i)), shift % 32), PositionKey(key, i))
  }

  lemma WordInverts(w: bv32, key: bv32, shift: nat, i: nat)
    ensures EncodeWord(DecodeWord(w, key, shift, i), key, shift, i) == w
    ensures DecodeWord(EncodeWord(w, key, shift, i), key, shift, i) == w
  {
    hide Xor, Add, Sub, RotateLeft, RotateRight, PositionKey, OfNat;
    var k := PositionKey(key, i);
    var x := Xor(w, k);
    AddSub(RotateRight(x, shift % 32), OfNat(i));
    RotateInverts(x, shift % 32);
    XorTwice(w, k);
    var y := Add(w, OfNat(i));
    XorTwice(RotateLeft(y, shift % 32), k);
    RotateInverts(y, shift % 32);
    AddSub(w, OfNat(i));
  }

  /** The key and the plaintext of one word, worked out; the rotation counts modulo 32. */
  lemma PositionExample()
    ensures PositionKey(0x24F9_9AD4, 4) == 0x24F9_9ADA
    ensures DecodeWord(0x0102_0304, 0x24F9_9AD4, 34, 4) == 0x897E_E673
  {
    hide OfNat, RotateRight1;
    SmallWord(0, 0);
    SmallWord(1, 1);
    SmallWord(2, 2);
    SmallWord(3, 3);
    SmallWord(4, 4);
    assert PositionKey(0x24F9_9AD4, 2) == 0x24F9_9AD5;
    assert PositionKey(0x24F9_9AD4, 3) == 0x24F9_9AD7;
    RotatedTwice();
  }

  lemma RotatedTwice()
    ensures RotateRight(0x0102_0304 ^ 0x24F9_9ADA, 2) == 0x897E_E673 + 4
  {
    assert RotateRight(RotateRight1(RotateRight1(0x0102_0304 ^ 0x24F9_9ADA)), 0) == 0x897E_E673 + 4;
  }

  function DecodeWords(w: seq<bv32>, key: bv32, shift: nat): (r: seq<bv32>)
    ensures |r| == |w|
  {
    seq(|w|, i requires 0 <= i < |w| => DecodeWord(w[i], key, shift, i))
  }

  function EncodeWords(w: seq<bv32>, key: bv32, shift: nat): (r: seq<bv32>)
    ensures |r| == |w|
  {
    seq(|w|, i requires 0 <= i < |w| => EncodeWord(w[i], key, shift, i))
  }

  /** A region of words with the position cipher applied. */
  function Data3(d: seq<bv8>, base: nat, n: nat, key: bv32, shift: nat): (r: seq<bv8>)
    requires n > 0 ==> base + 4 * n <= |d|
    ensures |r| == |d|
  {
    PutCells(d, base, DecodeWords(CellsAt(d, base, n), key, shift))
  }

  function UnData3(d: seq<bv8>, base: nat, n: nat, key: bv32, shift: nat): (r: seq<bv8>)
    requires n > 0 ==> base + 4 * n <= |d|
    ensures |r| == |d|
  {
    PutCells(d, base, EncodeWords(CellsAt(d, base, n), key, shift))
  }

  /** The position cipher is a bijection of its region, for every key and rotation, and touches nothing else. */
  lemma Data3IsBijective(d: seq<bv8>, base: nat, n: nat, key: bv32, shift: nat)
    requires n > 0 ==> base + 4 * n <= |d|
    ensures UnData3(Data3(d, base, n, key, shift), base, n, key, shift) == d
    ensures Data3(UnData3(d, base, n, key, shift), base, n, key, shift) == d
    ensures forall i :: 0 <= i < |d| && !(base <= i < base + 4 * n) ==> Data3(d, base, n, key, shift)[i] == d[i]
  {
    hide DecodeWord, EncodeWord, PutCells, CellsAt;
    if n == 0 {
      NoCells(d, base, key, shift);
      return;
    }
    var w := CellsAt(d, base, n);
    WordsInvert(w, key, shift);
    PutCellsHolds(d, base, DecodeWords(w, key, shift));
    PutCellsHolds(d, base, EncodeWords(w, key, shift));
    PutBack(d, base, n, DecodeWords(w, key, shift));
    PutBack(d, base, n, EncodeWords(w, key, shift));
  }

  lemma NoCells(d: seq<bv8>, base: nat, key: bv32, shift: nat)
    ensures Data3(d, base, 0, key, shift) == d && UnData3(d, base, 0, key, shift) == d
  {
  }

  lemma WordsInvert(w: seq<bv32>, key: bv32, shift: nat)
    ensures EncodeWords(DecodeWords(w, key, shift), key, shift) == w
    ensures DecodeWords(EncodeWords(w, key, shift), key, shift) == w
  {
    hide DecodeWord, EncodeWord;
    forall i | 0 <= i < |w|
      ensures EncodeWord(DecodeWord(w[i], key, shift, i), key, shift, i) == w[i]
      ensures DecodeWord(EncodeWord(w[i], key, shift, i), key, shift, i) == w[i]
    {
      WordInverts(w[i], key, shift, i);
    }
  }

  /** Writing the words first read gives the string back, whatever was written in between. */
  lemma PutBack(d: seq<bv8>, base: nat, n: nat, w: seq<bv32>)
    requires base + 4 * n <= |d| && |w| == n
    ensures PutCells(PutCells(d, base, w), base, CellsAt(d, base, n)) == d
  {
    hide PutCells, Get;
    var c := PutCells(d, base, w);
    var r := PutCells(c, base, CellsAt(d, base, n));
    PutCellsHolds(d, base, w);
    PutCellsHolds(c, base, CellsAt(d, base, n));
    forall i: nat | i < n
      ensures Get(r, base + 4 * i) == Get(d, base + 4 * i)
    {
      assert CellsAt(r, base, n)[i] == CellsAt(d, base, n)[i];
    }
    SameWordsAt(r, d, base, n);
  }

  lemma SameWordsAt(a: seq<bv8>, b: seq<bv8>, base: nat, n: nat)
    requires |a| == |b| && base + 4 * n <= |a|
    requires forall k: nat :: k < n ==> Get(a, base + 4 * k) == Get(b, base + 4 * k)
    requires forall i :: 0 <= i < |a| && !(base <= i < base + 4 * n) ==> a[i] == b[i]
    ensures a == b
  {
    hide Get;
    var x, y := a[base..], b[base..];
    forall k: nat | k < n
      ensures Get(x, 4 * k) == Get(y, 4 * k)
    {
      assert Get(a, base + 4 * k) == Get(b, base + 4 * k);
      GetInTail(a, base, 4 * k);
      GetInTail(b, base, 4 * k);
    }
    SameWords(x, y, n);
    forall i | 0 <= i < |a|
      ensures a[i] == b[i]
    {
      if i >= base {
        assert a[i] == x[i - base] && b[i] == y[i - base];
      }
    }
  }

  lemma GetInTail(a: seq<bv8>, base: nat, o: nat)
    requires base + o + 4 <= |a|
    ensures Get(a[base..], o) == Get(a, base + o)
  {
    hide Join;
  }

  /** The words left to decode are still what they were. */
  lemma CellLeft(d: seq<bv8>, base: nat, w: seq<bv32>, o: nat)
    requires base + 4 * |w| <= o && o + 4 <= |d|
    ensures Get(PutCells(d, base, w), o) == Get(d, o)
  {
    hide Get, PutCells;
    PutCellsHolds(d, base, w);
    SameWord(PutCells(d, base, w), d, o);
  }

  /** The region is named by a stored address and length; a length below four names no word. */
  method DecryptData3(d: array<bv8>, pos: nat, key: bv32, shift: nat)
    requires pos + 8 <= d.Length
    requires ToNat(Get(d[..], pos + 4)) >= 4 ==>
               ToNat(Get(d[..], pos)) + 4 * (ToNat(Get(d[..], pos + 4)) / 4) <= d.Length
    modifies d
    ensures d[..] == Data3(old(d[..]), ToNat(old(Get(d[..], pos))), ToNat(old(Get(d[..], pos + 4))) / 4, key, shift)
  {
    hide Get, ToNat, Data3;
    DecodeRegion(d, ToNat(Get(d[..], pos)), ToNat(Get(d[..], pos + 4)) / 4, key, shift);
  }

  method DecodeRegion(d: array<bv8>, base: nat, n: nat, key: bv32, shift: nat)
    requires n > 0 ==> base + 4 * n <= d.Length
    modifies d
    ensures d[..] == Data3(old(d[..]), base, n, key, shift)
  {
    hide Xor, Add, Sub, Get, Put, OfNat, RotateRight, PositionKey, DecodeWord;
    ghost var before := d[..];
    ghost var plain := DecodeWords(CellsAt(before, base, n), key, shift);
    var k := key;
    StartKey(key);
    for i := 0 to n
      invariant k == PositionKey(key, i)
      invariant d[..] == PutCells(before, base, plain[..i])
    {
      CellLeft(before, base, plain[..i], base + 4 * i);
      var w := Get(d[..], base + 4 * i);
      PutNext(before, base, plain, i);
      var v := Xor(w, k);
      WordSteps(w, key, shift, i);
      k := Add(k, OfNat(i));
      WriteWord(d, base + 4 * i, Sub(RotateRight(v, shift % 32), OfNat(i)));
    }
    assert plain[..n] == plain;
  }

  lemma StartKey(key: bv32)
    ensures PositionKey(key, 0) == key
  {
  }

  lemma WordSteps(w: bv32, key: bv32, shift: nat, i: nat)
    ensures DecodeWord(w, key, shift, i) == Sub(RotateRight(Xor(w, PositionKey(key, i)), shift % 32), OfNat(i))
    ensures PositionKey(key, i + 1) == Add(PositionKey(key, i), OfNat(i))
  {
    hide Xor, Add, Sub, OfNat, RotateRight;
  }
}
