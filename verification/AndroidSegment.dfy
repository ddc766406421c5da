/**
 Segments of the Android protector's container: the word transform with its
 running registers, optionally followed by AES-256-CBC. The block cipher under
 its key is any function on 16-byte blocks.
 */
module AndroidSegment {
  import opened Words
  import opened Wrappers
  import opened AndroidContainer
  import Cbc

  /** What a segment decodes to. */
  function Transformed(data: seq<bv8>, seed: bv32, decrypt: Cbc.Cipher, aes: bool): (r: seq<bv8>)
    requires Cbc.OnBlocks(decrypt)
    ensures |r| == |data|
  {
    var words := Decoded(SegmentWords(seed), data, |data| / 4);
    if aes then Cbc.Decrypted(decrypt, words, 0, |words| / Cbc.BLOCK) else words
  }

  function Protected(plain: seq<bv8>, seed: bv32, encrypt: Cbc.Cipher, aes: bool): (r: seq<bv8>)
    requires Cbc.OnBlocks(encrypt)
    ensures |r| == |plain|
  {
    var blocks := if aes then Cbc.Encrypted(encrypt, plain, 0, |plain| / Cbc.BLOCK) else plain;
    Encoded(SegmentWords(seed), blocks, |blocks| / 4)
  }

  /** Every whole word is decoded on its own, and a tail of under four bytes stays. */
  ghost predicate WordsDecoded(data: seq<bv8>, seed: bv32, words: seq<bv8>) {
    && |words| == |data|
    && (forall k: nat :: k < |data| / 4 ==> Get(words, 4 * k) == DecodeWord(SegmentWords(seed), k, Get(data, 4 * k)))
    && (forall i :: |data| / 4 * 4 <= i < |data| ==> words[i] == data[i])
  }

  /** Byte `k` of block `j` is decrypted and, but for the first block, added to the byte a block earlier. */
  ghost predicate ChainedAt(decrypt: Cbc.Cipher, words: seq<bv8>, r: seq<bv8>, j: nat, k: nat)
    requires k < 16 && 16 * (j + 1) <= |words| && |r| == |words| && Cbc.OnBlocks(decrypt)
  {
    var b := decrypt(words[16 * j..16 * (j + 1)])[k];
    r[16 * j + k] == if j == 0 then b else b ^ words[16 * (j - 1) + k]
  }

  /** Block chaining over all whole blocks; a tail of under 16 bytes stays. */
  ghost predicate BlocksChained(decrypt: Cbc.Cipher, words: seq<bv8>, r: seq<bv8>)
    requires Cbc.OnBlocks(decrypt)
  {
    && |r| == |words|
    && (forall j: nat, k: nat :: j < |words| / 16 && k < 16 ==> ChainedAt(decrypt, words, r, j, k))
    && (forall i :: |words| / 16 * 16 <= i < |words| ==> r[i] == words[i])
  }

  /** What a segment decodes to: its words decoded, and then, if AES is on, its blocks chained. */
  lemma TransformIs(data: seq<bv8>, seed: bv32, decrypt: Cbc.Cipher, aes: bool)
    requires Cbc.OnBlocks(decrypt)
    ensures var words := Transformed(data, seed, decrypt, false); var r := Transformed(data, seed, decrypt, aes);
            WordsDecoded(data, seed, words) && if aes then BlocksChained(decrypt, words, r) else r == words
  {
    hide Get, DecodeWord, Decoded, Cbc.Decrypted, ChainedAt;
    DecodedWords(SegmentWords(seed), data, |data| / 4);
    if aes {
      BlocksAre(decrypt, Transformed(data, seed, decrypt, false));
    }
  }

  lemma BlocksAre(decrypt: Cbc.Cipher, words: seq<bv8>)
    requires Cbc.OnBlocks(decrypt)
    ensures BlocksChained(decrypt, words, Cbc.Decrypted(decrypt, words, 0, |words| / Cbc.BLOCK))
  {
    hide Cbc.Decrypted;
    var n := |words| / Cbc.BLOCK;
    Cbc.DecryptedBlocks(decrypt, words, 0, n);
    forall j: nat, k: nat | j < n && k < 16
      ensures ChainedAt(decrypt, words, Cbc.Decrypted(decrypt, words, 0, n), j, k)
    {
      Cbc.DecryptedBytes(decrypt, words, 0, n, j, k);
    }
  }

  /** The transform undoes the protector, for every seed, block cipher and length. */
  lemma SegmentRoundTrip(plain: seq<bv8>, seed: bv32, decrypt: Cbc.Cipher, encrypt: Cbc.Cipher, aes: bool)
    requires Cbc.OnBlocks(decrypt) && Cbc.OnBlocks(encrypt) && Cbc.Undoes(decrypt, encrypt)
    ensures Transformed(Protected(plain, seed, encrypt, aes), seed, decrypt, aes) == plain
  {
    hide Decoded, Encoded, Cbc.Decrypted, Cbc.Encrypted;
    var blocks := if aes then Cbc.Encrypted(encrypt, plain, 0, |plain| / Cbc.BLOCK) else plain;
    WordsInvert(SegmentWords(seed), blocks);
    if aes {
      Cbc.RoundTrip(decrypt, encrypt, plain, 0, |plain| / Cbc.BLOCK);
    }
  }

  /** Undo the word transform of the first `n` words in place; a word index must fit 32 bits. */
  method DecodeWords(d: array<bv8>, n: nat, seed: bv32) returns (ok: bool)
    requires 4 * n <= d.Length
    modifies d
    ensures ok <==> n <= 0x1_0000_0000
    ensures ok ==> d[..] == Decoded(SegmentWords(seed), old(d[..]), n)
  {
    hide Get, Put, DecodeWord, Advance;
    ghost var data := d[..];
    var r := Registers(0xE34E_AC63, 0x07B4_8238, seed);
    for i := 0 to n
      invariant d[..] == Decoded(SegmentWords(seed), data, i)
      invariant r == RegistersAt(seed, i)
      invariant i <= 0x1_0000_0000
    {
      if i >= 0x1_0000_0000 {
        return false;
      }
      r := Advance(r, i);
      var w := ReadWord(d, 4 * i);
      DecodedWords(SegmentWords(seed), data, i);
      SameWord(d[..], data, 4 * i);
      SegmentStep(seed, i, w);
      WriteWord(d, 4 * i, Xor(Sub(Xor(Add(w, SegmentAdd(i)), SegmentXor(i)), r.state), r.state));
    }
    ok := true;
  }

  lemma SegmentStep(seed: bv32, i: nat, w: bv32)
    ensures var s := Advance(RegistersAt(seed, i), i).state;
            DecodeWord(SegmentWords(seed), i, w) == Xor(Sub(Xor(Add(w, SegmentAdd(i)), SegmentXor(i)), s), s)
  {
    hide Xor, Sub, Add, Advance;
    assert RegistersAt(seed, i + 1) == Advance(RegistersAt(seed, i), i);
  }

  /** Decrypt `n` blocks in place, keeping each ciphertext block for the next one. */
  method DecryptBlocks(d: array<bv8>, n: nat, decrypt: Cbc.Cipher)
    requires Cbc.BLOCK * n <= d.Length && Cbc.OnBlocks(decrypt)
    modifies d
    ensures d[..] == Cbc.Decrypted(decrypt, old(d[..]), 0, n)
  {
    hide Cbc.XorBytes, Cbc.Previous, Cbc.BlockAt;
    ghost var data := d[..];
    var previous := Cbc.Zero();
    First(data);
    for i := 0 to n
      invariant d[..] == Cbc.Decrypted(decrypt, data, 0, i)
      invariant previous == Cbc.Previous(data, 0, i)
    {
      StillCiphertext(decrypt, data, i);
      var ciphertext := d[Cbc.BLOCK * i..Cbc.BLOCK * (i + 1)];
      WriteBlock(d, i, Cbc.XorBytes(decrypt(ciphertext), previous));
      previous := ciphertext;
    }
  }

  lemma First(data: seq<bv8>)
    ensures Cbc.Previous(data, 0, 0) == Cbc.Zero()
  {
  }

  /** Block `i` is read before anything in it is overwritten, and is what the next block needs. */
  lemma StillCiphertext(decrypt: Cbc.Cipher, data: seq<bv8>, i: nat)
    requires Cbc.BLOCK * (i + 1) <= |data| && Cbc.OnBlocks(decrypt)
    ensures Cbc.Decrypted(decrypt, data, 0, i)[Cbc.BLOCK * i..Cbc.BLOCK * (i + 1)] == Cbc.BlockAt(data, 0, i)
    ensures Cbc.Previous(data, 0, i + 1) == Cbc.BlockAt(data, 0, i)
  {
    hide Cbc.XorBytes, Cbc.Decrypted;
    Cbc.DecryptedBlocks(decrypt, data, 0, i);
  }

  method WriteBlock(d: array<bv8>, i: nat, b: seq<bv8>)
    requires Cbc.BLOCK * (i + 1) <= d.Length && |b| == Cbc.BLOCK
    modifies d
    ensures d[..] == Cbc.PutBlock(old(d[..]), 0, i, b)
  {
    var at := Cbc.BLOCK * i;
    forall k | 0 <= k < Cbc.BLOCK {
      d[at + k] := b[k];
    }
    assert d[..] == Cbc.PutBlock(old(d[..]), 0, i, b);
  }

  /** A segment with more than 2^32 words is refused; every other one is transformed. */
  method TransformSegment(data: seq<bv8>, seed: bv32, decrypt: Cbc.Cipher, aes: bool)
    returns (r: Result<seq<bv8>, Error>)
    requires Cbc.OnBlocks(decrypt)
    ensures r == if |data| / 4 > 0x1_0000_0000 then Err(BadSegment) else Ok(Transformed(data, seed, decrypt, aes))
  {
    hide Decoded, Cbc.Decrypted;
    var d := CopyOf(data);
    var ok := DecodeWords(d, |data| / 4, seed);
    if !ok {
      return Err(BadSegment);
    }
    if aes {
      DecryptBlocks(d, |data| / Cbc.BLOCK, decrypt);
    }
    r := Ok(d[..]);
  }
}
