/**
 AES decryption of a region of the image, with the round keys read from the
 image itself or from a snapshot of them.
 */
module AesChain {
  import opened Words
  import opened Wrappers
  import opened AesTables
  import opened Aes
  import opened AesBlocks
  import Cbc

  /** The stored schedule is a bit count, a round count, and the round keys. */
  function RoundCount(k: seq<bv8>, o: nat): nat
    requires o + 4 <= |k|
  {
    k[o + 2] as nat + 0x100 * k[o + 3] as nat
  }

  function ScheduleEnd(o: nat, rounds: nat): nat {
    o + 4 + 16 * (rounds + 1)
  }

  /**
   The image after `n` blocks at `pos`: each is decrypted under the round keys
   as they are in the image at that time, and added to the ciphertext before it.
   */
  function Chained(d: seq<bv8>, pos: nat, o: nat, rounds: nat, n: nat): (r: seq<bv8>)
    requires n > 0 ==> pos + Cbc.BLOCK * n <= |d| && ScheduleEnd(o, rounds) <= |d|
    ensures |r| == |d|
  {
    if n == 0 then d
    else
      var c := Chained(d, pos, o, rounds, n - 1);
      var b := Decryption(Keys(c, o + 4, rounds))(Cbc.BlockAt(d, pos, n - 1));
      Cbc.PutBlock(c, pos, n - 1, Cbc.XorBytes(b, Cbc.Previous(d, pos, n - 1)))
  }

  lemma {:induction false} ChainedFrame(d: seq<bv8>, pos: nat, o: nat, rounds: nat, n: nat)
    requires n > 0 ==> pos + Cbc.BLOCK * n <= |d| && ScheduleEnd(o, rounds) <= |d|
    ensures forall i :: 0 <= i < |d| && !(pos <= i < pos + Cbc.BLOCK * n) ==> Chained(d, pos, o, rounds, n)[i] == d[i]
  {
    hide Cbc.XorBytes, Cbc.Previous, Decryption, Keys;
    if n > 0 {
      ChainedFrame(d, pos, o, rounds, n - 1);
    }
  }

  /** Equal bytes hold equal round keys. */
  lemma SameKeys(c: seq<bv8>, d: seq<bv8>, o: nat, p: nat, rounds: nat)
    requires o + 16 * (rounds + 1) <= |c| && p + 16 * (rounds + 1) <= |d|
    requires c[o..o + 16 * (rounds + 1)] == d[p..p + 16 * (rounds + 1)]
    ensures Keys(c, o, rounds) == Keys(d, p, rounds)
  {
    hide RoundKey;
    forall i | 0 <= i <= rounds
      ensures RoundKey(c, o + 16 * i) == RoundKey(d, p + 16 * i)
    {
      SubSlice(c, d, o, p, 16 * (rounds + 1), 16 * i, 16);
      SameRoundKey(c, d, o + 16 * i, p + 16 * i);
    }
  }

  lemma SubSlice(c: seq<bv8>, d: seq<bv8>, o: nat, p: nat, n: nat, a: nat, m: nat)
    requires o + n <= |c| && p + n <= |d| && c[o..o + n] == d[p..p + n] && a + m <= n
    ensures c[o + a..o + a + m] == d[p + a..p + a + m]
  {
    SliceOfSlice(c, o, n, a, m);
    SliceOfSlice(d, p, n, a, m);
  }

  lemma SliceOfSlice(c: seq<bv8>, o: nat, n: nat, a: nat, m: nat)
    requires o + n <= |c| && a + m <= n
    ensures c[o..o + n][a..a + m] == c[o + a..o + a + m]
  {
    var x, y := c[o..o + n][a..a + m], c[o + a..o + a + m];
    forall i | 0 <= i < m
      ensures x[i] == y[i]
    {
    }
    assert x == y;
  }

  lemma SameRoundKey(c: seq<bv8>, d: seq<bv8>, o: nat, p: nat)
    requires o + 16 <= |c| && p + 16 <= |d| && c[o..o + 16] == d[p..p + 16]
    ensures RoundKey(c, o) == RoundKey(d, p)
  {
    hide ColumnOf, Get;
    SubSlice(c, d, o, p, 16, 0, 4);
    SubSlice(c, d, o, p, 16, 4, 4);
    SubSlice(c, d, o, p, 16, 8, 4);
    SubSlice(c, d, o, p, 16, 12, 4);
    SameGet(c, d, o, p);
    SameGet(c, d, o + 4, p + 4);
    SameGet(c, d, o + 8, p + 8);
    SameGet(c, d, o + 12, p + 12);
  }

  lemma SameGet(c: seq<bv8>, d: seq<bv8>, o: nat, p: nat)
    requires o + 4 <= |c| && p + 4 <= |d| && c[o..o + 4] == d[p..p + 4]
    ensures Get(c, o) == Get(d, p)
  {
    hide Join;
    var x, y := c[o..o + 4], d[p..p + 4];
    assert x[0] == y[0] && x[1] == y[1] && x[2] == y[2] && x[3] == y[3];
  }

  lemma SameRange(c: seq<bv8>, d: seq<bv8>, lo: nat, hi: nat)
    requires lo <= hi <= |c| == |d| && forall i :: lo <= i < hi ==> c[i] == d[i]
    ensures c[lo..hi] == d[lo..hi]
  {
  }

  /** Decrypting leaves alone a schedule that does not overlap the data, so this is plain block chaining. */
  lemma {:induction false} ChainedIsCbc(d: seq<bv8>, pos: nat, o: nat, rounds: nat, n: nat)
    requires pos + Cbc.BLOCK * n <= |d| && ScheduleEnd(o, rounds) <= |d|
    requires ScheduleEnd(o, rounds) <= pos || pos + Cbc.BLOCK * n <= o + 4
    ensures Cbc.OnBlocks(Decryption(Keys(d, o + 4, rounds)))
    ensures Chained(d, pos, o, rounds, n) == Cbc.Decrypted(Decryption(Keys(d, o + 4, rounds)), d, pos, n)
  {
    hide Cbc.XorBytes, Cbc.Previous, Cbc.PutBlock, Cbc.BlockAt, Decryption, Keys;
    DecryptionOnBlocks(Keys(d, o + 4, rounds));
    if n > 0 {
      ChainedIsCbc(d, pos, o, rounds, n - 1);
      ChainedFrame(d, pos, o, rounds, n - 1);
      var c := Chained(d, pos, o, rounds, n - 1);
      SameRange(c, d, o + 4, ScheduleEnd(o, rounds));
      SameKeys(c, d, o + 4, o + 4, rounds);
    }
  }

  lemma DecryptionOnBlocks(keys: seq<State>)
    requires |keys| >= 1
    ensures Cbc.OnBlocks(Decryption(keys))
  {
    hide InverseCipher;
  }

  // ----- The two loops -----

  /** Add `prev` to the block at `pos`. */
  method XorBlock(d: array<bv8>, pos: nat, prev: seq<bv8>)
    requires pos + Cbc.BLOCK <= d.Length && |prev| == Cbc.BLOCK
    modifies d
    ensures d[..] == Cbc.PutBlock(old(d[..]), pos, 0, Cbc.XorBytes(old(d[pos..pos + Cbc.BLOCK]), prev))
  {
    ghost var before := d[..];
    for j := 0 to Cbc.BLOCK
      invariant forall i :: 0 <= i < d.Length ==>
                d[i] == if pos <= i < pos + j then before[i] ^ prev[i - pos] else before[i]
    {
      d[pos + j] := d[pos + j] ^ prev[j];
    }
    XoredBlock(before, d[..], pos, prev);
  }

  lemma XoredBlock(before: seq<bv8>, after: seq<bv8>, pos: nat, prev: seq<bv8>)
    requires |before| == |after| && pos + Cbc.BLOCK <= |before| && |prev| == Cbc.BLOCK
    requires forall i :: 0 <= i < |before| ==>
             after[i] == if pos <= i < pos + Cbc.BLOCK then before[i] ^ prev[i - pos] else before[i]
    ensures after == Cbc.PutBlock(before, pos, 0, Cbc.XorBytes(before[pos..pos + Cbc.BLOCK], prev))
  {
  }

  lemma PutBlockTwice(d: seq<bv8>, pos: nat, i: nat, x: seq<bv8>, y: seq<bv8>)
    requires pos + Cbc.BLOCK * (i + 1) <= |d| && |x| == |y| == Cbc.BLOCK
    ensures Cbc.PutBlock(Cbc.PutBlock(d, pos + Cbc.BLOCK * i, 0, x), pos + Cbc.BLOCK * i, 0, y)
            == Cbc.PutBlock(d, pos, i, y)
    ensures Cbc.PutBlock(d, pos + Cbc.BLOCK * i, 0, x)[pos + Cbc.BLOCK * i..pos + Cbc.BLOCK * (i + 1)] == x
  {
  }

  /** Decrypt block `i` and add the ciphertext before it. */
  method ChainBlock(t: Tables, d: array<bv8>, pos: nat, i: nat, k: seq<bv8>, o: nat, rounds: nat, prev: seq<bv8>)
    requires Built(t) && pos + Cbc.BLOCK * (i + 1) <= d.Length && o + 16 * (rounds + 1) <= |k| && |prev| == Cbc.BLOCK
    modifies d
    ensures |Decryption(Keys(k, o, rounds))(Cbc.BlockAt(old(d[..]), pos, i))| == Cbc.BLOCK
    ensures d[..]
            == Cbc.PutBlock(old(d[..]), pos, i,
                            Cbc.XorBytes(Decryption(Keys(k, o, rounds))(Cbc.BlockAt(old(d[..]), pos, i)), prev))
  {
    hide Built, Keys, Decryption, Cbc.XorBytes, Cbc.PutBlock;
    ghost var before := d[..];
    var p := pos + Cbc.BLOCK * i;
    DecryptionOnBlocks(Keys(k, o, rounds));
    assert d[p..p + Cbc.BLOCK] == Cbc.BlockAt(before, pos, i);
    ghost var plain := Decryption(Keys(k, o, rounds))(Cbc.BlockAt(before, pos, i));
    AesRound(t, d, p, k, o, rounds);
    PutBlockTwice(before, pos, i, plain, Cbc.XorBytes(plain, prev));
    assert d[p..p + Cbc.BLOCK] == d[..][p..p + Cbc.BLOCK];
    XorBlock(d, p, prev);
  }

  lemma BlockUnchanged(d: seq<bv8>, c: seq<bv8>, pos: nat, i: nat)
    requires |c| == |d| && pos + Cbc.BLOCK * (i + 1) <= |d|
    requires forall k :: pos + Cbc.BLOCK * i <= k < |d| ==> c[k] == d[k]
    ensures Cbc.BlockAt(c, pos, i) == Cbc.BlockAt(d, pos, i)
  {
  }

  /** Decrypt `size / 16` blocks at `pos` with the schedule at `o` of the same buffer. */
  method AesDecrypt(t: Tables, d: array<bv8>, pos: nat, size: nat, o: nat)
    requires Built(t) && o + 4 <= d.Length
    requires size >= Cbc.BLOCK ==>
               pos + Cbc.BLOCK * (size / Cbc.BLOCK) <= d.Length && ScheduleEnd(o, RoundCount(d[..], o)) <= d.Length
    modifies d
    ensures d[..] == Chained(old(d[..]), pos, o, RoundCount(old(d[..]), o), size / Cbc.BLOCK)
  {
    hide Built, Keys, Decryption, Cbc.XorBytes, Cbc.PutBlock, Cbc.BlockAt, RoundCount;
    ghost var before := d[..];
    var rounds := RoundCount(d[..], o);
    var n := size / Cbc.BLOCK;
    var prev := Cbc.Zero();
    for i := 0 to n
      invariant d[..] == Chained(before, pos, o, rounds, i)
      invariant prev == Cbc.Previous(before, pos, i)
    {
      ChainedFrame(before, pos, o, rounds, i);
      BlockUnchanged(before, d[..], pos, i);
      var cur := Cbc.BlockAt(d[..], pos, i);
      ChainBlock(t, d, pos, i, d[..], o + 4, rounds, prev);
      prev := cur;
    }
  }

  /** The same with the schedule in a snapshot. */
  method AesDecryptKs(t: Tables, ks: seq<bv8>, d: array<bv8>, pos: nat, size: nat)
    requires Built(t) && |ks| >= 4
    requires size >= Cbc.BLOCK ==>
               pos + Cbc.BLOCK * (size / Cbc.BLOCK) <= d.Length && ScheduleEnd(0, RoundCount(ks, 0)) <= |ks|
    modifies d
    ensures size < Cbc.BLOCK ==> d[..] == old(d[..])
    ensures size >= Cbc.BLOCK ==>
              var decrypt := Decryption(Keys(ks, 4, RoundCount(ks, 0)));
              Cbc.OnBlocks(decrypt) && d[..] == Cbc.Decrypted(decrypt, old(d[..]), pos, size / Cbc.BLOCK)
  {
    hide Built, Keys, Decryption, Cbc.XorBytes, Cbc.PutBlock, Cbc.BlockAt, RoundCount;
    ghost var before := d[..];
    var rounds := RoundCount(ks, 0);
    var n := size / Cbc.BLOCK;
    if n == 0 {
      return;
    }
    ghost var decrypt := Decryption(Keys(ks, 4, rounds));
    DecryptionOnBlocks(Keys(ks, 4, rounds));
    var prev := Cbc.Zero();
    for i := 0 to n
      invariant d[..] == Cbc.Decrypted(decrypt, before, pos, i)
      invariant prev == Cbc.Previous(before, pos, i)
    {
      Cbc.DecryptedBlocks(decrypt, before, pos, i);
      BlockUnchanged(before, d[..], pos, i);
      var cur := Cbc.BlockAt(d[..], pos, i);
      ChainBlock(t, d, pos, i, ks, 4, rounds, prev);
      prev := cur;
    }
  }

  // ----- The snapshot -----

  const MAX_ROUNDS: nat := 64

  /** The schedule at `o` with its header, unless it is truncated or its round count is implausible. */
  method ScheduleSnapshot(d: seq<bv8>, o: nat) returns (ks: Option<seq<bv8>>)
    ensures ks.Some? <==> o + 4 <= |d| && RoundCount(d, o) <= MAX_ROUNDS && ScheduleEnd(o, RoundCount(d, o)) <= |d|
    ensures ks.Some? ==> SnapshotOf(ks.value, d, o)
  {
    if o + 3 >= |d| {
      return None;
    }
    var rounds := d[o + 2] as nat + 0x100 * d[o + 3] as nat;
    if rounds > MAX_ROUNDS || o + 4 + (rounds + 1) * 16 > |d| {
      return None;
    }
    ks := Some(d[o..o + 4 + (rounds + 1) * 16]);
  }

  predicate SnapshotOf(ks: seq<bv8>, d: seq<bv8>, o: nat) {
    && o + 4 <= |d| && ScheduleEnd(o, RoundCount(d, o)) <= |d|
    && ks == d[o..ScheduleEnd(o, RoundCount(d, o))]
  }

  lemma SnapshotCount(ks: seq<bv8>, d: seq<bv8>, o: nat)
    requires SnapshotOf(ks, d, o)
    ensures |ks| == ScheduleEnd(0, RoundCount(d, o)) && RoundCount(ks, 0) == RoundCount(d, o)
  {
    assert ks[2] == d[o + 2] && ks[3] == d[o + 3];
  }

  lemma SameKeysInCopy(ks: seq<bv8>, d: seq<bv8>, o: nat, rounds: nat)
    requires ScheduleEnd(o, rounds) <= |d| && ks == d[o..ScheduleEnd(o, rounds)]
    ensures Keys(ks, 4, rounds) == Keys(d, o + 4, rounds)
  {
    hide Keys;
    var m := 16 * (rounds + 1);
    SliceOfSlice(d, o, 4 + m, 4, m);
    SameKeys(ks, d, 4, o + 4, rounds);
  }

  /** A snapshot holds the round count and the round keys of the schedule it was taken from. */
  lemma SnapshotHolds(ks: seq<bv8>, d: seq<bv8>, o: nat)
    requires SnapshotOf(ks, d, o)
    ensures |ks| >= 4 && RoundCount(ks, 0) == RoundCount(d, o) && ScheduleEnd(0, RoundCount(ks, 0)) <= |ks|
    ensures Keys(ks, 4, RoundCount(ks, 0)) == Keys(d, o + 4, RoundCount(d, o))
  {
    hide Keys, RoundCount;
    SnapshotCount(ks, d, o);
    SameKeysInCopy(ks, d, o, RoundCount(d, o));
  }

  /**
   When the data does not overlap the schedule, decrypting with a snapshot and
   decrypting with the schedule in the buffer give the same bytes.
   */
  lemma SnapshotAgrees(ks: seq<bv8>, d: seq<bv8>, pos: nat, o: nat, n: nat)
    requires SnapshotOf(ks, d, o) && pos + Cbc.BLOCK * n <= |d|
    requires ScheduleEnd(o, RoundCount(d, o)) <= pos || pos + Cbc.BLOCK * n <= o + 4
    ensures |ks| >= 4 && ScheduleEnd(0, RoundCount(ks, 0)) <= |ks|
    ensures Cbc.OnBlocks(Decryption(Keys(ks, 4, RoundCount(ks, 0))))
    ensures Chained(d, pos, o, RoundCount(d, o), n)
            == Cbc.Decrypted(Decryption(Keys(ks, 4, RoundCount(ks, 0))), d, pos, n)
  {
    hide Decryption, Keys, RoundCount, Cbc.Decrypted, Chained, SnapshotOf;
    SnapshotHolds(ks, d, o);
    SnapshotFits(ks, d, o);
    ChainedIsCbc(d, pos, o, RoundCount(d, o), n);
  }

  lemma SnapshotFits(ks: seq<bv8>, d: seq<bv8>, o: nat)
    requires SnapshotOf(ks, d, o)
    ensures o + 4 <= |d| && ScheduleEnd(o, RoundCount(d, o)) <= |d|
  {
  }

  /** Data encrypted block by block under a key schedule decrypts to itself when the derived round keys are stored. */
  lemma DecryptsEncryption(keys: seq<State>, plain: seq<bv8>, stored: seq<bv8>, pos: nat, n: nat)
    requires |keys| >= 2 && pos + Cbc.BLOCK * n <= |plain|
    requires |stored| >= 4 && RoundCount(stored, 0) == |keys| - 1 && ScheduleEnd(0, |keys| - 1) <= |stored|
    requires Keys(stored, 4, |keys| - 1) == DecryptionKeys(keys)
    ensures Cbc.OnBlocks(Encryption(keys)) && Cbc.OnBlocks(Decryption(Keys(stored, 4, |keys| - 1)))
    ensures Cbc.Decrypted(Decryption(Keys(stored, 4, |keys| - 1)),
                          Cbc.Encrypted(Encryption(keys), plain, pos, n), pos, n) == plain
  {
    hide Decryption, Encryption, Keys, DecryptionKeys, Cbc.Encrypted, Cbc.Decrypted, RoundCount;
    DecryptionUndoesEncryption(keys);
    Cbc.RoundTrip(Decryption(DecryptionKeys(keys)), Encryption(keys), plain, pos, n);
  }
}
