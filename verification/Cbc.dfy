/**
 Cipher block chaining with a zero initial vector (NIST SP 800-38A, section
 6.2), over any function on 16-byte blocks.
 */
module Cbc {

  const BLOCK: nat := 16

  type Cipher = seq<bv8> -> seq<bv8>

  ghost predicate OnBlocks(f: Cipher) {
    forall b :: |b| == BLOCK ==> |f(b)| == BLOCK
  }

  /** `decrypt` undoes `encrypt` on every block. */
  ghost predicate Undoes(decrypt: Cipher, encrypt: Cipher) {
    forall b :: |b| == BLOCK ==> decrypt(encrypt(b)) == b
  }

  function Zero(): (b: seq<bv8>)
    ensures |b| == BLOCK
  {
    seq(BLOCK, _ => 0)
  }

  function XorBytes(a: seq<bv8>, b: seq<bv8>): (r: seq<bv8>)
    requires |a| == |b|
    ensures |r| == |a|
  {
    seq(|a|, i requires 0 <= i < |a| => a[i] ^ b[i])
  }

  lemma XorBytesTwice(a: seq<bv8>, b: seq<bv8>)
    requires |a| == |b|
    ensures XorBytes(XorBytes(a, b), b) == a
  {
    var r := XorBytes(XorBytes(a, b), b);
    forall i | 0 <= i < |a|
      ensures r[i] == a[i]
    {
      ByteXorTwice(a[i], b[i]);
    }
  }

  lemma ByteXorTwice(a: bv8, b: bv8)
    ensures (a ^ b) ^ b == a
  {
  }

  function BlockAt(d: seq<bv8>, at: nat, i: nat): (b: seq<bv8>)
    requires at + BLOCK * (i + 1) <= |d|
    ensures |b| == BLOCK
  {
    d[at + BLOCK * i..at + BLOCK * (i + 1)]
  }

  function PutBlock(d: seq<bv8>, at: nat, i: nat, b: seq<bv8>): (r: seq<bv8>)
    requires at + BLOCK * (i + 1) <= |d| && |b| == BLOCK
    ensures |r| == |d|
    ensures forall k {:trigger r[k]} :: 0 <= k < |d| ==>
              r[k] == if at + BLOCK * i <= k < at + BLOCK * (i + 1) then b[k - at - BLOCK * i] else d[k]
  {
    d[..at + BLOCK * i] + b + d[at + BLOCK * (i + 1)..]
  }

  /** The ciphertext block before block `i`. */
  function Previous(c: seq<bv8>, at: nat, i: nat): (b: seq<bv8>)
    requires i > 0 ==> at + BLOCK * i <= |c|
    ensures |b| == BLOCK
  {
    if i == 0 then Zero() else BlockAt(c, at, i - 1)
  }

  /** The first `n` blocks at `at` decrypted. */
  function Decrypted(decrypt: Cipher, c: seq<bv8>, at: nat, n: nat): (r: seq<bv8>)
    requires (n > 0 ==> at + BLOCK * n <= |c|) && OnBlocks(decrypt)
    ensures |r| == |c|
  {
    if n == 0 then c
    else PutBlock(Decrypted(decrypt, c, at, n - 1), at, n - 1,
                  XorBytes(decrypt(BlockAt(c, at, n - 1)), Previous(c, at, n - 1)))
  }

  /** The first `n` blocks at `at` encrypted. */
  function Encrypted(encrypt: Cipher, p: seq<bv8>, at: nat, n: nat): (r: seq<bv8>)
    requires (n > 0 ==> at + BLOCK * n <= |p|) && OnBlocks(encrypt)
    ensures |r| == |p|
  {
    if n == 0 then p
    else
      var c := Encrypted(encrypt, p, at, n - 1);
      PutBlock(c, at, n - 1, encrypt(XorBytes(BlockAt(p, at, n - 1), Previous(c, at, n - 1))))
  }

  lemma PutBlockBlocks(d: seq<bv8>, at: nat, i: nat, b: seq<bv8>, j: nat)
    requires at + BLOCK * (i + 1) <= |d| && |b| == BLOCK && at + BLOCK * (j + 1) <= |d|
    ensures BlockAt(PutBlock(d, at, i, b), at, j) == if j == i then b else BlockAt(d, at, j)
  {
    var r := PutBlock(d, at, i, b);
    var x, y := BlockAt(r, at, j), if j == i then b else BlockAt(d, at, j);
    forall k | 0 <= k < BLOCK
      ensures x[k] == y[k]
    {
      assert r[at + BLOCK * j + k] == x[k];
    }
  }

  /** Each block is decrypted and added to the ciphertext block before it; nothing else changes. */
  lemma {:induction false} DecryptedBlocks(decrypt: Cipher, c: seq<bv8>, at: nat, n: nat)
    requires at + BLOCK * n <= |c| && OnBlocks(decrypt)
    ensures var r := Decrypted(decrypt, c, at, n);
            && (forall j: nat :: j < n ==>
                BlockAt(r, at, j) == XorBytes(decrypt(BlockAt(c, at, j)), Previous(c, at, j)))
            && (forall k :: 0 <= k < |c| && !(at <= k < at + BLOCK * n) ==> r[k] == c[k])
  {
    hide XorBytes, Previous;
    if n > 0 {
      DecryptedBlocks(decrypt, c, at, n - 1);
      forall j: nat | j < n
        ensures BlockAt(Decrypted(decrypt, c, at, n), at, j) == XorBytes(decrypt(BlockAt(c, at, j)), Previous(c, at, j))
      {
        PutBlockBlocks(Decrypted(decrypt, c, at, n - 1), at, n - 1,
                       XorBytes(decrypt(BlockAt(c, at, n - 1)), Previous(c, at, n - 1)), j);
      }
    }
  }

  lemma {:induction false} EncryptedBlocks(encrypt: Cipher, p: seq<bv8>, at: nat, n: nat)
    requires at + BLOCK * n <= |p| && OnBlocks(encrypt)
    ensures var r := Encrypted(encrypt, p, at, n);
            && (forall j: nat :: j < n ==>
                BlockAt(r, at, j) == encrypt(XorBytes(BlockAt(p, at, j), Previous(r, at, j))))
            && (forall k :: 0 <= k < |p| && !(at <= k < at + BLOCK * n) ==> r[k] == p[k])
  {
    hide XorBytes, Previous, BlockAt;
    if n > 0 {
      EncryptedBlocks(encrypt, p, at, n - 1);
      var c, r := Encrypted(encrypt, p, at, n - 1), Encrypted(encrypt, p, at, n);
      var b := encrypt(XorBytes(BlockAt(p, at, n - 1), Previous(c, at, n - 1)));
      forall j: nat | j < n
        ensures BlockAt(r, at, j) == encrypt(XorBytes(BlockAt(p, at, j), Previous(r, at, j)))
      {
        PutBlockBlocks(c, at, n - 1, b, j);
        PutKeepsPrevious(c, at, n - 1, b, j);
      }
    }
  }

  lemma PutKeepsPrevious(d: seq<bv8>, at: nat, i: nat, b: seq<bv8>, j: nat)
    requires at + BLOCK * (i + 1) <= |d| && |b| == BLOCK && j <= i
    ensures Previous(PutBlock(d, at, i, b), at, j) == Previous(d, at, j)
  {
    hide BlockAt;
    if j > 0 {
      PutBlockBlocks(d, at, i, b, j - 1);
    }
  }

  /** Decryption undoes encryption over any number of blocks. */
  lemma RoundTrip(decrypt: Cipher, encrypt: Cipher, p: seq<bv8>, at: nat, n: nat)
    requires at + BLOCK * n <= |p| && OnBlocks(decrypt) && OnBlocks(encrypt) && Undoes(decrypt, encrypt)
    ensures Decrypted(decrypt, Encrypted(encrypt, p, at, n), at, n) == p
  {
    hide XorBytes, Previous, BlockAt, Encrypted, Decrypted;
    var c := Encrypted(encrypt, p, at, n);
    var r := Decrypted(decrypt, c, at, n);
    EncryptedBlocks(encrypt, p, at, n);
    DecryptedBlocks(decrypt, c, at, n);
    forall j: nat | j < n
      ensures BlockAt(r, at, j) == BlockAt(p, at, j)
    {
      XorBytesTwice(BlockAt(p, at, j), Previous(c, at, j));
    }
    SameBlocks(r, p, at, n);
  }

  lemma SameBlocks(a: seq<bv8>, b: seq<bv8>, at: nat, n: nat)
    requires |a| == |b| && at + BLOCK * n <= |a|
    requires forall j: nat :: j < n ==> BlockAt(a, at, j) == BlockAt(b, at, j)
    requires forall k :: 0 <= k < |a| && !(at <= k < at + BLOCK * n) ==> a[k] == b[k]
    ensures a == b
  {
    forall k | 0 <= k < |a|
      ensures a[k] == b[k]
    {
      if at <= k < at + BLOCK * n {
        var j := (k - at) / BLOCK;
        assert a[k] == BlockAt(a, at, j)[k - at - BLOCK * j] && b[k] == BlockAt(b, at, j)[k - at - BLOCK * j];
      }
    }
  }

  /** Byte by byte: the first block is only decrypted, every later one is also added to the ciphertext before it. */
  lemma DecryptedBytes(decrypt: Cipher, c: seq<bv8>, at: nat, n: nat, j: nat, k: nat)
    requires at + BLOCK * n <= |c| && OnBlocks(decrypt) && j < n && k < BLOCK
    ensures var i := at + BLOCK * j + k; var b := decrypt(c[at + BLOCK * j..at + BLOCK * (j + 1)])[k];
            Decrypted(decrypt, c, at, n)[i] == if j == 0 then b else b ^ c[i - BLOCK]
  {
    hide Decrypted, XorBytes, Previous, PutBlock;
    DecryptedBlocks(decrypt, c, at, n);
    var r, b := Decrypted(decrypt, c, at, n), decrypt(BlockAt(c, at, j));
    assert r[at + BLOCK * j + k] == BlockAt(r, at, j)[k];
    XorAt(b, Previous(c, at, j), k);
    PreviousAt(c, at, j, k);
    AddsNothing(b[k]);
  }

  lemma XorAt(a: seq<bv8>, b: seq<bv8>, k: nat)
    requires |a| == |b| && k < |a|
    ensures XorBytes(a, b)[k] == a[k] ^ b[k]
  {
  }

  lemma PreviousAt(c: seq<bv8>, at: nat, j: nat, k: nat)
    requires at + BLOCK * (j + 1) <= |c| && k < BLOCK
    ensures Previous(c, at, j)[k] == if j == 0 then 0 else c[at + BLOCK * j + k - BLOCK]
  {
  }

  lemma AddsNothing(b: bv8)
    ensures b ^ 0 == b
  {
  }
}
