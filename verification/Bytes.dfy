/**
 Little-endian byte arithmetic shared by the format modules.

 Bytes are the integers 0..255, so a multi-byte field, a machine word and a
 whole compressed stream are all natural numbers. `Shr` is the logical shift
 right and `Low` keeps the low-order bits (a mask of ones).
 */
module Bytes {

  type byte = x: int | 0 <= x < 256

  /** Largest image the Windows pipelines accept. */
  const MAX_IMAGE_SIZE: nat := 0x4000_0000
  const TWO_32: nat := 0x1_0000_0000
  const TWO_64: nat := 0x1_0000_0000_0000_0000

  function Pow2(n: nat): (p: nat)
    ensures p > 0
  {
    if n == 0 then 1 else 2 * Pow2(n - 1)
  }

  function Shr(x: nat, n: nat): nat {
    if n == 0 then x else Shr(x / 2, n - 1)
  }

  function Low(x: nat, n: nat): nat {
    if n == 0 then 0 else x % 2 + 2 * Low(x / 2, n - 1)
  }

  /** Bit `b` of `x`. */
  function BitAt(x: nat, b: nat): (r: nat)
    ensures r < 2
  {
    Shr(x, b) % 2
  }

  /** The number whose little-endian digits in base 256 are `s`. */
  function Val(s: seq<byte>): nat {
    if s == [] then 0 else s[0] + 256 * Val(s[1..])
  }

  /** A 16-bit little-endian word. */
  function U16(lo: byte, hi: byte): (r: nat)
    ensures r < 0x1_0000
  {
    ValBound([lo, hi]);
    Pow2Words();
    Val([lo, hi])
  }

  /** The `n` low-order bytes of `v`, least significant first. */
  function Le(v: nat, n: nat): (s: seq<byte>)
    ensures |s| == n
  {
    if n == 0 then [] else [v % 256] + Le(v / 256, n - 1)
  }

  /** `s` with the bytes from `at` on replaced by `b`. */
  function Splice(s: seq<byte>, at: nat, b: seq<byte>): (r: seq<byte>)
    requires at + |b| <= |s|
    ensures |r| == |s|
    ensures forall i {:trigger r[i]} :: 0 <= i < |s| ==> r[i] == if at <= i < at + |b| then b[i - at] else s[i]
  {
    s[..at] + b + s[at + |b|..]
  }

  // ----- Powers, shifts and masks -----

  lemma {:induction false} Pow2Add(a: nat, b: nat)
    ensures Pow2(a + b) == Pow2(a) * Pow2(b)
  {
    if a > 0 {
      Pow2Add(a - 1, b);
      TwiceProduct(Pow2(a - 1), Pow2(b));
      assert Pow2(a + b) == 2 * Pow2(a - 1 + b);
    }
  }

  lemma TwiceProduct(x: nat, y: nat)
    ensures 2 * (x * y) == (2 * x) * y
  {
  }

  lemma Pow2Words()
    ensures Pow2(8) == 0x100 && Pow2(16) == 0x1_0000 && Pow2(32) == TWO_32 && Pow2(64) == TWO_64
  {
    assert Pow2(4) == 16;
    Pow2Add(4, 4);
    Pow2Add(8, 8);
    Pow2Add(16, 16);
    Pow2Add(32, 32);
  }

  lemma {:induction false} Pow2Monotone(a: nat, b: nat)
    requires a <= b
    ensures Pow2(a) <= Pow2(b)
    decreases b
  {
    if a < b {
      Pow2Monotone(a, b - 1);
    }
  }

  lemma {:induction false} ShrShr(x: nat, a: nat, b: nat)
    ensures Shr(Shr(x, a), b) == Shr(x, a + b)
  {
    if a > 0 {
      ShrShr(x / 2, a - 1, b);
    }
  }

  lemma {:induction false} ShrAtMost(x: nat, n: nat)
    ensures Shr(x, n) <= x
  {
    if n > 0 {
      ShrAtMost(x / 2, n - 1);
    }
  }

  lemma {:induction false} LowBound(x: nat, n: nat)
    ensures Low(x, n) < Pow2(n)
    ensures Low(x, n) <= x
  {
    if n > 0 {
      LowBound(x / 2, n - 1);
    }
  }

  /** A number below `Pow2(n)` has no bit from `n` on. */
  lemma {:induction false} ShrSmall(x: nat, n: nat)
    requires x < Pow2(n)
    ensures Shr(x, n) == 0 && Low(x, n) == x
  {
    if n > 0 {
      ShrSmall(x / 2, n - 1);
    }
  }

  /** The low bits and the high bits make up the number. */
  lemma {:induction false} LowShr(x: nat, n: nat)
    ensures x == Low(x, n) + Pow2(n) * Shr(x, n)
  {
    hide Low, Shr, Pow2;
    Zero(x);
    if n > 0 {
      LowShr(x / 2, n - 1);
      Next(x, n - 1);
      Twice(Pow2(n - 1), Shr(x, n));
    }
  }

  /** The low `a + b` bits are the low `a` bits and the next `b`. */
  lemma {:induction false} LowSplit(x: nat, a: nat, b: nat)
    ensures Low(x, a + b) == Low(x, a) + Pow2(a) * Low(Shr(x, a), b)
  {
    hide Low, Shr, Pow2;
    Zero(x);
    if a > 0 {
      LowSplit(x / 2, a - 1, b);
      Next(x, a - 1);
      Next(x, a - 1 + b);
      Twice(Pow2(a - 1), Low(Shr(x, a), b));
    }
  }

  /** The definitions at 0 bits. */
  lemma Zero(x: nat)
    ensures Low(x, 0) == 0 && Shr(x, 0) == x && Pow2(0) == 1
  {
  }

  /** The definitions at one bit more. */
  lemma Next(x: nat, n: nat)
    ensures Low(x, n + 1) == x % 2 + 2 * Low(x / 2, n)
    ensures Shr(x, n + 1) == Shr(x / 2, n)
    ensures Pow2(n + 1) == 2 * Pow2(n)
  {
  }

  lemma Twice(p: nat, q: nat)
    ensures (2 * p) * q == 2 * (p * q)
  {
  }

  lemma {:induction false} ShrOfLow(x: nat, a: nat, n: nat)
    requires a <= n
    ensures Shr(Low(x, n), a) == Low(Shr(x, a), n - a)
  {
    if a > 0 {
      assert Low(x, n) / 2 == Low(x / 2, n - 1);
      ShrOfLow(x / 2, a - 1, n - 1);
    }
  }

  lemma {:induction false} LowOfLow(x: nat, a: nat, n: nat)
    requires a <= n
    ensures Low(Low(x, n), a) == Low(x, a)
  {
    if a > 0 {
      assert Low(x, n) / 2 == Low(x / 2, n - 1);
      LowOfLow(x / 2, a - 1, n - 1);
    }
  }

  lemma ByteShift(x: nat)
    ensures Shr(x, 8) == x / 256 && Low(x, 8) == x % 256
  {
    LowShr(x, 8);
    LowBound(x, 8);
    Pow2Words();
  }

  lemma ByteSplit(x: nat, n: nat)
    ensures Low(x, 8 + n) == x % 256 + 256 * Low(x / 256, n)
  {
    ByteShift(x);
    LowSplit(x, 8, n);
    Pow2Words();
  }

  lemma LowDigit(lo: byte, hi: nat, n: nat)
    ensures Low(lo + 256 * hi, 8 + n) == lo + 256 * Low(hi, n)
  {
    hide Low;
    ByteSplit(lo + 256 * hi, n);
  }

  /** Numbers that agree on their low `k` bits agree on fewer bits and on each single one. */
  lemma LowBitsAgree(x: nat, y: nat, k: nat, j: nat)
    requires Low(x, k) == Low(y, k)
    ensures j <= k ==> Low(x, j) == Low(y, j)
    ensures j < k ==> BitAt(x, j) == BitAt(y, j)
  {
    hide Shr;
    if j <= k {
      LowOfLow(x, j, k);
      LowOfLow(y, j, k);
      ShrOfLow(x, j, k);
      ShrOfLow(y, j, k);
    }
  }

  // ----- Byte strings as numbers -----

  lemma {:induction false} ValBound(s: seq<byte>)
    ensures Val(s) < Pow2(8 * |s|)
  {
    if s != [] {
      ValBound(s[1..]);
      Pow2Words();
      Pow2Add(8, 8 * (|s| - 1));
      assert 8 + 8 * (|s| - 1) == 8 * |s|;
    }
  }

  /** Skipping bytes is shifting by whole bytes. */
  lemma {:induction false} ValDrop(s: seq<byte>, i: nat)
    requires i <= |s|
    ensures Shr(Val(s), 8 * i) == Val(s[i..])
  {
    if i > 0 {
      ValDrop(s[1..], i - 1);
      assert s[1..][i - 1..] == s[i..];
      ByteShift(Val(s));
      ShrShr(Val(s), 8, 8 * (i - 1));
      assert 8 + 8 * (i - 1) == 8 * i;
    } else {
      assert s[0..] == s;
    }
  }

  /** Keeping bytes is masking by whole bytes. */
  lemma {:induction false} ValTake(s: seq<byte>, i: nat)
    requires i <= |s|
    ensures Low(Val(s), 8 * i) == Val(s[..i])
  {
    if i > 0 {
      ValTake(s[1..], i - 1);
      ValTakeStep(s, i, 8 * (i - 1));
      assert 8 + 8 * (i - 1) == 8 * i;
    }
  }

  lemma ValTakeStep(s: seq<byte>, i: nat, k: nat)
    requires 0 < i <= |s| && Low(Val(s[1..]), k) == Val(s[1..][..i - 1])
    ensures Low(Val(s), 8 + k) == Val(s[..i])
  {
    hide Low;
    assert s[..i][1..] == s[1..][..i - 1];
    LowDigit(s[0], Val(s[1..]), k);
  }

  /** Trailing zero bytes do not change the number. */
  lemma {:induction false} ValZeroTail(s: seq<byte>, n: nat)
    ensures Val(s + seq(n, _ => 0)) == Val(s)
    decreases |s| + n
  {
    var z: seq<byte> := seq(n, _ => 0);
    if s != [] {
      assert (s + z)[1..] == s[1..] + z;
      ValZeroTail(s[1..], n);
    } else if n > 0 {
      assert (s + z)[1..] == [] + seq(n - 1, _ => 0);
      ValZeroTail([], n - 1);
    }
  }

  /** Encoding then reading keeps the low-order bytes. */
  lemma {:induction false} ValLe(v: nat, n: nat)
    ensures Val(Le(v, n)) == Low(v, 8 * n)
  {
    if n > 0 {
      ValLe(v / 256, n - 1);
      assert Le(v, n)[1..] == Le(v / 256, n - 1);
      ByteSplit(v, 8 * (n - 1));
      assert 8 + 8 * (n - 1) == 8 * n;
    }
  }

  lemma ValOfTwo(s: seq<byte>)
    requires |s| == 2
    ensures Val(s) == s[0] as int + 256 * s[1] as int
  {
    assert s[1..] == [s[1]] && [s[1]][1..] == [];
    assert Val([s[1]]) == s[1] as int + 256 * Val([]);
  }

  lemma ValOfFour(s: seq<byte>)
    requires |s| == 4
    ensures Val(s) == s[0] as int + 0x100 * s[1] as int + 0x1_0000 * s[2] as int + 0x100_0000 * s[3] as int
  {
    ValOfTwo(s[2..]);
    assert s[1..][1..] == s[2..];
  }

  lemma U16Is(lo: byte, hi: byte)
    ensures U16(lo, hi) == lo as int + 256 * hi as int
  {
    ValOfTwo([lo, hi]);
  }
}
