/**
 The shift-register keystream and the block cipher made from it, whose length
 is stored in byte 95 of the block itself.
 */
module StreamCipher {
  import opened Words
  import Gf32

  // ----- The register -----

  function Step(s: bv32): bv32 {
    if (s << 1) & 0x8000 != 0 then (s << 1) ^ 0x8003 else s << 1
  }

  function Steps(s: bv32, n: nat): bv32 {
    if n == 0 then s else Step(Steps(s, n - 1))
  }

  function OutBit(s: bv32): bv8 {
    (s & 1) as bv8
  }

  /** The lowest `n` bits of a keystream byte: one per step, the first lowest. */
  function OutBits(s: bv32, n: nat): bv8
    requires n <= 8
  {
    if n == 0 then 0 else OutBits(s, n - 1) | (OutBit(Steps(s, n - 1)) << (n - 1))
  }

  /** Byte `i` of the keystream. */
  function KeyByte(i: nat): bv8 {
    OutBits(Steps(1, 8 * i), 8)
  }

  method LfsrKeystream(n: nat) returns (out: seq<bv8>)
    ensures |out| == n && forall i :: 0 <= i < n ==> out[i] == KeyByte(i)
  {
    hide Step, OutBit;
    out := [];
    var state: bv32 := 1;
    for i := 0 to n
      invariant state == Steps(1, 8 * i)
      invariant |out| == i && forall j :: 0 <= j < i ==> out[j] == KeyByte(j)
    {
      var b: bv8 := 0;
      for k := 0 to 8
        invariant b == OutBits(Steps(1, 8 * i), k) && state == Steps(1, 8 * i + k)
      {
        StepsAdd(1, 8 * i, k);
        b := b | (OutBit(state) << k);
        state := Step(state);
      }
      out := out + [b];
    }
  }

  lemma {:induction false} StepsAdd(s: bv32, a: nat, b: nat)
    ensures Steps(s, a + b) == Steps(Steps(s, a), b)
  {
    hide Step;
    if b > 0 {
      StepsAdd(s, a, b - 1);
    }
  }

  predicate Live(s: bv32) {
    s != 0 && s < 0x8000
  }

  lemma StepLives(s: bv32)
    requires Live(s)
    ensures Live(Step(s))
  {
  }

  lemma {:induction false} StepsLive(s: bv32, n: nat)
    requires Live(s)
    ensures Live(Steps(s, n))
  {
    hide Step, Live;
    if n > 0 {
      StepsLive(s, n - 1);
      StepLives(Steps(s, n - 1));
    }
  }

  // ----- The register is linear -----

  predicate Feeds(s: bv32) {
    (s << 1) & 0x8000 != 0
  }

  lemma FeedsFact(a: bv32, b: bv32)
    ensures ((a ^ b) << 1) & 0x8000 != 0 <==> ((a << 1) & 0x8000 != 0) != ((b << 1) & 0x8000 != 0)
  {
  }

  lemma FeedsXor(a: bv32, b: bv32)
    ensures Feeds(Xor(a, b)) <==> Feeds(a) != Feeds(b)
  {
    FeedsFact(a, b);
  }

  lemma StepIs(s: bv32)
    ensures Step(s) == if Feeds(s) then Xor(Gf32.Dbl(s), 0x8003) else Gf32.Dbl(s)
  {
  }

  lemma StepLinear(a: bv32, b: bv32)
    ensures Step(Xor(a, b)) == Xor(Step(a), Step(b))
  {
    hide Xor, Step, Feeds, Gf32.Dbl;
    StepIs(a);
    StepIs(b);
    StepIs(Xor(a, b));
    FeedsXor(a, b);
    Gf32.DblXor(a, b);
    var x, y, p: bv32 := Gf32.Dbl(a), Gf32.Dbl(b), 0x8003;
    XorLaws(x, y, p);
    XorLaws(y, p, 0);
    XorLaws(x, p, y);
    XorSwap(x, p, y, p);
    XorLaws(p, 0, 0);
    XorLaws(Xor(x, y), 0, 0);
  }

  lemma {:induction false} StepsLinear(a: bv32, b: bv32, n: nat)
    ensures Steps(Xor(a, b), n) == Xor(Steps(a, n), Steps(b, n))
  {
    hide Xor, Step;
    if n > 0 {
      StepsLinear(a, b, n - 1);
      StepLinear(Steps(a, n - 1), Steps(b, n - 1));
    }
  }

  // ----- Skipping ahead -----

  lemma FifteenSteps()
    ensures Steps(1, 15) == 3 && Steps(1, 1) == 2 && Xor(Steps(1, 1), 1) == 3
  {
    assert Steps(1, 5) == 0x20;
    assert Steps(1, 10) == 0x400;
  }

  /** The fifteenth step is the sum of the first and none. */
  lemma Skip15(m: nat)
    ensures Steps(1, m + 15) == Xor(Steps(1, m + 1), Steps(1, m))
  {
    hide Xor, Steps;
    FifteenSteps();
    StepsAdd(1, 15, m);
    StepsAdd(1, 1, m);
    StepsLinear(Steps(1, 1), 1, m);
  }

  /** If `n` steps are the sum of `k` and none, then `2n` steps are the sum of `2k` and none. */
  ghost predicate Skips(n: nat, k: nat) {
    forall m: nat :: Steps(1, m + n) == Xor(Steps(1, m + k), Steps(1, m))
  }

  lemma SkipTwice(n: nat, k: nat)
    requires Skips(n, k)
    ensures Skips(2 * n, 2 * k)
  {
    hide Xor, Steps;
    forall m: nat
      ensures Steps(1, m + 2 * n) == Xor(Steps(1, m + 2 * k), Steps(1, m))
    {
      assert Steps(1, (m + n) + n) == Xor(Steps(1, (m + n) + k), Steps(1, m + n));
      assert Steps(1, (m + k) + n) == Xor(Steps(1, (m + k) + k), Steps(1, m + k));
      assert Steps(1, m + n) == Xor(Steps(1, m + k), Steps(1, m));
      Cancel(Steps(1, m + k + k), Steps(1, m + k), Steps(1, m));
    }
  }

  lemma Cancel(a: bv32, b: bv32, c: bv32)
    ensures Xor(Xor(a, b), Xor(b, c)) == Xor(a, c)
  {
    hide Xor;
    XorLaws(a, b, Xor(b, c));
    XorTwice(c, b);
  }

  lemma Powers()
    ensures Skips(30, 2) && Skips(60, 4) && Skips(120, 8) && Skips(240, 16) && Skips(480, 32)
  {
    hide Skips;
    assert Skips(15, 1) by {
      SkipsFifteen();
    }
    SkipTwice(15, 1);
    SkipTwice(30, 2);
    SkipTwice(60, 4);
    SkipTwice(120, 8);
    SkipTwice(240, 16);
  }

  lemma SkipsFifteen()
    ensures Skips(15, 1)
  {
    hide Xor, Steps;
    forall m: nat
      ensures Steps(1, m + 15) == Xor(Steps(1, m + 1), Steps(1, m))
    {
      Skip15(m);
    }
  }

  lemma SkipAt(n: nat, k: nat, m: nat)
    requires Skips(n, k)
    ensures Steps(1, m + n) == Xor(Steps(1, m + k), Steps(1, m))
  {
    hide Steps, Xor;
  }

  lemma Early()
    ensures Steps(1, 10) == 0x400 && Steps(1, 12) == 0x1000 && Steps(1, 16) == 6 && Steps(1, 26) == 0x1800
    ensures Steps(1, 28) == 0x6000 && Steps(1, 32) == 0x14
  {
    assert Steps(1, 5) == 0x20;
    assert Steps(1, 15) == 3;
    assert Steps(1, 20) == 0x60;
    assert Steps(1, 25) == 0xC00;
    assert Steps(1, 30) == 5;
  }

  lemma State95()
    ensures Steps(1, 760) == 0x1C12
  {
    hide Steps, Skips;
    Powers();
    Early();
    SkipAt(480, 32, 280);
    SkipAt(240, 16, 72);
    SkipAt(240, 16, 40);
    SkipAt(60, 4, 28);
    SkipAt(60, 4, 12);
    SkipAt(30, 2, 26);
    SkipAt(30, 2, 10);
  }

  /** The keystream byte that meets the stored length. */
  lemma KeyByte95()
    ensures KeyByte(95) == 0x38
  {
    hide Steps;
    State95();
    Bits95();
  }

  lemma Bits95()
    ensures OutBits(0x1C12, 8) == 0x38
  {
    assert OutBits(0x1C12, 4) == 8;
  }

  // ----- No two zero bytes in a row -----

  lemma OrFact(x: bv8, y: bv8, k: nat)
    requires k < 8 && (y == 0 || y == 1) && x | (y << k) == 0
    ensures x == 0 && y == 0
  {
  }

  lemma OutBitIs(s: bv32)
    ensures OutBit(s) == 0 || OutBit(s) == 1
  {
  }

  lemma {:induction false} ZeroBits(s: bv32, n: nat)
    requires n <= 8 && OutBits(s, n) == 0
    ensures forall k :: 0 <= k < n ==> OutBit(Steps(s, k)) == 0
  {
    hide OutBit, Steps;
    if n > 0 {
      OutBitIs(Steps(s, n - 1));
      OrFact(OutBits(s, n - 1), OutBit(Steps(s, n - 1)), n - 1);
      ZeroBits(s, n - 1);
    }
  }

  function Bound(n: nat): bv32 {
    if n == 0 then 0x8000 else Bound(n - 1) >> 1
  }

  lemma BoundEven(n: nat)
    requires n < 15
    ensures Bound(n) & 1 == 0
  {
    assert Bound(1) == 0x4000 && Bound(2) == 0x2000 && Bound(3) == 0x1000 && Bound(4) == 0x800 && Bound(5) == 0x400;
    assert Bound(6) == 0x200 && Bound(7) == 0x100 && Bound(8) == 0x80 && Bound(9) == 0x40 && Bound(10) == 0x20;
    assert Bound(11) == 0x10 && Bound(12) == 8 && Bound(13) == 4 && Bound(14) == 2;
  }

  /** A step that puts out no bit only doubles, so the register was below half the bound. */
  lemma QuietStep(s: bv32, b: bv32)
    requires Live(s) && Step(s) < b && b & 1 == 0 && OutBit(Step(s)) == 0
    ensures s < (b >> 1)
  {
    QuietFact(s);
    HalfBound(s, b);
  }

  lemma QuietFact(s: bv32)
    requires s < 0x8000 && OutBit(Step(s)) == 0
    ensures Step(s) == s << 1 && s < 0x4000
  {
  }

  lemma HalfBound(s: bv32, b: bv32)
    requires s < 0x4000 && (s << 1) < b && b & 1 == 0
    ensures s < (b >> 1)
  {
  }

  predicate Below(s: bv32, n: nat) {
    s < Bound(n)
  }

  lemma QuietBelow(s: bv32, n: nat)
    requires Live(s) && 0 < n <= 15 && Below(Step(s), n - 1) && OutBit(Step(s)) == 0
    ensures Below(s, n)
  {
    hide OutBit, Step, Live;
    BoundEven(n - 1);
    QuietStep(s, Bound(n - 1));
  }

  lemma OneStep(s: bv32)
    ensures Steps(s, 1) == Step(s)
  {
    hide Step;
    assert Steps(s, 0) == s;
  }

  /** A register that stays quiet for `n` steps starts below the `n`-th bound. */
  lemma {:induction false} QuietRun(s: bv32, n: nat)
    requires Live(s) && n <= 15 && forall k :: 1 <= k <= n ==> OutBit(Steps(s, k)) == 0
    ensures Below(s, n)
    decreases n
  {
    hide OutBit, Step, Live, Steps, Below;
    if n > 0 {
      var t := Step(s);
      StepLives(s);
      OneStep(s);
      forall k | 1 <= k <= n - 1
        ensures OutBit(Steps(t, k)) == 0
      {
        StepsAdd(s, 1, k);
        assert OutBit(Steps(s, k + 1)) == 0;
      }
      QuietRun(t, n - 1);
      assert OutBit(Steps(s, 1)) == 0;
      QuietBelow(s, n);
    } else {
      LiveBound(s);
    }
  }

  lemma LiveBound(s: bv32)
    requires Live(s)
    ensures Below(s, 0)
  {
  }

  lemma LastBound(s: bv32)
    requires Below(s, 15)
    ensures s == 0
  {
    assert Bound(5) == 0x400;
    assert Bound(10) == 0x20;
  }

  lemma NoZeroPair(i: nat)
    ensures KeyByte(i) != 0 || KeyByte(i + 1) != 0
  {
    hide OutBit, Steps, OutBits;
    if KeyByte(i) == 0 && KeyByte(i + 1) == 0 {
      var s := Steps(1, 8 * i);
      StepsLive(1, 8 * i);
      ZeroBits(s, 8);
      StepsAdd(1, 8 * i, 8);
      assert 8 * i + 8 == 8 * (i + 1);
      ZeroBits(Steps(s, 8), 8);
      forall k | 1 <= k <= 15
        ensures OutBit(Steps(s, k)) == 0
      {
        if k >= 8 {
          StepsAdd(s, 8, k - 8);
          assert OutBit(Steps(Steps(s, 8), k - 8)) == 0;
        }
      }
      QuietRun(s, 15);
      LastBound(s);
    }
  }

  // ----- The block cipher -----

  /** `n` keystream bytes added at `pos`. */
  function Masked(d: seq<bv8>, pos: nat, n: nat): (r: seq<bv8>)
    requires pos + n <= |d|
    ensures |r| == |d|
  {
    seq(|d|, i requires 0 <= i < |d| => if pos <= i < pos + n then d[i] ^ KeyByte(i - pos) else d[i])
  }

  const LENGTH_AT: nat := 95

  /** The length byte and the block it announces lie inside the buffer. */
  predicate Fits(d: seq<bv8>, pos: nat) {
    pos + LENGTH_AT < |d| && pos + d[pos + LENGTH_AT] as nat <= |d|
  }

  function Data6(d: seq<bv8>, pos: nat): (r: seq<bv8>)
    requires Fits(d, pos)
    ensures |r| == |d|
  {
    Masked(d, pos, d[pos + LENGTH_AT] as nat)
  }

  method DecryptData6(d: array<bv8>, pos: nat)
    requires Fits(d[..], pos)
    modifies d
    ensures d[..] == Data6(old(d[..]), pos)
  {
    hide KeyByte;
    ghost var before := d[..];
    var len := d[pos + LENGTH_AT] as nat;
    var ks := LfsrKeystream(256);
    for i := 0 to len
      invariant forall j :: 0 <= j < d.Length ==>
                d[j] == if pos <= j < pos + i then before[j] ^ KeyByte(j - pos) else before[j]
    {
      d[pos + i] := d[pos + i] ^ ks[i];
    }
  }

  lemma ByteXorTwice(a: bv8, b: bv8)
    ensures (a ^ b) ^ b == a
  {
  }

  lemma MaskedTwice(d: seq<bv8>, pos: nat, n: nat)
    requires pos + n <= |d|
    ensures Masked(Masked(d, pos, n), pos, n) == d
  {
    hide KeyByte;
    var r := Masked(Masked(d, pos, n), pos, n);
    forall i | 0 <= i < |d|
      ensures r[i] == d[i]
    {
      if pos <= i < pos + n {
        ByteXorTwice(d[i], KeyByte(i - pos));
      }
    }
  }

  lemma FlippedLength(len: bv8, after: bv8)
    requires after == len ^ 0x38
    ensures after as nat + 8 <= len as nat || len as nat + 8 <= after as nat
  {
    FlippedFact(len);
  }

  lemma FlippedFact(len: bv8)
    ensures (len ^ 0x38) as nat + 8 <= len as nat || len as nat + 8 <= (len ^ 0x38) as nat
  {
  }

  lemma ChangedByte(a: bv8, b: bv8)
    requires b != 0
    ensures a ^ b != a
  {
  }

  /** Bytes that only one of the two passes reaches stay changed. */
  lemma OnePassShows(d: seq<bv8>, pos: nat, n: nat, m: nat)
    requires pos + n <= |d| && pos + m <= |d| && (n + 2 <= m || m + 2 <= n)
    ensures Masked(Masked(d, pos, n), pos, m) != d
  {
    hide KeyByte, Masked;
    var low := if n < m then n else m;
    NoZeroPair(low);
    var i := if KeyByte(low) != 0 then low else low + 1;
    ChangedByte(d[pos + i], KeyByte(i));
    MaskedAt(d, pos, n, i);
    MaskedAt(Masked(d, pos, n), pos, m, i);
  }

  lemma MaskedAt(d: seq<bv8>, pos: nat, n: nat, i: nat)
    requires pos + n <= |d| && pos + i < |d|
    ensures Masked(d, pos, n)[pos + i] == if i < n then d[pos + i] ^ KeyByte(i) else d[pos + i]
  {
    hide KeyByte;
  }

  /**
   Decrypting twice gives the block back exactly when the length byte lies
   outside the block, that is, when it is at most 95.
   */
  lemma InvolutionCondition(d: seq<bv8>, pos: nat)
    requires Fits(d, pos)
    ensures (Fits(Data6(d, pos), pos) && Data6(Data6(d, pos), pos) == d) <==> d[pos + LENGTH_AT] as nat <= LENGTH_AT
  {
    hide KeyByte, Masked;
    var len := d[pos + LENGTH_AT];
    LengthAfter(d, pos);
    if len as nat <= LENGTH_AT {
      MaskedTwice(d, pos, len as nat);
    } else {
      var once := Data6(d, pos);
      FlippedLength(len, once[pos + LENGTH_AT]);
      if Fits(once, pos) {
        OnePassShows(d, pos, len as nat, once[pos + LENGTH_AT] as nat);
      }
    }
  }

  lemma LengthAfter(d: seq<bv8>, pos: nat)
    requires Fits(d, pos)
    ensures Data6(d, pos)[pos + LENGTH_AT]
            == if d[pos + LENGTH_AT] as nat <= LENGTH_AT then d[pos + LENGTH_AT] else d[pos + LENGTH_AT] ^ 0x38
  {
    hide KeyByte;
    KeyByte95();
  }
}
