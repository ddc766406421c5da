/** Machine words for the ciphers: bytes are `bv8`, words `bv32`, memory little-endian. */
module Words {

  /** The little-endian word at `o`. */
  function Get(d: seq<bv8>, o: nat): bv32
    requires o + 4 <= |d|
  {
    Join(d[o], d[o + 1], d[o + 2], d[o + 3])
  }

  function Join(b0: bv8, b1: bv8, b2: bv8, b3: bv8): bv32 {
    (b0 as bv32) | ((b1 as bv32) << 8) | ((b2 as bv32) << 16) | ((b3 as bv32) << 24)
  }

  /** Byte `k` of a word, lowest first. */
  function Part(w: bv32, k: nat): bv8
    requires k < 4
  {
    match k
    case 0 => (w & 0xFF) as bv8
    case 1 => ((w >> 8) & 0xFF) as bv8
    case 2 => ((w >> 16) & 0xFF) as bv8
    case _ => (w >> 24) as bv8
  }

  function Bytes4(w: bv32): (r: seq<bv8>)
    ensures |r| == 4
  {
    [Part(w, 0), Part(w, 1), Part(w, 2), Part(w, 3)]
  }

  /** `d` with the word at `o` replaced. */
  function Put(d: seq<bv8>, o: nat, w: bv32): (r: seq<bv8>)
    requires o + 4 <= |d|
    ensures |r| == |d|
    ensures forall i {:trigger r[i]} :: 0 <= i < |d| ==> r[i] == if o <= i < o + 4 then Bytes4(w)[i - o] else d[i]
  {
    d[..o] + Bytes4(w) + d[o + 4..]
  }

  lemma JoinParts(w: bv32)
    ensures Join(Part(w, 0), Part(w, 1), Part(w, 2), Part(w, 3)) == w
  {
  }

  lemma PartsJoin(b0: bv8, b1: bv8, b2: bv8, b3: bv8)
    ensures Part(Join(b0, b1, b2, b3), 0) == b0 && Part(Join(b0, b1, b2, b3), 1) == b1
    ensures Part(Join(b0, b1, b2, b3), 2) == b2 && Part(Join(b0, b1, b2, b3), 3) == b3
  {
  }

  /** Reading a written word gives it back; other words are untouched. */
  lemma GetPut(d: seq<bv8>, o: nat, w: bv32)
    requires o + 4 <= |d|
    ensures Get(Put(d, o, w), o) == w
    ensures forall p: nat :: p + 4 <= |d| && (p + 4 <= o || o + 4 <= p) ==> Get(Put(d, o, w), p) == Get(d, p)
  {
    hide Join, Part;
    JoinParts(w);
  }

  method WriteWord(d: array<bv8>, o: nat, w: bv32)
    requires o + 4 <= d.Length
    modifies d
    ensures d[..] == Put(old(d[..]), o, w)
  {
    hide Part;
    d[o], d[o + 1], d[o + 2], d[o + 3] := Part(w, 0), Part(w, 1), Part(w, 2), Part(w, 3);
  }

  method CopyOf(data: seq<bv8>) returns (d: array<bv8>)
    ensures fresh(d) && d[..] == data
  {
    d := new bv8[|data|](i requires 0 <= i < |data| => data[i]);
  }

  method ReadWord(d: array<bv8>, o: nat) returns (w: bv32)
    requires o + 4 <= d.Length
    ensures w == Get(d[..], o)
  {
    w := Join(d[o], d[o + 1], d[o + 2], d[o + 3]);
  }

  lemma SameWord(a: seq<bv8>, b: seq<bv8>, o: nat)
    requires |a| == |b| && o + 4 <= |a| && forall i :: o <= i < |a| ==> a[i] == b[i]
    ensures Get(a, o) == Get(b, o)
  {
    hide Join;
  }

  // ----- Named operators -----
  //
  // The proofs about the ciphers use only the laws below; naming the operators
  // lets a proof leave their bit-level meaning aside.

  function Xor(a: bv32, b: bv32): bv32 {
    a ^ b
  }

  function Half(a: bv32): bv32 {
    a >> 1
  }

  predicate Odd(a: bv32) {
    a & 1 != 0
  }

  lemma XorFacts(a: bv32, b: bv32, c: bv32)
    ensures a ^ b == b ^ a
    ensures (a ^ b) ^ c == a ^ (b ^ c)
    ensures a ^ a == 0
    ensures a ^ 0 == a
  {
  }

  lemma XorLaws(a: bv32, b: bv32, c: bv32)
    ensures Xor(a, b) == Xor(b, a)
    ensures Xor(Xor(a, b), c) == Xor(a, Xor(b, c))
    ensures Xor(a, a) == 0
    ensures Xor(a, 0) == a
  {
    hide Xor;
    XorComm(a, b);
    XorAssoc(a, b, c);
    XorSelf(a);
  }

  lemma XorComm(a: bv32, b: bv32)
    ensures Xor(a, b) == Xor(b, a)
  {
    XorFacts(a, b, 0);
  }

  lemma XorAssoc(a: bv32, b: bv32, c: bv32)
    ensures Xor(Xor(a, b), c) == Xor(a, Xor(b, c))
  {
    XorFacts(a, b, c);
  }

  lemma XorSelf(a: bv32)
    ensures Xor(a, a) == 0 && Xor(a, 0) == a
  {
  }

  /** Adding the same word twice cancels. */
  lemma XorTwice(a: bv32, b: bv32)
    ensures Xor(Xor(a, b), b) == a && Xor(b, Xor(b, a)) == a
  {
    hide Xor;
    XorLaws(a, b, b);
    XorLaws(b, b, a);
    XorLaws(b, 0, 0);
    XorLaws(a, 0, 0);
    XorLaws(0, a, 0);
  }

  /** Four words may be added in either pairing. */
  lemma XorSwap(a: bv32, b: bv32, c: bv32, d: bv32)
    ensures Xor(Xor(a, b), Xor(c, d)) == Xor(Xor(a, c), Xor(b, d))
  {
    hide Xor;
    XorLaws(a, b, Xor(c, d));
    XorLaws(b, c, d);
    XorLaws(c, b, d);
    XorLaws(a, c, Xor(b, d));
  }

  function Add(a: bv32, b: bv32): bv32 {
    a + b
  }

  function Sub(a: bv32, b: bv32): bv32 {
    a - b
  }

  lemma AddSubFacts(a: bv32, b: bv32)
    ensures (a - b) + b == a && (a + b) - b == a
  {
  }

  lemma AddOfDifference(a: bv32, b: bv32)
    ensures Add(a - b, b) == a
  {
    AddSubFacts(a, b);
  }

  lemma SubOfSum(a: bv32, b: bv32)
    ensures Sub(a + b, b) == a
  {
    AddSubFacts(a, b);
  }

  lemma AddIs(a: bv32, b: bv32)
    ensures Add(a, b) == a + b
  {
  }

  lemma SubIs(a: bv32, b: bv32)
    ensures Sub(a, b) == a - b
  {
  }

  /** Wrapping addition and subtraction undo each other. */
  lemma AddSub(a: bv32, b: bv32)
    ensures Add(Sub(a, b), b) == a && Sub(Add(a, b), b) == a
  {
    hide Add, Sub;
    AddIs(a, b);
    SubIs(a, b);
    AddOfDifference(a, b);
    SubOfSum(a, b);
  }

  // ----- Rust's wrapping shifts take the amount modulo 32 -----

  function WrapShl(x: bv32, n: bv32): bv32 {
    x << ((n & 31) as bv5)
  }

  function WrapShr(x: bv32, n: bv32): bv32 {
    x >> ((n & 31) as bv5)
  }

  // ----- Words as numbers -----

  function ToNat(w: bv32): nat {
    Part(w, 0) as nat + 0x100 * Part(w, 1) as nat + 0x1_0000 * Part(w, 2) as nat + 0x100_0000 * Part(w, 3) as nat
  }

  /** The low 32 bits of a number. */
  function OfNat(n: nat): bv32 {
    Join((n % 0x100) as bv8, (n / 0x100 % 0x100) as bv8, (n / 0x1_0000 % 0x100) as bv8, (n / 0x100_0000 % 0x100) as bv8)
  }

  lemma ToNatJoin(b0: bv8, b1: bv8, b2: bv8, b3: bv8)
    ensures ToNat(Join(b0, b1, b2, b3)) == b0 as nat + 0x100 * b1 as nat + 0x1_0000 * b2 as nat + 0x100_0000 * b3 as nat
  {
    hide Join, Part;
    PartsJoin(b0, b1, b2, b3);
  }

  lemma Digits(n: nat)
    requires n < 0x1_0000_0000
    ensures n == n % 0x100 + 0x100 * (n / 0x100 % 0x100) + 0x1_0000 * (n / 0x1_0000 % 0x100)
            + 0x100_0000 * (n / 0x100_0000 % 0x100)
  {
  }

  lemma ToOfNat(n: nat)
    requires n < 0x1_0000_0000
    ensures ToNat(OfNat(n)) == n
  {
    hide Join, Part, ToNat;
    var d0, d1, d2, d3 := n % 0x100, n / 0x100 % 0x100, n / 0x1_0000 % 0x100, n / 0x100_0000 % 0x100;
    Digits(n);
    ToNatOfDigits(d0, d1, d2, d3);
  }

  lemma ToNatOfDigits(d0: nat, d1: nat, d2: nat, d3: nat)
    requires d0 < 0x100 && d1 < 0x100 && d2 < 0x100 && d3 < 0x100
    ensures ToNat(Join(d0 as bv8, d1 as bv8, d2 as bv8, d3 as bv8)) == d0 + 0x100 * d1 + 0x1_0000 * d2 + 0x100_0000 * d3
  {
    hide Join, Part, ToNat;
    ToNatJoin(d0 as bv8, d1 as bv8, d2 as bv8, d3 as bv8);
    NatOfByte(d0);
    NatOfByte(d1);
    NatOfByte(d2);
    NatOfByte(d3);
  }

  /** The byte reached by counting up from zero. */
  function Counted(n: nat): bv8 {
    if n == 0 then 0 else Counted(n - 1) + 1
  }

  lemma Successor(b: bv8)
    requires b != 0xFF
    ensures (b + 1) as nat == b as nat + 1
  {
  }

  lemma {:induction false} CountedIs(n: nat)
    requires n < 0x100
    ensures Counted(n) as nat == n
  {
    if n > 0 {
      CountedIs(n - 1);
      Successor(Counted(n - 1));
    }
  }

  lemma ByteOfNat(b: bv8)
    ensures (b as nat) as bv8 == b && (b as nat) < 0x100
  {
  }

  /** Small numbers survive being stored in a byte. */
  lemma NatOfByte(n: nat)
    requires n < 0x100
    ensures (n as bv8) as nat == n
  {
    CountedIs(n);
    ByteOfNat(Counted(n));
  }

  lemma SumDigits(d0: nat, d1: nat, d2: nat, d3: nat)
    requires d0 < 0x100 && d1 < 0x100 && d2 < 0x100 && d3 < 0x100
    ensures var n := d0 + 0x100 * d1 + 0x1_0000 * d2 + 0x100_0000 * d3;
            n % 0x100 == d0 && n / 0x100 % 0x100 == d1 && n / 0x1_0000 % 0x100 == d2 && n / 0x100_0000 % 0x100 == d3
  {
    var n := d0 + 0x100 * d1 + 0x1_0000 * d2 + 0x100_0000 * d3;
    OneDigit(d0, d1 + 0x100 * d2 + 0x1_0000 * d3);
    OneDigit(d1, d2 + 0x100 * d3);
    OneDigit(d2, d3);
    OneDigit(d3, 0);
    TwoDigits(d0 + 0x100 * d1, d2 + 0x100 * d3);
    ThreeDigits(d0 + 0x100 * d1 + 0x1_0000 * d2, d3);
  }

  lemma OneDigit(d: nat, m: nat)
    requires d < 0x100
    ensures (d + 0x100 * m) % 0x100 == d && (d + 0x100 * m) / 0x100 == m
  {
  }

  lemma TwoDigits(d: nat, m: nat)
    requires d < 0x1_0000
    ensures (d + 0x1_0000 * m) / 0x1_0000 == m
  {
  }

  lemma ThreeDigits(d: nat, m: nat)
    requires d < 0x100_0000
    ensures (d + 0x100_0000 * m) / 0x100_0000 == m
  {
  }

  lemma OfNatDigits(d0: nat, d1: nat, d2: nat, d3: nat)
    requires d0 < 0x100 && d1 < 0x100 && d2 < 0x100 && d3 < 0x100
    ensures OfNat(d0 + 0x100 * d1 + 0x1_0000 * d2 + 0x100_0000 * d3)
         == Join(d0 as bv8, d1 as bv8, d2 as bv8, d3 as bv8)
  {
    hide Join;
    SumDigits(d0, d1, d2, d3);
  }

  lemma OfNatBytes(b0: bv8, b1: bv8, b2: bv8, b3: bv8)
    ensures OfNat(b0 as nat + 0x100 * b1 as nat + 0x1_0000 * b2 as nat + 0x100_0000 * b3 as nat) == Join(b0, b1, b2, b3)
  {
    hide Join, OfNat;
    ByteOfNat(b0);
    ByteOfNat(b1);
    ByteOfNat(b2);
    ByteOfNat(b3);
    OfNatDigits(b0 as nat, b1 as nat, b2 as nat, b3 as nat);
  }

  /** The word of a small number. */
  lemma SmallWord(n: nat, b: bv8)
    requires b as nat == n
    ensures OfNat(n) == b as bv32
  {
    hide Join, OfNat;
    OfNatBytes(b, 0, 0, 0);
    LowByte(b);
    ByteOfNat(0);
  }

  lemma LowByte(b: bv8)
    ensures Join(b, 0, 0, 0) == b as bv32
  {
  }

  lemma OfToNat(w: bv32)
    ensures OfNat(ToNat(w)) == w
  {
    hide Join, Part, OfNat;
    JoinParts(w);
    OfNatBytes(Part(w, 0), Part(w, 1), Part(w, 2), Part(w, 3));
  }

  // ----- Strings of words -----

  /** Strings that agree word by word up to `n`, and byte by byte from there, are equal. */
  lemma SameWords(a: seq<bv8>, b: seq<bv8>, n: nat)
    requires |a| == |b| && 4 * n <= |a|
    requires forall k: nat :: k < n ==> Get(a, 4 * k) == Get(b, 4 * k)
    requires forall i :: 4 * n <= i < |a| ==> a[i] == b[i]
    ensures a == b
  {
    hide Join, Part;
    forall i | 0 <= i < |a|
      ensures a[i] == b[i]
    {
      if i < 4 * n {
        var k := i / 4;
        assert Get(a, 4 * k) == Get(b, 4 * k);
        PartsJoin(a[4 * k], a[4 * k + 1], a[4 * k + 2], a[4 * k + 3]);
        PartsJoin(b[4 * k], b[4 * k + 1], b[4 * k + 2], b[4 * k + 3]);
        assert i == 4 * k || i == 4 * k + 1 || i == 4 * k + 2 || i == 4 * k + 3;
      }
    }
  }
}
