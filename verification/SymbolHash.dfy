/**
 The two ELF dynamic-symbol hash tables, proved against the lookups a dynamic
 linker performs on their bytes: System V (gABI, chapter 5, "Hash Table") and
 GNU (one bucket, one bloom word).
 */
module SymbolHash {
  import opened Bytes
  import opened Wrappers

  type Name = seq<byte>

  datatype Error = TooFewSymbols | TooManySymbols

  // ----- The hash functions -----

  /** The top digit is folded back and cleared. */
  function Fold(v: bv32): (r: bv32)
    ensures r & 0xf000_0000 == 0
  {
    var high := v & 0xf000_0000;
    if high != 0 then (v ^ (high >> 24)) & !high else v
  }

  /** One step of the gABI hash. */
  function ElfStep(value: bv32, c: bv32): (r: bv32)
    ensures r & 0xf000_0000 == 0
  {
    Fold((value << 4) + c)
  }

  function ElfHash(name: Name): bv32 {
    if name == [] then 0 else ElfStep(ElfHash(name[..|name| - 1]), name[|name| - 1] as bv32)
  }

  method ComputeElfHash(name: Name) returns (value: bv32)
    ensures value == ElfHash(name)
    ensures value & 0xf000_0000 == 0
  {
    value := 0;
    for i := 0 to |name|
      invariant value == ElfHash(name[..i]) && value & 0xf000_0000 == 0
    {
      value := ElfStep(value, name[i] as bv32);
      assert name[..i + 1][..i] == name[..i];
    }
    assert name[..|name|] == name;
  }

  function GnuHash(name: Name): (h: nat)
    ensures h < TWO_32
  {
    if name == [] then 5381 else (GnuHash(name[..|name| - 1]) * 33 + name[|name| - 1]) % TWO_32
  }

  /** A step in arithmetic, but for the last sum: what exceeds 28 bits comes back one hexadecimal digit up. */
  lemma ElfStepIs(value: bv32, c: bv32)
    ensures var s := 16 * value + c; ElfStep(value, c) == (s % 0x1000_0000) ^ (16 * (s / 0x1000_0000))
  {
    hide Fold;
    FoldIs((value << 4) + c);
    TimesSixteen(value);
  }

  lemma TimesSixteen(x: bv32)
    ensures 16 * x == x << 4
  {
  }

  lemma FoldIs(v: bv32)
    ensures Fold(v) == (v % 0x1000_0000) ^ (16 * (v / 0x1000_0000))
  {
    hide Fold;
    FoldShifts(v);
    LowPart(v);
    HighPart(v);
    TimesSixteen(v >> 28);
  }

  lemma FoldShifts(v: bv32)
    ensures Fold(v) == (v & 0x0fff_ffff) ^ ((v >> 28) << 4)
  {
  }

  lemma LowPart(v: bv32)
    ensures v % 0x1000_0000 == v & 0x0fff_ffff
  {
  }

  lemma HighPart(v: bv32)
    ensures v / 0x1000_0000 == v >> 28
  {
  }

  predicate Hashes(name: Name, k: nat, v: bv32) {
    k <= |name| && ElfHash(name[..k]) == v
  }

  predicate StepsTo(v: bv32, c: byte, r: bv32) {
    ElfStep(v, c as bv32) == r
  }

  /** The hash of one letter more. */
  lemma ElfLetter(name: Name, k: nat, c: byte, v: bv32, r: bv32)
    requires Hashes(name, k, v) && k < |name| && name[k] == c && StepsTo(v, c, r)
    ensures Hashes(name, k + 1, r)
  {
    hide ElfStep;
    assert name[..k + 1][..k] == name[..k];
  }

  lemma NoLetters(name: Name)
    ensures Hashes(name, 0, 0)
  {
  }

  lemma AllLetters(name: Name, v: bv32)
    requires Hashes(name, |name|, v)
    ensures ElfHash(name) == v
  {
    hide ElfHash;
    assert name[..|name|] == name;
  }

  /** "printf" */
  const PRINTF: Name := [0x70, 0x72, 0x69, 0x6E, 0x74, 0x66]

  /** "JNI_OnLoad", long enough for digits to come back. */
  const JNI_ON_LOAD: Name := [0x4A, 0x4E, 0x49, 0x5F, 0x4F, 0x6E, 0x4C, 0x6F, 0x61, 0x64]

  lemma PrintfSteps()
    ensures StepsTo(0x0, 0x70, 0x70)
    ensures StepsTo(0x70, 0x72, 0x772)
    ensures StepsTo(0x772, 0x69, 0x7789)
    ensures StepsTo(0x7789, 0x6e, 0x778fe)
    ensures StepsTo(0x778fe, 0x74, 0x779054)
    ensures StepsTo(0x779054, 0x66, 0x77905a6)
  {
  }

  lemma ElfOfPrintf()
    ensures ElfHash(PRINTF) == 0x077905a6
  {
    hide Hashes, StepsTo, ElfHash;
    PrintfSteps();
    NoLetters(PRINTF);
    ElfLetter(PRINTF, 0, 0x70, 0x0, 0x70);
    ElfLetter(PRINTF, 1, 0x72, 0x70, 0x772);
    ElfLetter(PRINTF, 2, 0x69, 0x772, 0x7789);
    ElfLetter(PRINTF, 3, 0x6e, 0x7789, 0x778fe);
    ElfLetter(PRINTF, 4, 0x74, 0x778fe, 0x779054);
    ElfLetter(PRINTF, 5, 0x66, 0x779054, 0x77905a6);
    AllLetters(PRINTF, 0x77905a6);
  }

  lemma JniOnLoadSteps()
    ensures StepsTo(0x0, 0x4a, 0x4a)
    ensures StepsTo(0x4a, 0x4e, 0x4ee)
    ensures StepsTo(0x4ee, 0x49, 0x4f29)
    ensures StepsTo(0x4f29, 0x5f, 0x4f2ef)
    ensures StepsTo(0x4f2ef, 0x4f, 0x4f2f3f)
    ensures StepsTo(0x4f2f3f, 0x6e, 0x4f2f45e)
    ensures StepsTo(0x4f2f45e, 0x4c, 0xf2f466c)
    ensures StepsTo(0xf2f466c, 0x6f, 0x2f467df)
    ensures StepsTo(0x2f467df, 0x61, 0xf467e71)
    ensures StepsTo(0xf467e71, 0x64, 0x467e784)
  {
  }

  lemma ElfOfJniOnLoad()
    ensures ElfHash(JNI_ON_LOAD) == 0x0467e784
  {
    hide Hashes, StepsTo, ElfHash;
    JniOnLoadSteps();
    NoLetters(JNI_ON_LOAD);
    ElfLetter(JNI_ON_LOAD, 0, 0x4a, 0x0, 0x4a);
    ElfLetter(JNI_ON_LOAD, 1, 0x4e, 0x4a, 0x4ee);
    ElfLetter(JNI_ON_LOAD, 2, 0x49, 0x4ee, 0x4f29);
    ElfLetter(JNI_ON_LOAD, 3, 0x5f, 0x4f29, 0x4f2ef);
    ElfLetter(JNI_ON_LOAD, 4, 0x4f, 0x4f2ef, 0x4f2f3f);
    ElfLetter(JNI_ON_LOAD, 5, 0x6e, 0x4f2f3f, 0x4f2f45e);
    ElfLetter(JNI_ON_LOAD, 6, 0x4c, 0x4f2f45e, 0xf2f466c);
    ElfLetter(JNI_ON_LOAD, 7, 0x6f, 0xf2f466c, 0x2f467df);
    ElfLetter(JNI_ON_LOAD, 8, 0x61, 0x2f467df, 0xf467e71);
    ElfLetter(JNI_ON_LOAD, 9, 0x64, 0xf467e71, 0x467e784);
    AllLetters(JNI_ON_LOAD, 0x467e784);
  }

  function Pow33(n: nat): nat {
    if n == 0 then 1 else 33 * Pow33(n - 1)
  }

  /** The letters as digits in base 33, the first letter highest. */
  function Base33(name: Name): nat {
    if name == [] then 0 else name[0] * Pow33(|name| - 1) + Base33(name[1..])
  }

  lemma {:induction false} Base33Last(name: Name)
    requires name != []
    ensures Base33(name) == 33 * Base33(name[..|name| - 1]) + name[|name| - 1]
  {
    if |name| > 1 {
      var rest, init := name[1..], name[..|name| - 1];
      Base33Last(rest);
      assert rest[..|rest| - 1] == init[1..];
      assert Pow33(|name| - 1) == 33 * Pow33(|init| - 1);
      NextDigit(name[0], Pow33(|init| - 1));
    }
  }

  lemma NextDigit(c: nat, p: nat)
    ensures c * (33 * p) == 33 * (c * p)
  {
  }

  /** The whole GNU hash: 5381 in front of the letters, in base 33, cut to 32 bits. */
  lemma {:induction false} GnuHashIs(name: Name)
    ensures GnuHash(name) == (5381 * Pow33(|name|) + Base33(name)) % TWO_32
  {
    if name != [] {
      var init, c := name[..|name| - 1], name[|name| - 1];
      GnuHashIs(init);
      Base33Last(name);
      var x := 5381 * Pow33(|init|) + Base33(init);
      NextDigit(5381, Pow33(|init|));
      CutStep(x, c);
    }
  }

  lemma CutStep(x: nat, c: nat)
    ensures (x % TWO_32 * 33 + c) % TWO_32 == (33 * x + c) % TWO_32
  {
    var q := x / TWO_32;
    assert 33 * x + c == x % TWO_32 * 33 + c + 33 * q * TWO_32;
    MultipleAdds(x % TWO_32 * 33 + c, 33 * q);
  }

  lemma MultipleAdds(a: nat, q: nat)
    ensures (a + q * TWO_32) % TWO_32 == a % TWO_32
  {
  }

  lemma GnuOfPrintf()
    ensures GnuHash(PRINTF) == 0x156b_2bb8
  {
    assert PRINTF[..1] == [0x70] && PRINTF[..0] == [];
    assert GnuHash(PRINTF[..1]) == 177685;
    assert PRINTF[..2][..1] == PRINTF[..1] && GnuHash(PRINTF[..2]) == 5863719;
    assert PRINTF[..3][..2] == PRINTF[..2] && GnuHash(PRINTF[..3]) == 193502832;
    assert PRINTF[..4][..3] == PRINTF[..3] && GnuHash(PRINTF[..4]) == 2090626270;
    assert PRINTF[..5][..4] == PRINTF[..4] && GnuHash(PRINTF[..5]) == 271190290;
  }

  // ----- Words -----

  /** Word `k` of a table of 32-bit little-endian words; 0 past the end. */
  function WordAt(out: seq<byte>, k: nat): nat {
    if 4 * k + 4 <= |out| then Val(out[4 * k..4 * k + 4]) else 0
  }

  function Encode(values: seq<nat>): (out: seq<byte>)
    ensures |out| == 4 * |values|
  {
    if values == [] then [] else Encode(values[..|values| - 1]) + Le(values[|values| - 1], 4)
  }

  lemma {:induction false} EncodedWord(values: seq<nat>, k: nat)
    requires k < |values| && values[k] < TWO_32
    ensures WordAt(Encode(values), k) == values[k]
  {
    hide Val, Le;
    var n := |values| - 1;
    var out, init := Encode(values), Encode(values[..n]);
    if k == n {
      assert out[4 * k..4 * k + 4] == Le(values[k], 4);
      ValLe(values[k], 4);
      Pow2Words();
      ShrSmall(values[k], 32);
    } else {
      EncodedWord(values[..n], k);
      assert out[4 * k..4 * k + 4] == init[4 * k..4 * k + 4];
    }
  }

  /** The least symbol index from 1 on that has this name, or 0 (STN_UNDEF). */
  function FirstIndex(names: seq<Name>, name: Name, n: nat): (i: nat)
    requires n <= |names|
    ensures i < n || i == 0
    ensures i != 0 ==> names[i] == name && forall j :: 1 <= j < i ==> names[j] != name
    ensures i == 0 ==> forall j :: 1 <= j < n ==> names[j] != name
  {
    if n <= 1 then 0
    else
      var i := FirstIndex(names, name, n - 1);
      if i != 0 then i else if names[n - 1] == name then n - 1 else 0
  }

  // ----- System V -----

  /** The bucket a name falls into, of `n`. */
  function Slot(name: Name, n: nat): (b: nat)
    requires n > 0
    ensures b < n
  {
    ElfHash(name) as nat % n
  }

  function Bucket(names: seq<Name>, i: nat): (b: nat)
    requires i < |names|
    ensures b < |names|
  {
    Slot(names[i], |names|)
  }

  /** The symbols `1..n` of bucket `b`, in increasing order. */
  function Members(names: seq<Name>, b: nat, n: nat): seq<nat>
    requires n <= |names|
  {
    if n <= 1 then []
    else Members(names, b, n - 1) + if Bucket(names, n - 1) == b then [n - 1] else []
  }

  /** Each symbol is in its own bucket's list and no other, and the lists increase. */
  lemma {:induction false} MembersAre(names: seq<Name>, b: nat, n: nat)
    requires n <= |names|
    ensures forall i :: i in Members(names, b, n) <==> 1 <= i < n && Bucket(names, i) == b
    ensures forall k, l :: 0 <= k < l < |Members(names, b, n)| ==> Members(names, b, n)[k] < Members(names, b, n)[l]
  {
    hide Bucket;
    if n > 1 {
      MembersAre(names, b, n - 1);
      var m := Members(names, b, n - 1);
      assert forall k :: 0 <= k < |m| ==> m[k] in m;
    }
  }

  lemma MembersNext(names: seq<Name>, b: nat, n: nat)
    requires 1 <= n < |names|
    ensures Members(names, b, n + 1)
            == if Bucket(names, n) == b then Members(names, b, n) + [n] else Members(names, b, n)
  {
  }

  /** Following `chains` from `start` visits exactly `list` and then stops at 0. */
  predicate IsChain(chains: seq<nat>, start: nat, list: seq<nat>)
    decreases |list|
  {
    if list == [] then start == 0
    else start == list[0] && 0 < start < |chains| && IsChain(chains, chains[start], list[1..])
  }

  lemma {:induction false} ChainFrame(chains: seq<nat>, chains': seq<nat>, start: nat, list: seq<nat>)
    requires IsChain(chains, start, list) && |chains| == |chains'|
    requires forall i :: i in list && i < |chains| ==> chains'[i] == chains[i]
    ensures IsChain(chains', start, list)
    decreases |list|
  {
    if list != [] {
      ChainFrame(chains, chains', chains[start], list[1..]);
    }
  }

  /** Hanging a fresh symbol on the last one extends the chain by it. */
  lemma {:induction false} ChainExtends(chains: seq<nat>, start: nat, list: seq<nat>, i: nat)
    requires IsChain(chains, start, list) && list != []
    requires 0 < i < |chains| && chains[i] == 0 && i !in list
    requires forall k, l :: 0 <= k < l < |list| ==> list[k] < list[l]
    requires list[|list| - 1] < |chains|
    ensures IsChain(chains[list[|list| - 1] := i], start, list + [i])
    decreases |list|
  {
    var last := list[|list| - 1];
    var chains' := chains[last := i];
    assert list + [i] == [list[0]] + (list[1..] + [i]);
    if |list| == 1 {
      assert list[1..] + [i] == [i] && [i][1..] == [];
      assert chains[start] == 0;
      assert IsChain(chains', 0, []);
      assert IsChain(chains', i, [i]);
    } else {
      assert list[1..][|list| - 2] == last;
      ChainExtends(chains, chains[start], list[1..], i);
    }
  }

  /** All buckets' chains are complete up to symbol `n`. */
  ghost predicate Chained(names: seq<Name>, buckets: seq<nat>, chains: seq<nat>, n: nat) {
    && 1 <= n <= |names| == |buckets| == |chains|
    && (forall b :: 0 <= b < |names| ==> IsChain(chains, buckets[b], Members(names, b, n)))
    && (forall i :: n <= i < |names| ==> chains[i] == 0)
    && (forall i :: 0 <= i < |names| ==> chains[i] < |names| && buckets[i] < |names|)
  }

  /** Inserting symbol `n`: as the head of an empty bucket, or behind the last of its chain. */
  lemma Inserted(names: seq<Name>, buckets: seq<nat>, chains: seq<nat>, n: nat, buckets': seq<nat>, chains': seq<nat>)
    requires Chained(names, buckets, chains, n) && n < |names|
    requires var b := Bucket(names, n); var m := Members(names, b, n);
             if m == [] then buckets' == buckets[b := n] && chains' == chains
             else m[|m| - 1] < |chains| && buckets' == buckets && chains' == chains[m[|m| - 1] := n]
    ensures Chained(names, buckets', chains', n + 1)
  {
    hide Bucket, Members, IsChain;
    forall b | 0 <= b < |names|
      ensures IsChain(chains', buckets'[b], Members(names, b, n + 1))
    {
      InsertedBucket(names, buckets, chains, n, buckets', chains', b);
    }
    MembersAre(names, Bucket(names, n), n);
    var m := Members(names, Bucket(names, n), n);
    assert m != [] ==> m[|m| - 1] in m;
  }

  lemma InsertedBucket(names: seq<Name>, buckets: seq<nat>, chains: seq<nat>, n: nat, buckets': seq<nat>,
                       chains': seq<nat>, b: nat)
    requires Chained(names, buckets, chains, n) && n < |names| && b < |names| && Bucket(names, n) < |names|
    requires var b := Bucket(names, n); var m := Members(names, b, n);
             if m == [] then buckets' == buckets[b := n] && chains' == chains
             else m[|m| - 1] < |chains| && buckets' == buckets && chains' == chains[m[|m| - 1] := n]
    ensures IsChain(chains', buckets'[b], Members(names, b, n + 1))
  {
    hide Bucket, Members;
    var b0 := Bucket(names, n);
    var m := Members(names, b, n);
    MembersNext(names, b, n);
    MembersAre(names, b, n);
    MembersAre(names, b0, n);
    assert IsChain(chains, buckets[b], m);
    if b != b0 {
      ChainFrame(chains, chains', buckets[b], m);
    } else if m == [] {
      assert [n][1..] == [];
      assert IsChain(chains', 0, []);
    } else {
      ChainExtends(chains, buckets[b], m, n);
    }
  }

  // ----- The lookup of the dynamic linker -----

  /** From symbol `y` along the chain words to the symbol called `name`. */
  function SysvWalk(out: seq<byte>, names: seq<Name>, name: Name, y: nat, fuel: nat): nat
    decreases fuel
  {
    if fuel == 0 || y == 0 || y >= |names| then 0
    else if names[y] == name then y
    else SysvWalk(out, names, name, WordAt(out, 2 + WordAt(out, 0) + y), fuel - 1)
  }

  /** The gABI lookup; a chain is at most as long as the symbol table. */
  function SysvLookup(out: seq<byte>, names: seq<Name>, name: Name): nat {
    if WordAt(out, 0) == 0 then 0
    else SysvWalk(out, names, name, WordAt(out, 2 + Slot(name, WordAt(out, 0))), |names|)
  }

  /** The table's words are the two counts, the buckets and the chains. */
  function SysvWords(buckets: seq<nat>, chains: seq<nat>): seq<nat> {
    [|buckets|, |chains|] + buckets + chains
  }

  /** The first symbol of `list` called `name`. */
  function FirstIn(names: seq<Name>, list: seq<nat>, name: Name): nat {
    if list == [] then 0
    else if list[0] < |names| && names[list[0]] == name then list[0]
    else FirstIn(names, list[1..], name)
  }

  lemma {:induction false} FirstInAppend(names: seq<Name>, list: seq<nat>, i: nat, name: Name)
    requires forall k :: 0 <= k < |list| ==> list[k] != 0
    ensures var r := FirstIn(names, list, name);
            FirstIn(names, list + [i], name) == if r != 0 then r else FirstIn(names, [i], name)
  {
    if list == [] {
      assert list + [i] == [i];
    } else {
      assert (list + [i])[1..] == list[1..] + [i];
      FirstInAppend(names, list[1..], i, name);
    }
  }

  /** A name can only be found in its own bucket, and the first there is the first of all. */
  lemma {:induction false} FirstInBucket(names: seq<Name>, name: Name, b: nat, n: nat)
    requires n <= |names| && |names| > 0 && b == Slot(name, |names|)
    ensures FirstIn(names, Members(names, b, n), name) == FirstIndex(names, name, n)
  {
    if n > 1 {
      FirstInBucket(names, name, b, n - 1);
      OwnBucket(names, name, n - 1);
      BucketStep(names, name, b, n);
    }
  }

  lemma OwnBucket(names: seq<Name>, name: Name, i: nat)
    requires i < |names|
    ensures names[i] == name ==> Bucket(names, i) == Slot(name, |names|)
  {
    hide Slot;
  }

  lemma NothingInserted(names: seq<Name>, buckets: seq<nat>, chains: seq<nat>)
    requires 1 <= |names| == |buckets| == |chains|
    requires forall i :: 0 <= i < |names| ==> buckets[i] == 0 && chains[i] == 0
    ensures Chained(names, buckets, chains, 1)
  {
  }

  lemma BucketStep(names: seq<Name>, name: Name, b: nat, n: nat)
    requires 1 < n <= |names| && (names[n - 1] == name ==> Bucket(names, n - 1) == b)
    requires FirstIn(names, Members(names, b, n - 1), name) == FirstIndex(names, name, n - 1)
    ensures FirstIn(names, Members(names, b, n), name) == FirstIndex(names, name, n)
  {
    hide Bucket;
    var m := Members(names, b, n - 1);
    MembersAre(names, b, n - 1);
    assert forall k :: 0 <= k < |m| ==> m[k] in m;
    FirstInAppend(names, m, n - 1, name);
    assert [n - 1][1..] == [] && m + [] == m;
  }

  lemma {:induction false} WalkFinds(names: seq<Name>, buckets: seq<nat>, chains: seq<nat>, name: Name, y: nat,
                                     list: seq<nat>, fuel: nat)
    requires |buckets| == |chains| == |names| < TWO_32
    requires forall i :: 0 <= i < |names| ==> chains[i] < |names|
    requires IsChain(chains, y, list) && fuel >= |list|
    ensures SysvWalk(Encode(SysvWords(buckets, chains)), names, name, y, fuel) == FirstIn(names, list, name)
    decreases fuel
  {
    hide Encode, WordAt;
    if list != [] {
      var words := SysvWords(buckets, chains);
      EncodedWord(words, 0);
      assert words[2 + |names| + y] == chains[y];
      EncodedWord(words, 2 + |names| + y);
      WalkFinds(names, buckets, chains, name, chains[y], list[1..], fuel - 1);
    }
  }

  lemma MembersFit(names: seq<Name>, b: nat, n: nat)
    requires n <= |names|
    ensures |Members(names, b, n)| <= n
  {
    if n > 1 {
      MembersFit(names, b, n - 1);
    }
  }

  /** The head of the table: the bucket count and the first symbol of bucket `b`. */
  lemma SysvHead(names: seq<Name>, buckets: seq<nat>, chains: seq<nat>, b: nat)
    requires |buckets| == |chains| == |names| < TWO_32 && b < |names| && buckets[b] < |names|
    ensures var out := Encode(SysvWords(buckets, chains));
            WordAt(out, 0) == WordAt(out, 1) == |names| && WordAt(out, 2 + b) == buckets[b]
  {
    hide Encode, WordAt;
    var words := SysvWords(buckets, chains);
    EncodedWord(words, 0);
    EncodedWord(words, 1);
    assert words[2 + b] == buckets[b];
    EncodedWord(words, 2 + b);
  }

  /** The table answers every lookup like a search through the symbols, hit or miss. */
  lemma SysvLookupCorrect(names: seq<Name>, buckets: seq<nat>, chains: seq<nat>, name: Name)
    requires Chained(names, buckets, chains, |names|) && |names| < TWO_32
    ensures SysvLookup(Encode(SysvWords(buckets, chains)), names, name) == FirstIndex(names, name, |names|)
  {
    hide Encode, WordAt, Slot, SysvWords, SysvWalk, Members, FirstIn;
    var b := Slot(name, |names|);
    SysvHead(names, buckets, chains, b);
    MembersFit(names, b, |names|);
    WalkFinds(names, buckets, chains, name, buckets[b], Members(names, b, |names|), |names|);
    FirstInBucket(names, name, b, |names|);
  }

  /**
   Build the table. Each bucket's chain lists exactly the bucket's symbols in
   increasing order, so the walk to its end terminates, every symbol is on
   exactly one chain, and lookups on the bytes find what a search would.
   */
  method BuildSysvHash(names: seq<Name>) returns (r: Result<seq<byte>, Error>)
    ensures r.Ok? <==> 2 <= |names| < TWO_32
    ensures r.Ok? ==>
            exists buckets, chains ::
              Chained(names, buckets, chains, |names|) && r.value == Encode(SysvWords(buckets, chains))
    ensures r.Ok? ==> |r.value| == 4 * (2 + 2 * |names|) && WordAt(r.value, 0) == WordAt(r.value, 1) == |names|
    ensures r.Ok? ==> forall name :: SysvLookup(r.value, names, name) == FirstIndex(names, name, |names|)
  {
    hide Encode, Slot, Bucket, SysvLookup, Chained, SysvWords, WordAt;
    if |names| < 2 {
      return Err(TooFewSymbols);
    }
    var n := |names|;
    var buckets, chains := new nat[n](_ => 0), new nat[n](_ => 0);
    NothingInserted(names, buckets[..], chains[..]);
    for i := 1 to n
      invariant Chained(names, buckets[..], chains[..], i)
    {
      if i >= TWO_32 {
        return Err(TooManySymbols);
      }
      InsertSymbol(names, buckets, chains, i);
    }
    if n >= TWO_32 {
      return Err(TooManySymbols);
    }
    var out := Encode(SysvWords(buckets[..], chains[..]));
    SysvCounts(names, buckets[..], chains[..]);
    forall name
      ensures SysvLookup(out, names, name) == FirstIndex(names, name, |names|)
    {
      SysvLookupCorrect(names, buckets[..], chains[..], name);
    }
    return Ok(out);
  }

  lemma SysvCounts(names: seq<Name>, buckets: seq<nat>, chains: seq<nat>)
    requires 2 <= |names| < TWO_32 && Chained(names, buckets, chains, |names|)
    ensures var out := Encode(SysvWords(buckets, chains));
            |out| == 4 * (2 + 2 * |names|) && WordAt(out, 0) == WordAt(out, 1) == |names|
  {
    hide Encode, WordAt, Members;
    MembersAre(names, 0, |names|);
    SysvHead(names, buckets, chains, 0);
  }

  method InsertSymbol(names: seq<Name>, buckets: array<nat>, chains: array<nat>, i: nat)
    requires buckets != chains && Chained(names, buckets[..], chains[..], i) && i < |names|
    modifies buckets, chains
    ensures Chained(names, buckets[..], chains[..], i + 1)
  {
    hide Bucket;
    var b := BucketOf(names, i);
    ghost var m := Members(names, b, i);
    ghost var buckets0, chains0 := buckets[..], chains[..];
    MembersAre(names, b, i);
    assert IsChain(chains0, buckets0[b], m);
    assert forall k :: 0 <= k < |m| ==> m[k] in m;
    if buckets[b] == 0 {
      buckets[b] := i;
      assert m == [];
      Inserted(names, buckets0, chains0, i, buckets[..], chains[..]);
      return;
    }
    var at := buckets[b];
    ghost var k := 0;
    while chains[at] != 0
      invariant 0 <= k < |m| && m[k] == at < |names| && IsChain(chains0, at, m[k..])
      decreases |m| - k
    {
      assert m[k..][1..] == m[k + 1..];
      at := chains[at];
      k := k + 1;
    }
    assert m[k..][1..] == m[k + 1..];
    assert k == |m| - 1;
    chains[at] := i;
    Inserted(names, buckets0, chains0, i, buckets[..], chains[..]);
  }

  method BucketOf(names: seq<Name>, i: nat) returns (b: nat)
    requires i < |names|
    ensures b == Bucket(names, i)
  {
    hide ElfHash;
    var hash := ComputeElfHash(names[i]);
    b := hash as nat % |names|;
  }

  // ----- GNU -----

  const BLOOM_SHIFT: nat := 5

  /** `x` with bit `k` set. */
  function SetBit(x: nat, k: nat): nat
    decreases k
  {
    if k == 0 then x - x % 2 + 1 else x % 2 + 2 * SetBit(x / 2, k - 1)
  }

  lemma {:induction false} SetBitIs(x: nat, k: nat, j: nat)
    ensures BitAt(SetBit(x, k), j) == if j == k then 1 else BitAt(x, j)
    decreases k
  {
    var y := SetBit(x, k);
    if k > 0 && j > 0 {
      SetBitIs(x / 2, k - 1, j - 1);
      assert y / 2 == SetBit(x / 2, k - 1);
    } else if j > 0 {
      assert y / 2 == x / 2;
    }
  }

  lemma {:induction false} SetBitBound(x: nat, k: nat, n: nat)
    requires x < Pow2(n) && k < n
    ensures SetBit(x, k) < Pow2(n)
    decreases k
  {
    if k > 0 {
      SetBitBound(x / 2, k - 1, n - 1);
    }
  }

  /** The bloom word admits a hash when both of its bits are set. */
  predicate Admits(bloom: nat, h: nat) {
    BitAt(bloom, h % 64) == 1 && BitAt(bloom, h / 32 % 64) == 1
  }

  /** Symbol `i` has bit `k` set in the bloom word. */
  predicate Sets(names: seq<Name>, i: nat, k: nat)
    requires i < |names|
  {
    k == GnuHash(names[i]) % 64 || k == GnuHash(names[i]) / 32 % 64
  }

  /** The bits of the bloom word are those that the symbols `1..n` set, and no other. */
  ghost predicate BloomOf(names: seq<Name>, n: nat, bloom: nat)
    requires n <= |names|
  {
    bloom < TWO_64 && forall k: nat :: k < 64 ==>
      (BitAt(bloom, k) == 1 <==> exists i :: 1 <= i < n && Sets(names, i, k))
  }

  lemma BloomAdmits(names: seq<Name>, bloom: nat, i: nat)
    requires BloomOf(names, |names|, bloom) && 1 <= i < |names|
    ensures Admits(bloom, GnuHash(names[i]))
  {
    hide GnuHash, BitAt;
    var h := GnuHash(names[i]);
    assert Sets(names, i, h % 64) && Sets(names, i, h / 32 % 64);
  }

  /** The hash with the lowest bit cleared; that bit marks the end of a chain. */
  function Even(h: nat): nat {
    h - h % 2
  }

  /** One chain word per symbol from 1 on; only the last is marked. */
  function GnuChains(names: seq<Name>): (c: seq<nat>)
    requires |names| >= 2
    ensures |c| == |names| - 1
    ensures forall i {:trigger c[i]} :: 0 <= i < |c| ==>
            c[i] == Even(GnuHash(names[i + 1])) + if i == |c| - 1 then 1 else 0
  {
    seq(|names| - 1, i requires 0 <= i < |names| - 1 => Even(GnuHash(names[i + 1])) + if i == |names| - 2 then 1 else 0)
  }

  /** Words of the table: bucket count, first symbol, bloom size, shift; bloom word; bucket; chains. */
  function GnuTable(bloom: nat, chains: seq<nat>): seq<byte> {
    Encode([1, 1, 1, BLOOM_SHIFT]) + Le(bloom, 8) + Encode([1]) + Encode(chains)
  }

  /** The linker's walk from symbol `i`, whose chain words start at word `base`. */
  function GnuWalk(out: seq<byte>, names: seq<Name>, name: Name, base: nat, first: nat, i: nat): nat
    decreases |names| - i
  {
    if i >= |names| || i < first then 0
    else
      var c := WordAt(out, base + (i - first));
      if Even(c) == Even(GnuHash(name)) && names[i] == name then i
      else if c % 2 == 1 then 0
      else GnuWalk(out, names, name, base, first, i + 1)
  }

  /** The linker's lookup: bloom filter, bucket, chain. */
  function GnuLookup(out: seq<byte>, names: seq<Name>, name: Name): nat {
    var buckets, first, bloomSize, shift := WordAt(out, 0), WordAt(out, 1), WordAt(out, 2), WordAt(out, 3);
    if buckets == 0 || bloomSize == 0 then 0
    else
      var h := GnuHash(name);
      var at := 16 + 8 * (h / 64 % bloomSize);
      if at + 8 > |out| then 0
      else
        var bloom := Val(out[at..at + 8]);
        if BitAt(bloom, h % 64) == 0 || BitAt(bloom, Shr(h, shift) % 64) == 0 then 0
        else
          var base := 4 + 2 * bloomSize;
          var start := WordAt(out, base + h % buckets);
          GnuWalk(out, names, name, base + buckets, first, start)
  }

  lemma WordIn(a: seq<byte>, b: seq<byte>, c: seq<byte>, k: nat)
    requires |a| % 4 == 0 && |b| % 4 == 0 && 4 * k + 4 <= |b|
    ensures WordAt(a + b + c, |a| / 4 + k) == WordAt(b, k)
  {
    var out, o := a + b + c, 4 * (|a| / 4 + k);
    assert o == |a| + 4 * k;
    assert out[o..o + 4] == b[4 * k..4 * k + 4];
  }

  lemma GnuHead(bloom: nat, chains: seq<nat>)
    ensures var out := GnuTable(bloom, chains);
            |out| == 28 + 4 * |chains| && WordAt(out, 0) == 1 && WordAt(out, 1) == 1 && WordAt(out, 2) == 1
              && WordAt(out, 3) == BLOOM_SHIFT
  {
    hide Val, Le, WordAt, Encode;
    var words := [1, 1, 1, BLOOM_SHIFT];
    var out, rest := GnuTable(bloom, chains), Le(bloom, 8) + Encode([1]) + Encode(chains);
    assert out == [] + Encode(words) + rest;
    EncodedWord(words, 0);
    WordIn([], Encode(words), rest, 0);
    EncodedWord(words, 1);
    WordIn([], Encode(words), rest, 1);
    EncodedWord(words, 2);
    WordIn([], Encode(words), rest, 2);
    EncodedWord(words, 3);
    WordIn([], Encode(words), rest, 3);
  }

  lemma GnuBloom(bloom: nat, chains: seq<nat>)
    requires bloom < TWO_64
    ensures |GnuTable(bloom, chains)| >= 24 && Val(GnuTable(bloom, chains)[16..24]) == bloom
  {
    hide Val, Le, Encode, Low;
    assert GnuTable(bloom, chains)[16..24] == Le(bloom, 8);
    ValLe(bloom, 8);
    Pow2Words();
    ShrSmall(bloom, 64);
  }

  lemma GnuTail(bloom: nat, chains: seq<nat>)
    requires forall i :: 0 <= i < |chains| ==> chains[i] < TWO_32
    ensures var out := GnuTable(bloom, chains);
            WordAt(out, 6) == 1 && forall i: nat :: i < |chains| ==> WordAt(out, 7 + i) == chains[i]
  {
    hide Val, Le, WordAt, Encode;
    var head, tail := Encode([1, 1, 1, BLOOM_SHIFT]) + Le(bloom, 8), Encode([1]);
    var out := GnuTable(bloom, chains);
    EncodedWord([1], 0);
    assert out == head + tail + Encode(chains);
    WordIn(head, tail, Encode(chains), 0);
    assert out == (head + tail) + Encode(chains) + [];
    forall i: nat | i < |chains|
      ensures WordAt(out, 7 + i) == chains[i]
    {
      EncodedWord(chains, i);
      WordIn(head + tail, Encode(chains), [], i);
    }
  }

  lemma GnuTableWords(bloom: nat, chains: seq<nat>)
    requires bloom < TWO_64 && forall i :: 0 <= i < |chains| ==> chains[i] < TWO_32
    ensures var out := GnuTable(bloom, chains);
            && |out| == 28 + 4 * |chains|
            && WordAt(out, 0) == 1 && WordAt(out, 1) == 1 && WordAt(out, 2) == 1 && WordAt(out, 3) == BLOOM_SHIFT
            && Val(out[16..24]) == bloom && WordAt(out, 6) == 1
            && forall i: nat :: i < |chains| ==> WordAt(out, 7 + i) == chains[i]
  {
    hide Val, WordAt, GnuTable;
    GnuHead(bloom, chains);
    GnuBloom(bloom, chains);
    GnuTail(bloom, chains);
  }

  /** The least index from `i` on that has this name, or 0. */
  function FirstFrom(names: seq<Name>, name: Name, i: nat): nat
    decreases |names| - i
  {
    if i >= |names| then 0 else if names[i] == name then i else FirstFrom(names, name, i + 1)
  }

  lemma {:induction false} FirstFromIsFirst(names: seq<Name>, name: Name, i: nat)
    requires 1 <= i <= |names| && forall j :: 1 <= j < i ==> names[j] != name
    ensures FirstFrom(names, name, i) == FirstIndex(names, name, |names|)
    decreases |names| - i
  {
    if i < |names| && names[i] != name {
      FirstFromIsFirst(names, name, i + 1);
    }
  }

  lemma {:induction false} GnuWalkFinds(out: seq<byte>, names: seq<Name>, name: Name, i: nat)
    requires |names| >= 2 && 1 <= i < |names|
    requires forall k: nat :: k < |names| - 1 ==> WordAt(out, 7 + k) == GnuChains(names)[k]
    ensures GnuWalk(out, names, name, 7, 1, i) == FirstFrom(names, name, i)
    decreases |names| - i
  {
    hide WordAt, GnuHash;
    var c := WordAt(out, 7 + (i - 1));
    assert c == GnuChains(names)[i - 1];
    EvenParts(GnuHash(names[i]));
    if i + 1 < |names| {
      GnuWalkFinds(out, names, name, i + 1);
    }
  }

  lemma EvenParts(h: nat)
    ensures Even(h) % 2 == 0 && Even(Even(h)) == Even(h) && Even(Even(h) + 1) == Even(h) && (Even(h) + 1) % 2 == 1
  {
  }

  /** Every present name passes the bloom filter and is found; every absent one is refused somewhere. */
  lemma GnuLookupCorrect(names: seq<Name>, bloom: nat, name: Name)
    requires |names| >= 2 && bloom < TWO_64
    requires forall i :: 1 <= i < |names| ==> Admits(bloom, GnuHash(names[i]))
    ensures GnuLookup(GnuTable(bloom, GnuChains(names)), names, name) == FirstIndex(names, name, |names|)
  {
    hide Val, WordAt, BitAt, GnuHash, GnuTable;
    var chains := GnuChains(names);
    var out := GnuTable(bloom, chains);
    GnuTableWords(bloom, chains);
    var h := GnuHash(name);
    assert Shr(h, BLOOM_SHIFT) == h / 32 by {
      ShiftFive(h);
    }
    assert h / 64 % 1 == 0 && h % 1 == 0;
    GnuWalkFinds(out, names, name, 1);
    FirstFromIsFirst(names, name, 1);
    assert FirstIndex(names, name, |names|) != 0 ==> Admits(bloom, h);
  }

  lemma ShiftFive(h: nat)
    ensures Shr(h, 5) == h / 32
  {
    LowShr(h, 5);
    LowBound(h, 5);
    assert Pow2(4) == 16;
    assert Pow2(5) == 32;
  }

  /** The bloom word of all symbols from 1 on. */
  method BloomWord(names: seq<Name>) returns (bloom: nat)
    requires |names| >= 2
    ensures BloomOf(names, |names|, bloom)
  {
    hide GnuHash, BloomOf;
    bloom := 0;
    NoBloom(names);
    for i := 1 to |names|
      invariant BloomOf(names, i, bloom)
    {
      bloom := AdmitHash(bloom, GnuHash(names[i]), names, i);
    }
  }

  lemma NoBloom(names: seq<Name>)
    requires |names| >= 1
    ensures BloomOf(names, 1, 0)
  {
    hide BitAt;
    forall k: nat
      ensures BitAt(0, k) == 0
    {
      NoBit(k);
    }
  }

  lemma NoBit(k: nat)
    ensures BitAt(0, k) == 0
  {
    ShrAtMost(0, k);
  }

  method ChainWords(names: seq<Name>) returns (chains: seq<nat>)
    requires |names| >= 2
    ensures chains == GnuChains(names)
  {
    hide GnuHash;
    chains := seq(|names| - 1, i requires 0 <= i < |names| - 1 => Even(GnuHash(names[i + 1])));
    var last := |chains| - 1;
    chains := chains[last := chains[last] + 1];
  }

  /** Build the one-bucket table; lookups on its bytes find what a search would, hit or miss. */
  method BuildGnuHash(names: seq<Name>) returns (r: Result<seq<byte>, Error>)
    ensures r.Ok? <==> |names| >= 2
    ensures r.Ok? ==> forall name :: GnuLookup(r.value, names, name) == FirstIndex(names, name, |names|)
    ensures r.Ok? ==>
            exists bloom ::
              r.value == GnuTable(bloom, GnuChains(names)) && BloomOf(names, |names|, bloom)
  {
    hide GnuHash, Admits, GnuTable, GnuLookup, GnuChains, BloomOf;
    if |names| < 2 {
      return Err(TooFewSymbols);
    }
    var bloom := BloomWord(names);
    var chains := ChainWords(names);
    var out := GnuTable(bloom, chains);
    BloomFits(names, |names|, bloom);
    forall i | 1 <= i < |names|
      ensures Admits(bloom, GnuHash(names[i]))
    {
      BloomAdmits(names, bloom, i);
    }
    forall name
      ensures GnuLookup(out, names, name) == FirstIndex(names, name, |names|)
    {
      GnuLookupCorrect(names, bloom, name);
    }
    return Ok(out);
  }

  lemma BloomFits(names: seq<Name>, n: nat, bloom: nat)
    requires n <= |names| && BloomOf(names, n, bloom)
    ensures bloom < TWO_64
  {
  }

  method AdmitHash(bloom: nat, h: nat, ghost names: seq<Name>, ghost i: nat) returns (bloom': nat)
    requires 1 <= i < |names| && BloomOf(names, i, bloom) && h == GnuHash(names[i])
    ensures BloomOf(names, i + 1, bloom')
  {
    hide GnuHash, BitAt, SetBit, BloomOf;
    BloomFits(names, i, bloom);
    Pow2Words();
    bloom' := SetBit(bloom, h % 64);
    SetBitBound(bloom, h % 64, 64);
    ghost var first := bloom';
    bloom' := SetBit(bloom', h / 32 % 64);
    SetBitBound(first, h / 32 % 64, 64);
    forall k: nat
      ensures BitAt(bloom', k) == if k == h % 64 || k == h / 32 % 64 then 1 else BitAt(bloom, k)
    {
      SetBitIs(bloom, h % 64, k);
      SetBitIs(first, h / 32 % 64, k);
    }
    BloomGrows(names, i, bloom, bloom');
  }

  lemma BloomGrows(names: seq<Name>, i: nat, bloom: nat, bloom': nat)
    requires 1 <= i < |names| && BloomOf(names, i, bloom) && bloom' < TWO_64
    requires forall k: nat :: BitAt(bloom', k) == if Sets(names, i, k) then 1 else BitAt(bloom, k)
    ensures BloomOf(names, i + 1, bloom')
  {
    hide BitAt, Sets;
    forall k: nat | k < 64
      ensures BitAt(bloom', k) == 1 <==> exists j :: 1 <= j < i + 1 && Sets(names, j, k)
    {
      if BitAt(bloom', k) == 1 && !Sets(names, i, k) {
        var j :| 1 <= j < i && Sets(names, j, k);
        assert 1 <= j < i + 1 && Sets(names, j, k);
      }
    }
  }
}
