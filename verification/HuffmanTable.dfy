/**
 The three-byte-per-entry Huffman forest and the walk that finds one code.

 Entry `i` is a little-endian 16-bit word (top bit: leaf; low 15 bits: symbol,
 or index of the child pair) followed by one width byte, used at a root only.
 */
module HuffmanTable {
  import opened Bytes
  import opened Wrappers

  datatype Failure =
    | SourceTooLarge(size: nat, max: nat)
    | InvalidCodeLength(bits: nat)
    | HuffmanTraversalLimit
    | PendingLengthOverflow(pending: nat)
    | OutputOverflow(written: nat, step: nat, expected: nat)
    | RunFillBeforeOutput(width: nat, destination: nat)
    | InvalidRunFillWidth(width: nat)
    | InvalidBackReference(distance: nat, written: nat)
    | NoProgress
    | OutputSizeMismatch(written: nat, expected: nat, consumed: nat, sourceSize: nat)

  /** What a walk finds: a symbol and its width, a corrupt code, or an entry that does not exist. */
  datatype Code = Code(sym: nat, bits: nat) | NoCode(failure: Failure) | OutOfTable

  /** Where entries are read: a copied table, or the image that is being written, from `key` on. */
  datatype Table = Snapshot(bytes: seq<byte>) | InPlace(key: nat)

  const LEAF: nat := 0x8000
  const ROOTS: nat := 256
  const MAX_DEPTH: nat := 64

  /** Offset of an in-place entry; the source computes it in 32 bits. */
  function Addr(key: nat, idx: nat): nat {
    (key + 3 * idx) % TWO_32
  }

  /** The 16-bit word of entry `idx`; a snapshot checks all three bytes of the entry. */
  function Raw(t: Table, mem: seq<byte>, idx: nat): (r: Option<nat>)
    ensures r.Some? ==> r.value < 0x1_0000
  {
    match t
    case Snapshot(s) =>
      if 3 * idx + 3 <= |s| then Some(U16(s[3 * idx], s[3 * idx + 1])) else None
    case InPlace(key) =>
      var a := Addr(key, idx);
      if a + 2 <= |mem| then Some(U16(mem[a], mem[a + 1])) else None
  }

  /** The width byte of entry `idx`. */
  function Width(t: Table, mem: seq<byte>, idx: nat): Option<byte> {
    match t
    case Snapshot(s) => if 3 * idx + 3 <= |s| then Some(s[3 * idx + 2]) else None
    case InPlace(key) =>
      var a := Addr(key, idx);
      if a + 3 <= |mem| then Some(mem[a + 2]) else None
  }

  /** Walk down from entry `idx` after `b` bits, at most 64 levels below the first child. */
  function Descend(t: Table, mem: seq<byte>, word: nat, idx: nat, b: nat, depth: nat): Code
    requires depth <= MAX_DEPTH
    decreases MAX_DEPTH - depth
  {
    match Raw(t, mem, idx)
    case None => OutOfTable
    case Some(raw) =>
      if raw >= LEAF then Code(raw - LEAF, b)
      else if depth == MAX_DEPTH then NoCode(HuffmanTraversalLimit)
      else Descend(t, mem, word, raw + BitAt(word, b), b + 1, depth + 1)
  }

  /** The code at the start of the 32-bit look-ahead `word`. */
  function ReadCode(t: Table, mem: seq<byte>, word: nat): Code {
    FromRoot(t, mem, word, Raw(t, mem, word % ROOTS), Width(t, mem, word % ROOTS))
  }

  function FromRoot(t: Table, mem: seq<byte>, word: nat, raw: Option<nat>, width: Option<byte>): Code {
    if raw.None? || width.None? then OutOfTable
    else if raw.value >= LEAF then Code(raw.value - LEAF, width.value)
    else if width.value >= 32 then NoCode(InvalidCodeLength(width.value))
    else Descend(t, mem, word, raw.value + BitAt(word, width.value), width.value + 1, 0)
  }

  // ----- The closure that a snapshot copies -----

  /** `s` holds every root and the children of its non-leaves, and each of its entries ends before `limit`. */
  ghost predicate ClosedUnder(mem: seq<byte>, key: nat, limit: nat, s: set<nat>) {
    && key <= limit <= |mem|
    && (forall i: nat :: i < ROOTS ==> i in s)
    && (forall i :: i in s ==> key + 3 * i + 3 <= limit)
    && (forall i {:trigger ChildrenIn(mem, key, i, s)} :: i in s ==> ChildrenIn(mem, key, i, s))
  }

  /** Both children of entry `i` are in `s`, unless it is a leaf. */
  ghost predicate ChildrenIn(mem: seq<byte>, key: nat, i: nat, s: set<nat>) {
    EntryAt(mem, key, i) < LEAF ==> EntryAt(mem, key, i) in s && EntryAt(mem, key, i) + 1 in s
  }

  /** The 16-bit word of the entry at `key`, or 0 past the end. */
  function EntryAt(mem: seq<byte>, key: nat, idx: nat): nat {
    if key + 3 * idx + 2 <= |mem| then U16(mem[key + 3 * idx], mem[key + 3 * idx + 1]) else 0
  }

  /** Every entry reachable from the 256 roots lies before `limit`. */
  ghost predicate Closed(mem: seq<byte>, key: nat, limit: nat) {
    exists s :: ClosedUnder(mem, key, limit, s)
  }

  ghost function Elements(s: seq<nat>): set<nat> {
    set i | i in s
  }

  lemma {:induction false} CardinalityBelow(s: set<nat>, n: nat)
    requires forall i :: i in s ==> i < n
    ensures |s| <= n
  {
    if n > 0 {
      CardinalityBelow(s - {n - 1}, n - 1);
    } else {
      assert s == {};
    }
  }

  /**
   The search has visited `seen` and still has to visit `todo`: every root and
   every child of a visited entry is in one of them, and nothing in either
   can be left out of a closed table.
   */
  ghost predicate Explored(mem: seq<byte>, key: nat, seen: set<nat>, todo: set<nat>, maxIdx: nat) {
    && (forall i: nat :: i < ROOTS ==> i in seen + todo)
    && (forall i :: i in seen ==> key + 3 * i + 3 <= |mem|)
    && (forall i :: i in seen + todo ==> i <= maxIdx && i <= LEAF)
    && (forall i {:trigger ChildrenIn(mem, key, i, seen + todo)} :: i in seen ==> ChildrenIn(mem, key, i, seen + todo))
    && (forall limit, s :: ClosedUnder(mem, key, limit, s) ==> maxIdx in s && seen + todo <= s)
  }

  lemma VisitEntry(mem: seq<byte>, key: nat, seen: set<nat>, todo: set<nat>, maxIdx: nat, idx: nat, todo': set<nat>)
    requires Explored(mem, key, seen, todo, maxIdx) && todo <= todo' + {idx}
    requires idx in todo && key + 3 * idx + 3 <= |mem|
    requires var t := EntryAt(mem, key, idx); todo' <= if t < LEAF then todo + {t, t + 1} else todo
    requires ChildrenIn(mem, key, idx, todo')
    ensures var t := EntryAt(mem, key, idx);
            Explored(mem, key, seen + {idx}, todo', if t < LEAF && t + 1 > maxIdx then t + 1 else maxIdx)
  {
    var t := EntryAt(mem, key, idx);
    var seen' := seen + {idx};
    assert seen + todo <= seen' + todo';
    forall i | i in seen'
      ensures ChildrenIn(mem, key, i, seen' + todo')
    {
      if i in seen {
        assert ChildrenIn(mem, key, i, seen + todo);
      }
    }
    forall limit, s | ClosedUnder(mem, key, limit, s)
      ensures seen' + todo' <= s && (t < LEAF ==> t + 1 in s) && maxIdx in s
    {
      assert ChildrenIn(mem, key, idx, s);
    }
  }

  lemma InitiallyExplored(mem: seq<byte>, key: nat, todo: set<nat>)
    requires forall i: nat :: i in todo <==> i < ROOTS
    ensures Explored(mem, key, {}, todo, ROOTS - 1)
  {
    assert {} + todo == todo;
  }

  /** An entry that has to be visited but does not fit rules out every closed set. */
  lemma MissingEntry(mem: seq<byte>, key: nat, seen: set<nat>, todo: set<nat>, maxIdx: nat, idx: nat)
    requires Explored(mem, key, seen, todo, maxIdx) && idx in todo
    requires key + 3 * idx + 3 > |mem|
    ensures IsSnapshot(mem, key, None)
  {
    forall s ensures !ClosedUnder(mem, key, |mem|, s) {
      assert ClosedUnder(mem, key, |mem|, s) ==> idx in s;
    }
  }

  /** `r` copies the table at `key` up to the last reachable entry; there is none if one is missing. */
  ghost predicate IsSnapshot(mem: seq<byte>, key: nat, r: Option<seq<byte>>) {
    && (r.Some? <==> Closed(mem, key, |mem|))
    && (r.Some? ==>
          && key + |r.value| <= |mem| && r.value == mem[key..key + |r.value|]
          && Closed(mem, key, key + |r.value|)
          && forall limit :: Closed(mem, key, limit) ==> key + |r.value| <= limit)
  }

  lemma SeenIsClosed(mem: seq<byte>, key: nat, seen: set<nat>, maxIdx: nat, limit: nat)
    requires Explored(mem, key, seen, {}, maxIdx) && key + (maxIdx + 1) * 3 <= limit <= |mem|
    ensures ClosedUnder(mem, key, limit, seen)
  {
    hide ChildrenIn;
    assert seen + {} == seen;
    forall i | i in seen
      ensures ChildrenIn(mem, key, i, seen)
    {
      assert ChildrenIn(mem, key, i, seen + {});
    }
  }

  lemma ClosedReachesEnd(mem: seq<byte>, key: nat, seen: set<nat>, maxIdx: nat, limit: nat)
    requires Explored(mem, key, seen, {}, maxIdx) && Closed(mem, key, limit)
    ensures key + (maxIdx + 1) * 3 <= limit
  {
    hide ChildrenIn;
    var s :| ClosedUnder(mem, key, limit, s);
    assert maxIdx in s;
  }

  /** When nothing is left to visit, the visited entries are the least closed set. */
  lemma FullyExplored(mem: seq<byte>, key: nat, seen: set<nat>, maxIdx: nat)
    requires Explored(mem, key, seen, {}, maxIdx)
    ensures var end := key + (maxIdx + 1) * 3;
            IsSnapshot(mem, key, if end <= |mem| then Some(mem[key..end]) else None)
  {
    hide Explored, ClosedUnder;
    var end := key + (maxIdx + 1) * 3;
    if end <= |mem| {
      SeenIsClosed(mem, key, seen, maxIdx, end);
      SeenIsClosed(mem, key, seen, maxIdx, |mem|);
    }
    forall limit | Closed(mem, key, limit)
      ensures end <= limit
    {
      ClosedReachesEnd(mem, key, seen, maxIdx, limit);
    }
  }

  /** Visit an entry that fits: its children, if any, are pushed. */
  method PushChildren(d: array<byte>, key: nat, idx: nat, stack: seq<nat>, maxIdx: nat, ghost seen: set<nat>)
    returns (stack': seq<nat>, maxIdx': nat)
    requires Explored(d[..], key, seen, Elements(stack) + {idx}, maxIdx) && key + 3 * idx + 3 <= d.Length
    ensures Explored(d[..], key, seen + {idx}, Elements(stack'), maxIdx')
  {
    var off := key + idx * 3;
    var t := U16(d[off], d[off + 1]);
    assert t == EntryAt(d[..], key, idx);
    stack', maxIdx' := stack, maxIdx;
    if t < LEAF {
      stack' := stack + [t, t + 1];
      assert Elements(stack') == Elements(stack) + {t, t + 1};
      maxIdx' := if t + 1 > maxIdx then t + 1 else maxIdx;
    }
    VisitEntry(d[..], key, seen, Elements(stack) + {idx}, maxIdx, idx, Elements(stack'));
  }

  lemma SeenGrows(seen: set<nat>, idx: nat)
    requires idx !in seen && idx < 0x1_0000 && forall i :: i in seen ==> i < 0x1_0000
    ensures |seen| < |seen + {idx}| <= 0x1_0000
  {
    CardinalityBelow(seen + {idx}, 0x1_0000);
  }

  /** An entry that was visited before can be dropped. */
  lemma Revisit(mem: seq<byte>, key: nat, seen: set<nat>, todo: set<nat>, maxIdx: nat, idx: nat, rest: set<nat>)
    requires Explored(mem, key, seen, todo, maxIdx) && todo == rest + {idx} && (idx in seen || idx > LEAF)
    ensures Explored(mem, key, seen, rest, maxIdx)
  {
    hide ChildrenIn, ClosedUnder;
    assert idx in seen;
    assert seen + todo == seen + rest;
  }

  /**
   Copy the table at `key` up to the last entry that a walk from the roots can
   reach, or nothing when such an entry lies outside the buffer.
   */
  method TableSnapshot(d: array<byte>, key: nat) returns (r: Option<seq<byte>>)
    requires d.Length <= MAX_IMAGE_SIZE && key < TWO_32
    ensures IsSnapshot(d[..], key, r)
  {
    hide IsSnapshot, Explored;
    ghost var mem := d[..];
    var visited := new bool[0x1_0000](_ => false);
    var stack: seq<nat> := seq(ROOTS, i requires 0 <= i => i);
    var maxIdx: nat := ROOTS - 1;
    ghost var seen: set<nat> := {};
    forall i: nat | i < ROOTS ensures i in stack {
      assert stack[i] == i;
    }
    InitiallyExplored(mem, key, Elements(stack));
    while stack != []
      invariant d[..] == mem
      invariant forall i :: i in seen <==> 0 <= i < 0x1_0000 && visited[i]
      invariant Explored(mem, key, seen, Elements(stack), maxIdx)
      decreases 0x1_0000 - |seen|, |stack|
    {
      var idx := stack[|stack| - 1];
      var rest := stack[..|stack| - 1];
      assert Elements(stack) == Elements(rest) + {idx};
      if idx >= 0x1_0000 || visited[idx] {
        Revisit(mem, key, seen, Elements(stack), maxIdx, idx, Elements(rest));
        stack := rest;
        continue;
      }
      if key + idx * 3 + 3 > d.Length {
        MissingEntry(mem, key, seen, Elements(stack), maxIdx, idx);
        return None;
      }
      SeenGrows(seen, idx);
      visited[idx] := true;
      stack, maxIdx := PushChildren(d, key, idx, rest, maxIdx, seen);
      seen := seen + {idx};
    }
    assert Elements(stack) == {};
    FullyExplored(mem, key, seen, maxIdx);
    var end := key + (maxIdx + 1) * 3;
    if end > d.Length {
      return None;
    }
    r := Some(d[key..end]);
  }

  // ----- Walks in a snapshot and in the image agree -----

  /** `tab` is a copy of the closed table at `key`. */
  ghost predicate SnapshotOf(tab: seq<byte>, mem: seq<byte>, key: nat) {
    && key + |tab| <= |mem| <= MAX_IMAGE_SIZE
    && mem[key..key + |tab|] == tab
    && Closed(mem, key, key + |tab|)
  }

  /** Entry `i` reads the same in the copy and in the image, and its children are in `s`. */
  ghost predicate SameEntry(tab: seq<byte>, mem: seq<byte>, key: nat, s: set<nat>, i: nat) {
    && ChildrenIn(mem, key, i, s)
    && Raw(InPlace(key), mem, i) == Raw(Snapshot(tab), mem, i) == Some(EntryAt(mem, key, i))
  }

  lemma EntriesAgree(tab: seq<byte>, mem: seq<byte>, key: nat, idx: nat)
    requires key + |tab| <= |mem| <= MAX_IMAGE_SIZE && mem[key..key + |tab|] == tab
    requires 3 * idx + 3 <= |tab|
    ensures Raw(InPlace(key), mem, idx) == Raw(Snapshot(tab), mem, idx) == Some(EntryAt(mem, key, idx))
    ensures EntryAt(mem, key, idx) == U16(tab[3 * idx], tab[3 * idx + 1])
    ensures Width(InPlace(key), mem, idx) == Width(Snapshot(tab), mem, idx) == Some(tab[3 * idx + 2])
  {
    var j := 3 * idx;
    assert tab[j] == mem[key + j] && tab[j + 1] == mem[key + j + 1] && tab[j + 2] == mem[key + j + 2];
    assert Addr(key, idx) == key + j;
  }

  lemma {:induction false} DescendAgrees(tab: seq<byte>, mem: seq<byte>, key: nat, s: set<nat>,
                                         word: nat, idx: nat, b: nat, depth: nat)
    requires forall i {:trigger SameEntry(tab, mem, key, s, i)} :: i in s ==> SameEntry(tab, mem, key, s, i)
    requires idx in s && depth <= MAX_DEPTH
    ensures Descend(InPlace(key), mem, word, idx, b, depth) == Descend(Snapshot(tab), mem, word, idx, b, depth)
    ensures !Descend(InPlace(key), mem, word, idx, b, depth).OutOfTable?
    decreases MAX_DEPTH - depth
  {
    var raw := EntryAt(mem, key, idx);
    assert SameEntry(tab, mem, key, s, idx);
    if raw < LEAF && depth < MAX_DEPTH {
      DescendAgrees(tab, mem, key, s, word, raw + BitAt(word, b), b + 1, depth + 1);
    }
  }

  lemma ClosedEntriesAgree(tab: seq<byte>, mem: seq<byte>, key: nat, s: set<nat>)
    requires key + |tab| <= |mem| <= MAX_IMAGE_SIZE && mem[key..key + |tab|] == tab
    requires ClosedUnder(mem, key, key + |tab|, s)
    ensures forall i {:trigger SameEntry(tab, mem, key, s, i)} :: i in s ==> SameEntry(tab, mem, key, s, i)
    ensures forall i: nat :: i < ROOTS ==> i in s && 3 * i + 3 <= |tab|
    ensures forall i: nat :: i < ROOTS ==>
            Width(InPlace(key), mem, i) == Width(Snapshot(tab), mem, i) == Some(tab[3 * i + 2])
  {
    forall i {:trigger SameEntry(tab, mem, key, s, i)} | i in s
      ensures SameEntry(tab, mem, key, s, i)
    {
      assert ChildrenIn(mem, key, i, s);
      EntriesAgree(tab, mem, key, i);
    }
    forall i: nat | i < ROOTS
      ensures 3 * i + 3 <= |tab|
      ensures Width(InPlace(key), mem, i) == Width(Snapshot(tab), mem, i) == Some(tab[3 * i + 2])
    {
      assert i in s;
      EntriesAgree(tab, mem, key, i);
    }
  }

  lemma SameEntryGives(tab: seq<byte>, mem: seq<byte>, key: nat, s: set<nat>, i: nat)
    requires SameEntry(tab, mem, key, s, i)
    ensures var raw := EntryAt(mem, key, i);
            && Raw(InPlace(key), mem, i) == Raw(Snapshot(tab), mem, i) == Some(raw)
            && (raw < LEAF ==> raw in s && raw + 1 in s)
  {
    hide Raw, EntryAt;
  }

  lemma FromRootAgrees(t: Table, u: Table, mem: seq<byte>, word: nat, raw: nat, width: byte)
    requires raw < LEAF && width < 32 ==>
               var idx := raw + BitAt(word, width);
               Descend(t, mem, word, idx, width + 1, 0) == Descend(u, mem, word, idx, width + 1, 0)
               && !Descend(t, mem, word, idx, width + 1, 0).OutOfTable?
    ensures var c := FromRoot(t, mem, word, Some(raw), Some(width));
            c == FromRoot(u, mem, word, Some(raw), Some(width)) && !c.OutOfTable?
  {
    hide BitAt, Descend;
  }

  /** A walk never leaves a closed table, and sees the same entries in the copy and in the image. */
  lemma CodesAgree(tab: seq<byte>, mem: seq<byte>, key: nat, word: nat)
    requires SnapshotOf(tab, mem, key)
    ensures ReadCode(InPlace(key), mem, word) == ReadCode(Snapshot(tab), mem, word)
    ensures !ReadCode(InPlace(key), mem, word).OutOfTable?
  {
    hide Raw, Width, BitAt, Descend, EntryAt, ClosedUnder, SameEntry, FromRoot;
    var s :| ClosedUnder(mem, key, key + |tab|, s);
    ClosedEntriesAgree(tab, mem, key, s);
    var root := word % ROOTS;
    var raw, width := EntryAt(mem, key, root), tab[3 * root + 2];
    SameEntryGives(tab, mem, key, s, root);
    if raw < LEAF && width < 32 {
      DescendAgrees(tab, mem, key, s, word, raw + BitAt(word, width), width + 1, 0);
    }
    FromRootAgrees(InPlace(key), Snapshot(tab), mem, word, raw, width);
  }

  /** One level of a walk; at the depth limit only a leaf is left. */
  lemma DescendStep(t: Table, mem: seq<byte>, w: nat, idx: nat, b: nat, depth: nat, raw: nat)
    requires depth <= MAX_DEPTH && Raw(t, mem, idx) == Some(raw)
    ensures Descend(t, mem, w, idx, b, depth)
         == if raw >= LEAF then Code(raw - LEAF, b)
            else if depth == MAX_DEPTH then NoCode(HuffmanTraversalLimit)
            else Descend(t, mem, w, raw + BitAt(w, b), b + 1, depth + 1)
  {
    hide BitAt, Raw;
  }

  lemma DescendOutside(t: Table, mem: seq<byte>, w: nat, idx: nat, b: nat, depth: nat)
    requires depth <= MAX_DEPTH && Raw(t, mem, idx) == None
    ensures Descend(t, mem, w, idx, b, depth) == OutOfTable
  {
    hide BitAt, Raw;
  }

  lemma RawInPlace(mem: seq<byte>, key: nat, idx: nat)
    ensures var a := Addr(key, idx);
            Raw(InPlace(key), mem, idx) == if a + 2 <= |mem| then Some(U16(mem[a], mem[a + 1])) else None
  {
    hide Addr;
  }

  // ----- The walks as the decompressors write them -----

  // The source tests bit `b` of the 32-bit look-ahead with a mask that is
  // shifted left once per level. Once shifted out the mask is 0 and every test
  // fails; bits 32 and up of a 32-bit number are 0, so `BitAt` covers both.

  /** The walk of the in-place decompressor. */
  method ReadCodeInPlace(d: array<byte>, key: nat, word: nat) returns (c: Code)
    ensures c == ReadCode(InPlace(key), d[..], word)
  {
    hide BitAt, Addr, Descend, Raw;
    ghost var mem := d[..];
    var addr := Addr(key, word % ROOTS);
    RawInPlace(mem, key, word % ROOTS);
    if addr + 3 > d.Length {
      return OutOfTable;
    }
    var tab, b2 := U16(d[addr], d[addr + 1]), d[addr + 2];
    if tab >= LEAF {
      return Code(tab - LEAF, b2);
    }
    if b2 >= 32 {
      return NoCode(InvalidCodeLength(b2));
    }
    c := DescendInPlace(d, key, word, tab + BitAt(word, b2), b2 + 1);
  }

  method DescendInPlace(d: array<byte>, key: nat, word: nat, idx0: nat, bits0: nat) returns (c: Code)
    ensures c == Descend(InPlace(key), d[..], word, idx0, bits0, 0)
  {
    hide BitAt, Addr, Descend, Raw;
    ghost var mem := d[..];
    var idx: nat, bits: nat, depth: nat := idx0, bits0, 0;
    while true
      invariant depth <= MAX_DEPTH
      invariant Descend(InPlace(key), mem, word, idx0, bits0, 0) == Descend(InPlace(key), mem, word, idx, bits, depth)
      decreases MAX_DEPTH - depth
    {
      var addr := Addr(key, idx);
      RawInPlace(mem, key, idx);
      if addr + 2 > d.Length {
        DescendOutside(InPlace(key), mem, word, idx, bits, depth);
        return OutOfTable;
      }
      var t2 := U16(d[addr], d[addr + 1]);
      DescendStep(InPlace(key), mem, word, idx, bits, depth, t2);
      if t2 >= LEAF {
        return Code(t2 - LEAF, bits);
      }
      depth := depth + 1;
      if depth > MAX_DEPTH {
        return NoCode(HuffmanTraversalLimit);
      }
      idx := t2 + BitAt(word, bits);
      bits := bits + 1;
    }
  }

  function Symbol(c: Code): Option<(nat, nat)> {
    if c.Code? then Some((c.sym, c.bits)) else None
  }

  lemma SnapshotEntry(tab: seq<byte>, mem: seq<byte>, idx: nat)
    ensures Raw(Snapshot(tab), mem, idx)
            == if 3 * idx + 3 <= |tab| then Some(U16(tab[3 * idx], tab[3 * idx + 1])) else None
  {
  }

  lemma SnapshotWidth(tab: seq<byte>, mem: seq<byte>, idx: nat)
    ensures Width(Snapshot(tab), mem, idx) == if 3 * idx + 3 <= |tab| then Some(tab[3 * idx + 2]) else None
  {
  }

  /** The walk of the snapshot decompressor: `None` is its bare `false`. */
  method ReadCodeFromSnapshot(tab: seq<byte>, word: nat, ghost mem: seq<byte>) returns (c: Option<(nat, nat)>)
    ensures c == Symbol(ReadCode(Snapshot(tab), mem, word))
  {
    hide BitAt, Raw, Width, Descend;
    SnapshotEntry(tab, mem, word % ROOTS);
    SnapshotWidth(tab, mem, word % ROOTS);
    var root := word % ROOTS;
    if 3 * root + 3 > |tab| {
      return None;
    }
    var t, b2 := U16(tab[3 * root], tab[3 * root + 1]), tab[3 * root + 2];
    if t >= LEAF {
      return Some((t - LEAF, b2));
    }
    if b2 >= 32 {
      return None;
    }
    c := DescendSnapshot(tab, word, mem, t + BitAt(word, b2), b2 + 1);
  }

  method DescendSnapshot(tab: seq<byte>, word: nat, ghost mem: seq<byte>, idx0: nat, bits0: nat)
    returns (c: Option<(nat, nat)>)
    ensures c == Symbol(Descend(Snapshot(tab), mem, word, idx0, bits0, 0))
  {
    hide BitAt, Raw, Descend;
    var idx: nat, bits: nat, depth: nat := idx0, bits0, 0;
    while true
      invariant depth <= MAX_DEPTH
      invariant Descend(Snapshot(tab), mem, word, idx0, bits0, 0) == Descend(Snapshot(tab), mem, word, idx, bits, depth)
      decreases MAX_DEPTH - depth
    {
      SnapshotEntry(tab, mem, idx);
      if 3 * idx + 3 > |tab| {
        DescendOutside(Snapshot(tab), mem, word, idx, bits, depth);
        return None;
      }
      var t2 := U16(tab[3 * idx], tab[3 * idx + 1]);
      DescendStep(Snapshot(tab), mem, word, idx, bits, depth, t2);
      if t2 >= LEAF {
        return Some((t2 - LEAF, bits));
      }
      depth := depth + 1;
      if depth > MAX_DEPTH {
        return None;
      }
      idx := t2 + BitAt(word, bits);
      bits := bits + 1;
    }
  }
}
