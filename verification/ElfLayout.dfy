/**
 Appending a PT_LOAD segment to a little-endian ELF64 image: into the slack
 after the program-header table, over a redundant PT_NOTE, or by relocating
 the whole table into the new segment.
 */
module ElfLayout {
  import opened Bytes
  import opened Wrappers

  const PT_LOAD: nat := 1
  const PT_NOTE: nat := 4
  const PT_PHDR: nat := 6
  const SHT_NOBITS: nat := 8
  /** Size of one program header, and of the ELF header. */
  const ENTRY: nat := 0x38
  const ELF_HEADER: nat := 0x40

  type u64 = x: int | 0 <= x < TWO_64
  type u32 = x: int | 0 <= x < TWO_32

  datatype Error =
    | OutOfBounds | IndexOverflow | EntrySize | NoFileContents | MemoryTooSmall | Alignment | Misaligned
    | RangeOverflow | ExceedsFile | FileOverlap | MemoryOverlap | CountOverflow | ReservationMismatch
    | CannotRelocate | SegmentTooSmall

  datatype LoadSegment = LoadSegment(offset: u64, virtualAddress: u64, fileSize: u64, memorySize: u64, flags: u32,
                                     alignment: u64)

  /** The section-header fields that placement depends on. */
  datatype SectionHeader = SectionHeader(sectionType: u32, offset: u64, size: u64)

  datatype Layout = Layout(tableOffset: u64, entrySize: u64, tableCount: u64, loads: seq<LoadSegment>,
                           sections: seq<SectionHeader>)

  // ----- Reading and writing fields -----

  function Read(data: seq<byte>, off: nat, n: nat): Result<nat, Error> {
    if off + n <= |data| then Ok(Val(data[off..off + n])) else Err(OutOfBounds)
  }

  function CheckedIndex(base: nat, index: nat, stride: nat): (r: Result<nat, Error>)
    ensures r.Ok? ==> r.value == base + index * stride < TWO_64
  {
    if base + index * stride < TWO_64 then Ok(base + index * stride) else Err(IndexOverflow)
  }

  /** Overwrite `bytes` at `off` if that range exists. */
  function Write(data: seq<byte>, off: nat, bytes: seq<byte>): (r: (seq<byte>, bool))
    ensures |r.0| == |data|
  {
    if off + |bytes| <= |data| then (Splice(data, off, bytes), true) else (data, false)
  }

  method WriteTo(output: array<byte>, off: nat, bytes: seq<byte>) returns (ok: bool)
    modifies output
    ensures (output[..], ok) == Write(old(output[..]), off, bytes)
  {
    ok := off + |bytes| <= output.Length;
    if ok {
      forall i | 0 <= i < |bytes| {
        output[off + i] := bytes[i];
      }
      assert output[..] == Splice(old(output[..]), off, bytes);
    }
  }

  /** The eight fields of a PT_LOAD program header; the physical address repeats the virtual one. */
  function HeaderBytes(s: LoadSegment): (r: seq<byte>)
    ensures |r| == ENTRY
  {
    Le(PT_LOAD, 4) + Le(s.flags, 4) + Le(s.offset, 8) + Le(s.virtualAddress, 8) + Le(s.virtualAddress, 8)
    + Le(s.fileSize, 8) + Le(s.memorySize, 8) + Le(s.alignment, 8)
  }

  // ----- The program-header table -----

  function Slot(data: seq<byte>, table: nat, i: nat): (r: seq<byte>)
    requires table + ENTRY * (i + 1) <= |data|
    ensures |r| == ENTRY
  {
    data[table + ENTRY * i..table + ENTRY * (i + 1)]
  }

  function TypeOf(slot: seq<byte>): nat
    requires |slot| == ENTRY
  {
    Val(slot[0..4])
  }

  lemma FieldBound(s: seq<byte>)
    ensures |s| <= 4 ==> Val(s) < TWO_32
    ensures |s| <= 8 ==> Val(s) < TWO_64
  {
    ValBound(s);
    Pow2Words();
    if |s| <= 4 {
      Pow2Monotone(8 * |s|, 32);
    }
    if |s| <= 8 {
      Pow2Monotone(8 * |s|, 64);
    }
  }

  function Field64(slot: seq<byte>, at: nat): u64
    requires at + 8 <= |slot|
  {
    FieldBound(slot[at..at + 8]);
    Val(slot[at..at + 8])
  }

  function Field32(slot: seq<byte>, at: nat): u32
    requires at + 4 <= |slot|
  {
    FieldBound(slot[at..at + 4]);
    Val(slot[at..at + 4])
  }

  function SegmentOf(slot: seq<byte>): LoadSegment
    requires |slot| == ENTRY
  {
    LoadSegment(Field64(slot, 8), Field64(slot, 0x10), Field64(slot, 0x20), Field64(slot, 0x28), Field32(slot, 4),
                Field64(slot, 0x30))
  }

  /** The PT_LOAD entries among the first `n` slots, in table order. */
  function Loads(data: seq<byte>, table: nat, n: nat): seq<LoadSegment>
    requires table + ENTRY * n <= |data|
  {
    if n == 0 then []
    else
      var slot := Slot(data, table, n - 1);
      Loads(data, table, n - 1) + LoadIn(slot)
  }

  function LoadIn(slot: seq<byte>): seq<LoadSegment>
    requires |slot| == ENTRY
  {
    if TypeOf(slot) == PT_LOAD then [SegmentOf(slot)] else []
  }

  /** Encoding a segment and reading its slot gives the segment back. */
  lemma HeaderRoundTrip(s: LoadSegment)
    ensures TypeOf(HeaderBytes(s)) == PT_LOAD && SegmentOf(HeaderBytes(s)) == s
    ensures Field64(HeaderBytes(s), 0x18) == s.virtualAddress
  {
    var h := HeaderBytes(s);
    hide HeaderBytes, Le, Val;
    HeaderFields(s);
    ValOfLe(PT_LOAD, 4);
    ValOfLe(s.flags, 4);
    ValOfLe(s.offset, 8);
    ValOfLe(s.virtualAddress, 8);
    ValOfLe(s.fileSize, 8);
    ValOfLe(s.memorySize, 8);
    ValOfLe(s.alignment, 8);
  }

  lemma ValOfLe(v: nat, n: nat)
    requires (n == 4 && v < TWO_32) || (n == 8 && v < TWO_64)
    ensures Val(Le(v, n)) == v
  {
    ValLe(v, n);
    Pow2Words();
    ShrSmall(v, 8 * n);
  }

  lemma HeaderFields(s: LoadSegment)
    ensures var h := HeaderBytes(s);
            && h[0..4] == Le(PT_LOAD, 4) && h[4..8] == Le(s.flags, 4)
            && h[8..0x10] == Le(s.offset, 8) && h[0x10..0x18] == Le(s.virtualAddress, 8)
            && h[0x18..0x20] == Le(s.virtualAddress, 8)
            && h[0x20..0x28] == Le(s.fileSize, 8) && h[0x28..0x30] == Le(s.memorySize, 8)
            && h[0x30..0x38] == Le(s.alignment, 8)
  {
    hide Le;
    var h := HeaderBytes(s);
    assert h[0x28..0x30] == Le(s.memorySize, 8);
    assert h[0x30..0x38] == Le(s.alignment, 8);
  }

  // ----- Where a new header can go -----

  /** The lowest file offset of a section that has contents. */
  function FirstFileSection(sections: seq<SectionHeader>): (r: Option<nat>)
    ensures r.Some? ==> exists s :: s in sections && HasContents(s) && s.offset == r.value
    ensures forall s :: s in sections && HasContents(s) ==> r.Some? && r.value <= s.offset
  {
    if sections == [] then None
    else
      var rest, s := FirstFileSection(sections[1..]), sections[0];
      assert sections == [s] + sections[1..];
      if !HasContents(s) then rest
      else if rest.None? || s.offset < rest.value then Some(s.offset)
      else rest
  }

  predicate HasContents(s: SectionHeader) {
    s.sectionType != SHT_NOBITS && s.size != 0
  }

  /** Bytes the caller must reserve in the new segment: none if one more slot fits before every section. */
  function Reservation(l: Layout): (r: Result<nat, Error>)
    ensures r.Ok? ==> l.entrySize == ENTRY && l.tableOffset + ENTRY * (l.tableCount + 1) < TWO_64
    ensures r == Ok(0) ==>
            forall s :: s in l.sections && HasContents(s) ==> l.tableOffset + ENTRY * (l.tableCount + 1) <= s.offset
    ensures r.Ok? && r.value != 0 ==>
              && r.value == ENTRY * (l.tableCount + 1)
              && exists s :: s in l.sections && HasContents(s) && s.offset < l.tableOffset + ENTRY * (l.tableCount + 1)
  {
    if l.entrySize != ENTRY then Err(EntrySize)
    else if l.tableCount + 1 >= TWO_64 then Err(CountOverflow)
    else
      match CheckedIndex(l.tableOffset, l.tableCount, l.entrySize)
      case Err(e) => Err(e)
      case Ok(slot) =>
        if slot + ENTRY >= TWO_64 then Err(RangeOverflow)
        else
          var first := FirstFileSection(l.sections);
          if first.None? || slot + ENTRY <= first.value then Ok(0)
          else if (l.tableCount + 1) * ENTRY >= TWO_64 then Err(RangeOverflow)
          else Ok((l.tableCount + 1) * ENTRY)
  }

  function HasType(l: Layout, data: seq<byte>, t: nat, i: nat): Result<bool, Error>
    requires l.entrySize == ENTRY && i <= l.tableCount
    decreases l.tableCount - i
  {
    if i == l.tableCount then Ok(false)
    else
      match CheckedIndex(l.tableOffset, i, l.entrySize)
      case Err(e) => Err(e)
      case Ok(off) =>
        match Read(data, off, 4)
        case Err(e) => Err(e)
        case Ok(found) => if found == t then Ok(true) else HasType(l, data, t, i + 1)
  }

  predicate Contained(loads: seq<LoadSegment>, from: nat, to: nat) {
    exists s :: s in loads && s.offset + s.fileSize < TWO_64 && s.offset <= from && to <= s.offset + s.fileSize
  }

  /** Among the first `n` slots: how many PT_NOTEs there are, and which of them lie inside a PT_LOAD. */
  function Notes(l: Layout, data: seq<byte>, n: nat): (r: Result<(nat, seq<(nat, nat)>), Error>)
    requires l.entrySize == ENTRY
  {
    if n == 0 then Ok((0, []))
    else
      match Notes(l, data, n - 1)
      case Err(e) => Err(e)
      case Ok((count, found)) => NoteAt(l, data, n - 1, count, found)
  }

  /** The scan of slot `i`, with `count` notes and the candidates `found` before it. */
  function NoteAt(l: Layout, data: seq<byte>, i: nat, count: nat,
                  found: seq<(nat, nat)>)
    : Result<(nat, seq<(nat, nat)>), Error>
    requires l.entrySize == ENTRY
  {
    match CheckedIndex(l.tableOffset, i, l.entrySize)
    case Err(e) => Err(e)
    case Ok(off) =>
      match Read(data, off, 4)
      case Err(e) => Err(e)
      case Ok(t) =>
        if t != PT_NOTE then Ok((count, found))
        else
          match (Read(data, off + 8, 8), Read(data, off + 0x20, 8))
          case (Ok(from), Ok(size)) =>
            if from + size >= TWO_64 then Err(RangeOverflow)
            else
              var next: nat := count + 1;
              var here: (nat, nat) := (from, i);
              if Contained(l.loads, from, from + size) then Ok((next, found + [here])) else Ok((next, found))
          case (_, _) => Err(OutOfBounds)
  }

  /** The last candidate with the largest file offset. */
  function LastMax(found: seq<(nat, nat)>): (r: Option<(nat, nat)>)
    ensures r.Some? <==> found != []
    ensures r.Some? ==> r.value in found && forall c :: c in found ==> c.0 <= r.value.0
  {
    if found == [] then None
    else
      var last, rest := found[|found| - 1], found[..|found| - 1];
      assert found == rest + [last];
      var best := LastMax(rest);
      if best.None? || last.0 >= best.value.0 then Some(last) else best
  }

  /** A PT_NOTE can be given up when there are at least two and it lies inside a PT_LOAD. */
  function ReusableNote(l: Layout, data: seq<byte>): Result<Option<nat>, Error>
    requires l.entrySize == ENTRY
  {
    match Notes(l, data, l.tableCount)
    case Err(e) => Err(e)
    case Ok((count, found)) =>
      if count < 2 then Ok(None)
      else match LastMax(found) { case None => Ok(None) case Some(c) => Ok(Some(c.1)) }
  }

  // ----- The checks before anything is written -----

  function IsPowerOfTwo(a: nat): bool {
    a == 1 || (a > 0 && a % 2 == 0 && IsPowerOfTwo(a / 2))
  }

  predicate FileApart(a: LoadSegment, b: LoadSegment) {
    a.offset + a.fileSize <= b.offset || b.offset + b.fileSize <= a.offset
  }

  predicate MemoryApart(a: LoadSegment, b: LoadSegment) {
    a.virtualAddress + a.memorySize <= b.virtualAddress || b.virtualAddress + b.memorySize <= a.virtualAddress
  }

  /** The first reason why `s` clashes with an existing segment, in table order. */
  function CheckLoads(loads: seq<LoadSegment>, s: LoadSegment): (r: Option<Error>)
    ensures r == None <==> forall e :: e in loads ==>
              && e.offset + e.fileSize < TWO_64 && e.virtualAddress + e.memorySize < TWO_64
              && FileApart(s, e) && MemoryApart(s, e)
  {
    if loads == [] then None
    else
      var e := loads[0];
      assert loads == [e] + loads[1..];
      if e.offset + e.fileSize >= TWO_64 then Some(RangeOverflow)
      else if s.offset < e.offset + e.fileSize && e.offset < s.offset + s.fileSize then Some(FileOverlap)
      else if e.virtualAddress + e.memorySize >= TWO_64 then Some(RangeOverflow)
      else if s.virtualAddress < e.virtualAddress + e.memorySize
              && e.virtualAddress < s.virtualAddress + s.memorySize then Some(MemoryOverlap)
      else CheckLoads(loads[1..], s)
  }

  /** All checks on the request; the value is the reservation. */
  function Check(l: Layout, len: nat, s: LoadSegment, reserved: nat): Result<nat, Error> {
    if l.entrySize != ENTRY then Err(EntrySize)
    else if s.fileSize == 0 then Err(NoFileContents)
    else if s.memorySize < s.fileSize then Err(MemoryTooSmall)
    else if s.alignment == 0 || !IsPowerOfTwo(s.alignment) then Err(Alignment)
    else if s.offset % s.alignment != s.virtualAddress % s.alignment then Err(Misaligned)
    else if s.offset + s.fileSize >= TWO_64 then Err(RangeOverflow)
    else if s.virtualAddress + s.memorySize >= TWO_64 then Err(RangeOverflow)
    else if s.offset + s.fileSize > len then Err(ExceedsFile)
    else if CheckLoads(l.loads, s).Some? then Err(CheckLoads(l.loads, s).value)
    else if l.tableCount + 1 >= 0x1_0000 then Err(CountOverflow)
    else
      match Reservation(l)
      case Err(e) => Err(e)
      case Ok(reservation) => if reserved != reservation then Err(ReservationMismatch) else Ok(reservation)
  }

  // ----- PT_PHDR entries -----

  /** Write the fields one after the other, stopping at the first that does not fit. */
  function WriteFields(data: seq<byte>, at: nat, fields: seq<(nat, seq<byte>)>): (r: (seq<byte>, bool))
    ensures |r.0| == |data|
    decreases |fields|
  {
    if fields == [] then (data, true)
    else
      var (data', ok) := Write(data, at + fields[0].0, fields[0].1);
      if ok then WriteFields(data', at, fields[1..]) else (data', false)
  }

  /** What a PT_PHDR entry is told: its new place, if the table moved, and the new table size. */
  function PhdrFields(relocated: Option<(u64, u64)>, tableSize: nat): seq<(nat, seq<byte>)> {
    (if relocated.None? then []
     else [(8, Le(relocated.value.0, 8)), (0x10, Le(relocated.value.1, 8)), (0x18, Le(relocated.value.1, 8))])
    + [(0x20, Le(tableSize, 8)), (0x28, Le(tableSize, 8))]
  }

  /** Update every PT_PHDR among the slots `i..count`. */
  function UpdatePhdrs(data: seq<byte>, table: nat, i: nat, count: nat, fields: seq<(nat, seq<byte>)>)
    : (r: (seq<byte>, bool))
    ensures |r.0| == |data|
    decreases count - i
  {
    if i >= count then (data, true)
    else
      match CheckedIndex(table, i, ENTRY)
      case Err(_) => (data, false)
      case Ok(off) =>
        match Read(data, off, 4)
        case Err(_) => (data, false)
        case Ok(t) =>
          if t != PT_PHDR then UpdatePhdrs(data, table, i + 1, count, fields)
          else
            var (data', ok) := WriteFields(data, off, fields);
            if ok then UpdatePhdrs(data', table, i + 1, count, fields) else (data', false)
  }

  // ----- The three strategies -----

  datatype Appended = Appended(data: seq<byte>, result: Result<Layout, Error>)

  /** The ELF header's entry count is the last thing written. */
  function WithCount(l: Layout, data: seq<byte>, table: u64, s: LoadSegment): Appended
    requires l.tableCount + 1 < TWO_64
  {
    var (data', ok) := Write(data, 0x38, Le(l.tableCount + 1, 2));
    Appended(data',
             if ok then Ok(l.(tableOffset := table, tableCount := l.tableCount + 1, loads := l.loads + [s]))
             else Err(OutOfBounds))
  }

  /** The slot after the table is free. */
  function Slack(l: Layout, data: seq<byte>, s: LoadSegment): Appended
    requires l.tableCount + 1 < 0x1_0000
  {
    var (data1, ok1) := Write(data, l.tableOffset + l.tableCount * ENTRY, HeaderBytes(s));
    if !ok1 then Appended(data1, Err(OutOfBounds))
    else
      var (data2, ok2) := UpdatePhdrs(data1, l.tableOffset, 0, l.tableCount,
                                      PhdrFields(None, (l.tableCount + 1) * ENTRY));
      if !ok2 then Appended(data2, Err(OutOfBounds)) else WithCount(l, data2, l.tableOffset, s)
  }

  /** A redundant PT_NOTE makes way; the count stays. */
  function Reuse(l: Layout, data: seq<byte>, s: LoadSegment, note: nat): Appended {
    match CheckedIndex(l.tableOffset, note, ENTRY)
    case Err(e) => Appended(data, Err(e))
    case Ok(off) =>
      var (data', ok) := Write(data, off, HeaderBytes(s));
      Appended(data', if ok then Ok(l.(loads := l.loads + [s])) else Err(OutOfBounds))
  }

  /** The table moves to the start of the new segment. */
  function Relocate(l: Layout, data: seq<byte>, s: LoadSegment, reservation: nat): Appended
    requires l.entrySize == ENTRY && l.tableCount + 1 < 0x1_0000
  {
    var oldSize, newSize := l.tableCount * ENTRY, (l.tableCount + 1) * ENTRY;
    match HasType(l, data, PT_PHDR, 0)
    case Err(e) => Appended(data, Err(e))
    case Ok(found) =>
      if !found then Appended(data, Err(CannotRelocate))
      else if reservation != newSize then Appended(data, Err(ReservationMismatch))
      else if s.fileSize < reservation then Appended(data, Err(SegmentTooSmall))
      else if s.offset + newSize > |data| || l.tableOffset + oldSize > |data| then Appended(data, Err(OutOfBounds))
      else
        var data1 := Splice(data, s.offset, data[l.tableOffset..l.tableOffset + oldSize] + HeaderBytes(s));
        var (data2, ok2) := Write(data1, 0x20, Le(s.offset, 8));
        if !ok2 then Appended(data2, Err(OutOfBounds))
        else
          var (data3, ok3) := UpdatePhdrs(data2, s.offset, 0, l.tableCount,
                                          PhdrFields(Some((s.offset, s.virtualAddress)), newSize));
          if !ok3 then Appended(data3, Err(OutOfBounds)) else WithCount(l, data3, s.offset, s)
  }

  /** The bytes and the layout after appending `s`. */
  function Append(l: Layout, data: seq<byte>, s: LoadSegment, reserved: nat): Appended {
    match Check(l, |data|, s, reserved)
    case Err(e) => Appended(data, Err(e))
    case Ok(reservation) =>
      if reservation == 0 then Slack(l, data, s)
      else
        match ReusableNote(l, data)
        case Err(e) => Appended(data, Err(e))
        case Ok(Some(note)) => Reuse(l, data, s, note)
        case Ok(None) => Relocate(l, data, s, reservation)
  }

  // ----- What the PT_PHDR update keeps -----

  /** The bytes of one entry with the fields written into it. */
  function FieldsOn(slot: seq<byte>, fields: seq<(nat, seq<byte>)>): (r: seq<byte>)
    requires InEntry(slot, fields)
    ensures |r| == |slot|
    decreases |fields|
  {
    if fields == [] then slot else FieldsOn(Splice(slot, fields[0].0, fields[0].1), fields[1..])
  }

  predicate InEntry(slot: seq<byte>, fields: seq<(nat, seq<byte>)>) {
    |slot| == ENTRY && forall i :: 0 <= i < |fields| ==> fields[i].0 + |fields[i].1| <= ENTRY
  }

  lemma {:induction false} WriteFieldsIs(data: seq<byte>, at: nat, fields: seq<(nat, seq<byte>)>)
    requires at + ENTRY <= |data| && InEntry(data[at..at + ENTRY], fields)
    ensures WriteFields(data, at, fields) == (Splice(data, at, FieldsOn(data[at..at + ENTRY], fields)), true)
    decreases |fields|
  {
    var slot := data[at..at + ENTRY];
    if fields == [] {
      assert Splice(data, at, slot) == data;
    } else {
      var (o, bytes) := fields[0];
      var next, slot' := Splice(data, at + o, bytes), Splice(slot, o, bytes);
      assert next[at..at + ENTRY] == slot';
      WriteFieldsIs(next, at, fields[1..]);
      SpliceOver(data, next, at, FieldsOn(slot', fields[1..]));
    }
  }

  lemma SpliceOver(data: seq<byte>, next: seq<byte>, at: nat, bytes: seq<byte>)
    requires |next| == |data| && at + |bytes| <= |data|
    requires forall k :: 0 <= k < |data| && !(at <= k < at + |bytes|) ==> next[k] == data[k]
    ensures Splice(next, at, bytes) == Splice(data, at, bytes)
  {
  }

  /**
   A PT_PHDR entry after an update: file and memory size are the table's; if
   the table moved, so are its offset and its two addresses. All else is kept.
   */
  function PhdrSlot(slot: seq<byte>, relocated: Option<(u64, u64)>, size: nat): (r: seq<byte>)
    requires |slot| == ENTRY
    ensures |r| == ENTRY
  {
    match relocated
    case None => slot[..0x20] + Le(size, 8) + Le(size, 8) + slot[0x30..]
    case Some((offset, address)) =>
      slot[..8] + Le(offset, 8) + Le(address, 8) + Le(address, 8) + Le(size, 8) + Le(size, 8) + slot[0x30..]
  }

  lemma FieldsAreSlot(slot: seq<byte>, relocated: Option<(u64, u64)>, size: nat)
    requires |slot| == ENTRY
    ensures InEntry(slot, PhdrFields(relocated, size))
    ensures FieldsOn(slot, PhdrFields(relocated, size)) == PhdrSlot(slot, relocated, size)
  {
    hide Le;
    SizesOn(slot, size);
    if relocated.Some? {
      var (offset, address) := relocated.value;
      PlaceOn(slot, offset, address, [(0x20, Le(size, 8)), (0x28, Le(size, 8))]);
      SizesOn(slot[..8] + Le(offset, 8) + Le(address, 8) + Le(address, 8) + slot[0x20..], size);
    } else {
      assert [] + [(0x20, Le(size, 8)), (0x28, Le(size, 8))] == [(0x20, Le(size, 8)), (0x28, Le(size, 8))];
    }
  }

  lemma SizesOn(slot: seq<byte>, size: nat)
    requires |slot| == ENTRY
    ensures InEntry(slot, [(0x20, Le(size, 8)), (0x28, Le(size, 8))])
    ensures FieldsOn(slot, [(0x20, Le(size, 8)), (0x28, Le(size, 8))])
         == slot[..0x20] + Le(size, 8) + Le(size, 8) + slot[0x30..]
  {
    hide Le;
    var bytes := Le(size, 8);
    var both, last := [(0x20, bytes), (0x28, bytes)], [(0x28, bytes)];
    assert both[1..] == last && last[1..] == [];
    var one := Splice(slot, 0x20, bytes);
    var two := Splice(one, 0x28, bytes);
    assert FieldsOn(one, last) == FieldsOn(two, []);
  }

  lemma ThreeWritten(slot: seq<byte>, o: seq<byte>, a: seq<byte>)
    requires |slot| == ENTRY && |o| == |a| == 8
    ensures Splice(Splice(Splice(slot, 8, o), 0x10, a), 0x18, a) == slot[..8] + o + a + a + slot[0x20..]
  {
  }

  lemma PlaceOn(slot: seq<byte>, offset: u64, address: u64, rest: seq<(nat, seq<byte>)>)
    requires InEntry(slot, rest)
    ensures var fields := [(8, Le(offset, 8)), (0x10, Le(address, 8)), (0x18, Le(address, 8))] + rest;
            var placed := slot[..8] + Le(offset, 8) + Le(address, 8) + Le(address, 8) + slot[0x20..];
            InEntry(slot, fields) && |placed| == ENTRY && FieldsOn(slot, fields) == FieldsOn(placed, rest)
  {
    hide Le;
    var o, a := Le(offset, 8), Le(address, 8);
    var first: (nat, seq<byte>), second: (nat, seq<byte>), third: (nat, seq<byte>) := (8, o), (0x10, a), (0x18, a);
    var one := Splice(slot, 8, o);
    var two := Splice(one, 0x10, a);
    var three := Splice(two, 0x18, a);
    OneField(slot, first, [second, third] + rest);
    OneField(one, second, [third] + rest);
    OneField(two, third, rest);
    assert [first, second, third] + rest == [first] + ([second, third] + rest);
    assert [second, third] + rest == [second] + ([third] + rest);
    ThreeWritten(slot, o, a);
  }

  lemma OneField(slot: seq<byte>, field: (nat, seq<byte>), rest: seq<(nat, seq<byte>)>)
    requires InEntry(slot, rest) && field.0 + |field.1| <= ENTRY
    ensures InEntry(slot, [field] + rest) && |Splice(slot, field.0, field.1)| == ENTRY
    ensures FieldsOn(slot, [field] + rest) == FieldsOn(Splice(slot, field.0, field.1), rest)
  {
    assert ([field] + rest)[1..] == rest;
  }

  /** What a PT_PHDR entry then says, field by field. */
  lemma PhdrSlotSays(slot: seq<byte>, relocated: Option<(u64, u64)>, size: nat)
    requires |slot| == ENTRY && size < TWO_64
    ensures var r := PhdrSlot(slot, relocated, size);
            && Field64(r, 0x20) == size && Field64(r, 0x28) == size
            && r[..8] == slot[..8] && r[0x30..] == slot[0x30..]
            && (relocated.None? ==> r[..0x20] == slot[..0x20])
            && (relocated.Some? ==> Field64(r, 8) == relocated.value.0)
            && (relocated.Some? ==> Field64(r, 0x10) == relocated.value.1 && Field64(r, 0x18) == relocated.value.1)
  {
    hide Le, Val;
    var r := PhdrSlot(slot, relocated, size);
    ValOfLe(size, 8);
    assert r[0x20..0x28] == Le(size, 8) && r[0x28..0x30] == Le(size, 8);
    if relocated.Some? {
      var (offset, address) := relocated.value;
      ValOfLe(offset, 8);
      ValOfLe(address, 8);
      assert r[8..0x10] == Le(offset, 8) && r[0x10..0x18] == Le(address, 8) && r[0x18..0x20] == Le(address, 8);
    }
  }

  /** An entry after the update of all PT_PHDRs. */
  function Told(slot: seq<byte>, relocated: Option<(u64, u64)>, size: nat): (r: seq<byte>)
    requires |slot| == ENTRY
    ensures |r| == ENTRY
  {
    if TypeOf(slot) == PT_PHDR then PhdrSlot(slot, relocated, size) else slot
  }

  lemma ToldKeepsType(slot: seq<byte>, relocated: Option<(u64, u64)>, size: nat)
    requires |slot| == ENTRY
    ensures TypeOf(Told(slot, relocated, size)) == TypeOf(slot)
    ensures LoadIn(Told(slot, relocated, size)) == LoadIn(slot)
  {
    hide Le, Val, SegmentOf;
    assert Told(slot, relocated, size)[0..4] == slot[0..4];
  }

  lemma SameSlot(a: seq<byte>, b: seq<byte>, table: nat, i: nat)
    requires |a| == |b| && table + ENTRY * (i + 1) <= |a|
    requires forall k :: table + ENTRY * i <= k < table + ENTRY * (i + 1) ==> a[k] == b[k]
    ensures Slot(a, table, i) == Slot(b, table, i)
  {
  }

  /** The update reaches exactly the slots `i..count`, and of these changes the PT_PHDRs as told. */
  ghost predicate SlotsTold(data: seq<byte>, data': seq<byte>, table: nat, i: nat, count: nat,
                            relocated: Option<(u64, u64)>, size: nat)
  {
    && |data'| == |data| && (i <= count ==> table + ENTRY * count <= |data|)
    && (forall k :: 0 <= k < |data| && !(table + ENTRY * i <= k < table + ENTRY * count) ==> data'[k] == data[k])
    && (forall j :: i <= j < count ==> Slot(data', table, j) == Told(Slot(data, table, j), relocated, size))
  }

  lemma {:induction false} UpdatePhdrsTells(data: seq<byte>, table: nat, i: nat, count: nat,
                                            relocated: Option<(u64, u64)>, size: nat)
    requires i <= count && table + ENTRY * count <= |data| < TWO_64
    ensures var r := UpdatePhdrs(data, table, i, count, PhdrFields(relocated, size));
            r.1 && SlotsTold(data, r.0, table, i, count, relocated, size)
    decreases count - i
  {
    hide Val, PhdrFields, PhdrSlot, WriteFields, InEntry;
    if i < count {
      var off := table + i * ENTRY;
      var slot := Slot(data, table, i);
      assert data[off..off + 4] == slot[0..4];
      var next := Splice(data, off, Told(slot, relocated, size));
      FirstTold(data, table, i, relocated, size);
      UpdatePhdrsTells(next, table, i + 1, count, relocated, size);
      RestTold(data, next, UpdatePhdrs(next, table, i + 1, count, PhdrFields(relocated, size)).0, table, i, count,
               relocated, size);
    }
  }

  /** One slot: the fields of a PT_PHDR are written, any other entry is left. */
  lemma FirstTold(data: seq<byte>, table: nat, i: nat, relocated: Option<(u64, u64)>, size: nat)
    requires table + ENTRY * (i + 1) <= |data|
    ensures var slot := Slot(data, table, i); var off := table + i * ENTRY;
            var next := Splice(data, off, Told(slot, relocated, size));
            if TypeOf(slot) == PT_PHDR then WriteFields(data, off, PhdrFields(relocated, size)) == (next, true)
            else next == data
  {
    hide Val, PhdrFields, PhdrSlot, WriteFields, InEntry;
    var off := table + i * ENTRY;
    var slot := Slot(data, table, i);
    assert slot == data[off..off + ENTRY];
    FieldsAreSlot(slot, relocated, size);
    if TypeOf(slot) == PT_PHDR {
      WriteFieldsIs(data, off, PhdrFields(relocated, size));
    } else {
      assert Splice(data, off, slot) == data;
    }
  }

  lemma RestTold(data: seq<byte>, next: seq<byte>, last: seq<byte>, table: nat, i: nat, count: nat,
                 relocated: Option<(u64, u64)>, size: nat)
    requires i < count && table + ENTRY * count <= |data|
    requires next == Splice(data, table + i * ENTRY, Told(Slot(data, table, i), relocated, size))
    requires SlotsTold(next, last, table, i + 1, count, relocated, size)
    ensures SlotsTold(data, last, table, i, count, relocated, size)
  {
    hide Told;
    forall j | i <= j < count
      ensures Slot(last, table, j) == Told(Slot(data, table, j), relocated, size)
    {
      if j > i {
        SameSlot(data, next, table, j);
      } else {
        SameSlot(next, last, table, i);
        assert Slot(next, table, i) == Told(Slot(data, table, i), relocated, size);
      }
    }
  }

  /** Slots told of the table have the same PT_LOADs. */
  lemma {:induction false} LoadsTold(a: seq<byte>, b: seq<byte>, table: nat, table': nat, n: nat,
                                     relocated: Option<(u64, u64)>, size: nat)
    requires table + ENTRY * n <= |a| && table' + ENTRY * n <= |b|
    requires forall j: nat :: j < n ==> Slot(b, table', j) == Told(Slot(a, table, j), relocated, size)
    ensures Loads(a, table, n) == Loads(b, table', n)
  {
    hide Told, Slot, LoadIn;
    if n > 0 {
      LoadsTold(a, b, table, table', n - 1, relocated, size);
      ToldKeepsType(Slot(a, table, n - 1), relocated, size);
    }
  }

  /** Replacing one other entry by a PT_LOAD adds exactly that segment. */
  lemma {:induction false} LoadsReplaced(a: seq<byte>, b: seq<byte>, table: nat, n: nat, note: nat, s: LoadSegment)
    requires table + ENTRY * n <= |a| && |a| == |b| && note < n
    requires forall j: nat :: j < n && j != note ==> Slot(a, table, j) == Slot(b, table, j)
    requires TypeOf(Slot(a, table, note)) != PT_LOAD && Slot(b, table, note) == HeaderBytes(s)
    ensures multiset(Loads(b, table, n)) == multiset(Loads(a, table, n)) + multiset{s}
  {
    hide LoadIn, HeaderBytes, Slot, TypeOf;
    var slot := Slot(a, table, n - 1);
    if note < n - 1 {
      LoadsReplaced(a, b, table, n - 1, note, s);
      SameAddition(Loads(b, table, n - 1), Loads(a, table, n - 1), LoadIn(slot), s);
    } else {
      LoadsPrefix(a, b, table, n - 1);
      NewAddition(Loads(a, table, n - 1), slot, s);
    }
  }

  lemma SameAddition(p: seq<LoadSegment>, q: seq<LoadSegment>, x: seq<LoadSegment>, s: LoadSegment)
    requires multiset(p) == multiset(q) + multiset{s}
    ensures multiset(p + x) == multiset(q + x) + multiset{s}
  {
  }

  lemma NewAddition(p: seq<LoadSegment>, slot: seq<byte>, s: LoadSegment)
    requires |slot| == ENTRY && TypeOf(slot) != PT_LOAD
    ensures multiset(p + LoadIn(HeaderBytes(s))) == multiset(p + LoadIn(slot)) + multiset{s}
  {
    hide HeaderBytes, SegmentOf, TypeOf;
    HeaderRoundTrip(s);
    assert p + [] == p;
  }

  lemma {:induction false} LoadsPrefix(a: seq<byte>, b: seq<byte>, table: nat, n: nat)
    requires table + ENTRY * n <= |a| && |a| == |b|
    requires forall j: nat :: j < n ==> Slot(a, table, j) == Slot(b, table, j)
    ensures Loads(a, table, n) == Loads(b, table, n)
  {
    hide LoadIn;
    if n > 0 {
      LoadsPrefix(a, b, table, n - 1);
    }
  }

  // ----- Main results -----

  /**
   The layout describes the bytes: the table lies behind the ELF header and
   inside the file, the header points to it, and its PT_LOADs are the layout's.
   */
  ghost predicate Describes(l: Layout, data: seq<byte>) {
    && l.entrySize == ENTRY && ELF_HEADER <= l.tableOffset
    && l.tableOffset + ENTRY * l.tableCount <= |data| < TWO_64
    && Val(data[0x20..0x28]) == l.tableOffset && Val(data[0x38..0x3a]) == l.tableCount
    && multiset(Loads(data, l.tableOffset, l.tableCount)) == multiset(l.loads)
  }

  /** The header words that point to the table. */
  lemma CountWritten(l: Layout, data: seq<byte>, table: u64, s: LoadSegment)
    requires l.tableCount + 1 < 0x1_0000 && ELF_HEADER <= |data|
    ensures var r := WithCount(l, data, table, s);
            && r.result == Ok(l.(tableOffset := table, tableCount := l.tableCount + 1, loads := l.loads + [s]))
            && |r.data| == |data|
            && (forall k :: 0 <= k < |data| && !(0x38 <= k < 0x3a) ==> r.data[k] == data[k])
            && Val(r.data[0x38..0x3a]) == l.tableCount + 1 && r.data[0x38..0x3a] == Le(l.tableCount + 1, 2)
  {
    hide Val, Le;
    var r := WithCount(l, data, table, s);
    ValLe(l.tableCount + 1, 2);
    Pow2Words();
    ShrSmall(l.tableCount + 1, 16);
    assert r.data[0x38..0x3a] == Le(l.tableCount + 1, 2);
  }

  /** The table of `count + 1` slots at `table'`: the old slots, told of the new table, and then the new segment. */
  ghost predicate Grown(l: Layout, data: seq<byte>, data': seq<byte>, table': nat, s: LoadSegment,
                        relocated: Option<(u64, u64)>) {
    && l.tableOffset + ENTRY * l.tableCount <= |data| && table' + ENTRY * (l.tableCount + 1) <= |data'|
    && (forall j: nat :: j < l.tableCount ==>
          Slot(data', table', j) == Told(Slot(data, l.tableOffset, j), relocated, ENTRY * (l.tableCount + 1)))
    && Slot(data', table', l.tableCount) == HeaderBytes(s)
  }

  lemma GrownLoads(l: Layout, data: seq<byte>, data': seq<byte>, table': nat, s: LoadSegment,
                   relocated: Option<(u64, u64)>)
    requires Grown(l, data, data', table', s, relocated)
    ensures Loads(data', table', l.tableCount + 1) == Loads(data, l.tableOffset, l.tableCount) + [s]
  {
    hide Told, SegmentOf, TypeOf, HeaderBytes;
    LoadsTold(data, data', l.tableOffset, table', l.tableCount, relocated, ENTRY * (l.tableCount + 1));
    HeaderRoundTrip(s);
  }

  /** Offset `k` is in a header word that the change records: the count, and the table's place when it moved. */
  ghost predicate Recorded(k: int, moved: bool) {
    0x38 <= k < 0x3a || (moved && 0x20 <= k < 0x28)
  }

  /** Bytes outside the table and the two header words are as before. */
  ghost predicate OnlyChanges(data: seq<byte>, data': seq<byte>, table: nat, size: nat, moved: bool) {
    |data'| == |data| &&
    forall k :: 0 <= k < |data| && !(table <= k < table + size) && !Recorded(k, moved) ==> data'[k] == data[k]
  }

  lemma SlackGrows(l: Layout, data: seq<byte>, s: LoadSegment)
    requires l.tableCount + 1 < 0x1_0000 && ELF_HEADER <= l.tableOffset
             && l.tableOffset + ENTRY * (l.tableCount + 1) <= |data| < TWO_64
    ensures var r := Slack(l, data, s);
            && r.result == Ok(l.(tableCount := l.tableCount + 1, loads := l.loads + [s]))
            && Grown(l, data, r.data, l.tableOffset, s, None)
            && OnlyChanges(data, r.data, l.tableOffset, ENTRY * (l.tableCount + 1), false)
            && Val(r.data[0x38..0x3a]) == l.tableCount + 1 && r.data[0x38..0x3a] == Le(l.tableCount + 1, 2)
  {
    hide HeaderBytes, UpdatePhdrs, WithCount, PhdrFields, Told, Val;
    var data1 := Splice(data, l.tableOffset + l.tableCount * ENTRY, HeaderBytes(s));
    var fields := PhdrFields(None, (l.tableCount + 1) * ENTRY);
    UpdatePhdrsTells(data1, l.tableOffset, 0, l.tableCount, None, (l.tableCount + 1) * ENTRY);
    var data2 := UpdatePhdrs(data1, l.tableOffset, 0, l.tableCount, fields).0;
    CountWritten(l, data2, l.tableOffset, s);
    var r := Slack(l, data, s);
    assert r == WithCount(l, data2, l.tableOffset, s);
    forall j: nat | j < l.tableCount
      ensures Slot(r.data, l.tableOffset, j) == Told(Slot(data, l.tableOffset, j), None, ENTRY * (l.tableCount + 1))
    {
      SameSlot(data, data1, l.tableOffset, j);
      SameSlot(data2, r.data, l.tableOffset, j);
    }
    assert Slot(r.data, l.tableOffset, l.tableCount) == HeaderBytes(s) by {
      assert Slot(data1, l.tableOffset, l.tableCount) == HeaderBytes(s);
      SameSlot(data1, r.data, l.tableOffset, l.tableCount);
    }
  }

  lemma MovedSlot(data: seq<byte>, from: nat, to: nat, n: nat, header: seq<byte>, j: nat)
    requires from + n * ENTRY <= |data| && to + (n + 1) * ENTRY <= |data| && |header| == ENTRY && j < n
    ensures Slot(data, from, j) == Slot(Splice(data, to, data[from..from + n * ENTRY] + header), to, j)
  {
    var block := data[from..from + n * ENTRY] + header;
    var moved := Splice(data, to, block);
    var a, b := Slot(data, from, j), Slot(moved, to, j);
    forall k | 0 <= k < ENTRY
      ensures a[k] == b[k]
    {
      var i := ENTRY * j + k;
      assert moved[to + i] == block[i] && block[i] == data[from + i];
    }
  }

  /** A slot moved, told of the new table, and then left alone. */
  lemma RelocatedSlot(data: seq<byte>, from: nat, to: nat, n: nat, header: seq<byte>, moved: seq<byte>, told: seq<byte>,
                      last: seq<byte>, relocated: Option<(u64, u64)>, size: nat, j: nat)
    requires from + n * ENTRY <= |data| && ELF_HEADER <= to && to + (n + 1) * ENTRY <= |data| == |moved| == |last|
    requires |header| == ENTRY && j < n && SlotsTold(moved, told, to, 0, n, relocated, size)
    requires var block := data[from..from + n * ENTRY] + header;
             forall k :: to <= k < to + n * ENTRY ==> moved[k] == Splice(data, to, block)[k]
    requires forall k :: to <= k < to + n * ENTRY ==> last[k] == told[k]
    ensures Slot(last, to, j) == Told(Slot(data, from, j), relocated, size)
  {
    hide Told;
    MovedSlot(data, from, to, n, header, j);
    SameSlot(moved, Splice(data, to, data[from..from + n * ENTRY] + header), to, j);
    SameSlot(last, told, to, j);
  }

  lemma RelocateGrows(l: Layout, data: seq<byte>, s: LoadSegment)
    requires l.entrySize == ENTRY && l.tableCount + 1 < 0x1_0000 && ELF_HEADER <= |data| < TWO_64
    requires Relocate(l, data, s, ENTRY * (l.tableCount + 1)).result.Ok? && ELF_HEADER <= s.offset
    ensures var r := Relocate(l, data, s, ENTRY * (l.tableCount + 1));
            && r.result == Ok(l.(tableOffset := s.offset, tableCount := l.tableCount + 1, loads := l.loads + [s]))
            && Grown(l, data, r.data, s.offset, s, Some((s.offset, s.virtualAddress)))
            && OnlyChanges(data, r.data, s.offset, ENTRY * (l.tableCount + 1), true)
            && Val(r.data[0x20..0x28]) == s.offset && Val(r.data[0x38..0x3a]) == l.tableCount + 1
            && r.data[0x20..0x28] == Le(s.offset, 8) && r.data[0x38..0x3a] == Le(l.tableCount + 1, 2)
  {
    hide HeaderBytes, UpdatePhdrs, WithCount, PhdrFields, Told, Val, Le, HasType;
    var table, n := s.offset, l.tableCount;
    var data1 := Splice(data, table, data[l.tableOffset..l.tableOffset + n * ENTRY] + HeaderBytes(s));
    var data2 := Splice(data1, 0x20, Le(table, 8));
    var fields := PhdrFields(Some((table, s.virtualAddress)), (n + 1) * ENTRY);
    UpdatePhdrsTells(data2, table, 0, n, Some((table, s.virtualAddress)), (n + 1) * ENTRY);
    var data3 := UpdatePhdrs(data2, table, 0, n, fields).0;
    CountWritten(l, data3, table, s);
    var r := Relocate(l, data, s, ENTRY * (n + 1));
    assert r == WithCount(l, data3, table, s);
    forall j: nat | j < n
      ensures Slot(r.data, table, j)
              == Told(Slot(data, l.tableOffset, j), Some((table, s.virtualAddress)), ENTRY * (n + 1))
    {
      RelocatedSlot(data, l.tableOffset, table, n, HeaderBytes(s), data2, data3, r.data,
                    Some((table, s.virtualAddress)), ENTRY * (n + 1), j);
    }
    assert Slot(r.data, table, n) == HeaderBytes(s) by {
      assert Slot(data1, table, n) == HeaderBytes(s);
      SameSlot(data1, r.data, table, n);
    }
    ValOfLe(table, 8);
    assert r.data[0x20..0x28] == data2[0x20..0x28] == Le(table, 8);
  }

  // ----- Which note is given up -----

  predicate NoteSlot(data: seq<byte>, table: nat, i: nat)
    requires table + ENTRY * (i + 1) <= |data|
  {
    TypeOf(Slot(data, table, i)) == PT_NOTE
  }

  function NoteFrom(data: seq<byte>, table: nat, i: nat): nat
    requires table + ENTRY * (i + 1) <= |data|
  {
    Field64(Slot(data, table, i), 8)
  }

  function NoteEnd(data: seq<byte>, table: nat, i: nat): nat
    requires table + ENTRY * (i + 1) <= |data|
  {
    Field64(Slot(data, table, i), 8) + Field64(Slot(data, table, i), 0x20)
  }

  /** How many of the first `n` entries are PT_NOTEs. */
  function NoteCount(data: seq<byte>, table: nat, n: nat): nat
    requires table + ENTRY * n <= |data|
  {
    if n == 0 then 0 else NoteCount(data, table, n - 1) + if NoteSlot(data, table, n - 1) then 1 else 0
  }

  /** Entry `i` is a PT_NOTE inside a PT_LOAD. */
  predicate Candidate(l: Layout, data: seq<byte>, i: nat)
    requires l.tableOffset + ENTRY * (i + 1) <= |data|
  {
    NoteSlot(data, l.tableOffset, i)
      && Contained(l.loads, NoteFrom(data, l.tableOffset, i), NoteEnd(data, l.tableOffset, i))
  }

  ghost predicate NoteOverflows(data: seq<byte>, table: nat, n: nat)
    requires table + ENTRY * n <= |data|
  {
    exists i :: 0 <= i < n && NoteSlot(data, table, i) && NoteEnd(data, table, i) >= TWO_64
  }

  /** The candidates among the first `n` entries, in table order, each with its file offset. */
  ghost predicate CandidatesOf(l: Layout, data: seq<byte>, n: nat, found: seq<(nat, nat)>)
    requires l.tableOffset + ENTRY * n <= |data|
  {
    && (forall k :: 0 <= k < |found| ==>
          found[k].1 < n && Candidate(l, data, found[k].1) && found[k].0 == NoteFrom(data, l.tableOffset, found[k].1))
    && (forall k, m :: 0 <= k < m < |found| ==> found[k].1 < found[m].1)
    && (forall i :: 0 <= i < n && Candidate(l, data, i) ==> (NoteFrom(data, l.tableOffset, i), i) in found)
  }

  lemma NoteAtIs(l: Layout, data: seq<byte>, i: nat, count: nat, found: seq<(nat, nat)>)
    requires l.entrySize == ENTRY && l.tableOffset + ENTRY * (i + 1) <= |data| < TWO_64
    ensures NoteAt(l, data, i, count, found)
         == if !NoteSlot(data, l.tableOffset, i) then Ok((count, found))
            else if NoteEnd(data, l.tableOffset, i) >= TWO_64 then Err(RangeOverflow)
            else Ok((count + 1,
                     if Candidate(l, data, i) then found + [(NoteFrom(data, l.tableOffset, i), i)] else found))
  {
    hide Contained, Slot, Field64, TypeOf, Read;
    ReadSlot(data, l.tableOffset, i);
  }

  lemma CandidatesNext(l: Layout, data: seq<byte>, n: nat, found: seq<(nat, nat)>)
    requires l.tableOffset + ENTRY * (n + 1) <= |data| && CandidatesOf(l, data, n, found)
    ensures CandidatesOf(l, data, n + 1,
                         if Candidate(l, data, n) then found + [(NoteFrom(data, l.tableOffset, n), n)] else found)
  {
    hide Candidate, NoteFrom;
    if Candidate(l, data, n) {
      var more := found + [(NoteFrom(data, l.tableOffset, n), n)];
      forall i | 0 <= i < n + 1 && Candidate(l, data, i)
        ensures (NoteFrom(data, l.tableOffset, i), i) in more
      {
        if i == n {
          assert more[|found|] == (NoteFrom(data, l.tableOffset, n), n);
        } else {
          assert (NoteFrom(data, l.tableOffset, i), i) in found;
        }
      }
    }
  }

  lemma {:induction false} NotesAre(l: Layout, data: seq<byte>, n: nat)
    requires l.entrySize == ENTRY && l.tableOffset + ENTRY * n <= |data| < TWO_64
    ensures Notes(l, data, n) == Err(RangeOverflow) <==> NoteOverflows(data, l.tableOffset, n)
    ensures Notes(l, data, n).Err? ==> Notes(l, data, n) == Err(RangeOverflow)
    ensures Notes(l, data, n).Ok? ==>
              var (count, found) := Notes(l, data, n).value;
              count == NoteCount(data, l.tableOffset, n) && CandidatesOf(l, data, n, found)
  {
    hide NoteAt, NoteSlot, NoteEnd, NoteFrom, Candidate, CandidatesOf;
    if n == 0 {
      NoCandidates(l, data);
    } else {
      NotesAre(l, data, n - 1);
      if Notes(l, data, n - 1).Ok? {
        var (count, found) := Notes(l, data, n - 1).value;
        NoteAtIs(l, data, n - 1, count, found);
        CandidatesNext(l, data, n - 1, found);
        NotANote(l, data, n - 1);
      }
    }
  }

  lemma NoCandidates(l: Layout, data: seq<byte>)
    requires l.tableOffset <= |data|
    ensures CandidatesOf(l, data, 0, [])
  {
  }

  lemma NotANote(l: Layout, data: seq<byte>, i: nat)
    requires l.tableOffset + ENTRY * (i + 1) <= |data|
    ensures Candidate(l, data, i) ==> NoteSlot(data, l.tableOffset, i)
  {
    hide NoteSlot;
  }

  lemma {:induction false} LastMaxIsLast(found: seq<(nat, nat)>, c: (nat, nat))
    requires (forall k, m :: 0 <= k < m < |found| ==> found[k].1 < found[m].1) && c in found
    requires LastMax(found).value.0 == c.0
    ensures c.1 <= LastMax(found).value.1
  {
    var last, rest := found[|found| - 1], found[..|found| - 1];
    assert found == rest + [last];
    if c != last {
      assert c in rest;
      LastMaxIsLast(rest, c);
    }
  }

  /**
   Which note may be given up: there are at least two PT_NOTEs, it lies inside a
   PT_LOAD, no other such note has a larger file offset, and of those with the
   same offset it is the last. There is none exactly when there are fewer than
   two PT_NOTEs or none lies inside a PT_LOAD; the scan fails exactly when the
   range of a PT_NOTE overflows.
   */
  ghost predicate IsReusable(l: Layout, data: seq<byte>, r: Result<Option<nat>, Error>)
    requires l.tableOffset + ENTRY * l.tableCount <= |data|
  {
    var table, n := l.tableOffset, l.tableCount;
    && (r.Err? <==> NoteOverflows(data, table, n)) && (r.Err? ==> r == Err(RangeOverflow))
    && (r == Ok(None) <==>
          !NoteOverflows(data, table, n)
          && (NoteCount(data, table, n) < 2 || forall i :: 0 <= i < n ==> !Candidate(l, data, i)))
    && (r.Ok? && r.value.Some? ==>
          var i := r.value.value;
          && NoteCount(data, table, n) >= 2 && i < n && Candidate(l, data, i)
          && forall j :: 0 <= j < n && Candidate(l, data, j) ==>
               && NoteFrom(data, table, j) <= NoteFrom(data, table, i)
               && (NoteFrom(data, table, j) == NoteFrom(data, table, i) ==> j <= i))
  }

  lemma ReusableNoteIs(l: Layout, data: seq<byte>)
    requires l.entrySize == ENTRY && l.tableOffset + ENTRY * l.tableCount <= |data| < TWO_64
    ensures IsReusable(l, data, ReusableNote(l, data))
  {
    hide Notes, NoteOverflows, NoteCount, Candidate, NoteFrom;
    NotesAre(l, data, l.tableCount);
    if Notes(l, data, l.tableCount).Ok? {
      var (count, found) := Notes(l, data, l.tableCount).value;
      var best := LastMax(found);
      if best.Some? {
        forall j | 0 <= j < l.tableCount && Candidate(l, data, j)
          ensures NoteFrom(data, l.tableOffset, j) <= best.value.0
          ensures NoteFrom(data, l.tableOffset, j) == best.value.0 ==> j <= best.value.1
        {
          var c := (NoteFrom(data, l.tableOffset, j), j);
          assert c in found;
          if c.0 == best.value.0 {
            LastMaxIsLast(found, c);
          }
        }
      }
    }
  }

  /** A reused entry is one of the table's PT_NOTEs. */
  lemma ReusedIsNote(l: Layout, data: seq<byte>)
    requires l.entrySize == ENTRY && l.tableOffset + ENTRY * l.tableCount <= |data| < TWO_64
    requires ReusableNote(l, data).Ok? && ReusableNote(l, data).value.Some?
    ensures var note := ReusableNote(l, data).value.value;
            note < l.tableCount && TypeOf(Slot(data, l.tableOffset, note)) == PT_NOTE
  {
    hide ReusableNote, Slot, TypeOf, NoteCount, NoteOverflows, Contained, NoteFrom, NoteEnd;
    ReusableNoteIs(l, data);
  }

  lemma ReuseReplaces(l: Layout, data: seq<byte>, s: LoadSegment, note: nat)
    requires l.tableOffset + ENTRY * l.tableCount <= |data| < TWO_64 && note < l.tableCount
    requires TypeOf(Slot(data, l.tableOffset, note)) == PT_NOTE
    ensures var r := Reuse(l, data, s, note);
            && r.result == Ok(l.(loads := l.loads + [s])) && |r.data| == |data|
            && r.data == Splice(data, l.tableOffset + note * ENTRY, HeaderBytes(s))
            && multiset(Loads(r.data, l.tableOffset, l.tableCount))
                 == multiset(Loads(data, l.tableOffset, l.tableCount)) + multiset{s}
  {
    hide HeaderBytes, TypeOf;
    var at := l.tableOffset + note * ENTRY;
    var data' := Splice(data, at, HeaderBytes(s));
    forall j: nat | j < l.tableCount && j != note
      ensures Slot(data, l.tableOffset, j) == Slot(data', l.tableOffset, j)
    {
      SameSlot(data, data', l.tableOffset, j);
    }
    assert Slot(data', l.tableOffset, note) == HeaderBytes(s);
    LoadsReplaced(data, data', l.tableOffset, l.tableCount, note, s);
  }

  /**
   Re-reading after an append: in all three strategies the table that the new
   header points to holds the old PT_LOADs and the new one, no more and no
   less, so the returned layout describes the new bytes. The only proviso is
   that a relocated table does not land on the ELF header.
   */
  lemma AppendDescribes(l: Layout, data: seq<byte>, s: LoadSegment, reserved: nat)
    requires Describes(l, data)
    requires Append(l, data, s, reserved).result.Ok?
             && ELF_HEADER <= Append(l, data, s, reserved).result.value.tableOffset
    ensures var r := Append(l, data, s, reserved);
            && Describes(r.result.value, r.data) && |r.data| == |data|
            && r.result.value.loads == l.loads + [s] && r.result.value.sections == l.sections
  {
    hide Slack, Relocate, Reuse, Loads, Val, HeaderBytes, ReusableNote, Le, Grown;
    var r := Append(l, data, s, reserved);
    var reservation := Check(l, |data|, s, reserved).value;
    if reservation == 0 {
      SlackFits(l, data, s);
      SlackGrows(l, data, s);
      SameWord(data, r.data, 0x20, 0x28);
      GrownDescribes(l, data, r.data, r.result.value, s, None);
    } else if ReusableNote(l, data).value.Some? {
      ReuseDescribes(l, data, s, ReusableNote(l, data).value.value);
    } else {
      RelocateOffset(l, data, s, reservation);
      RelocateGrows(l, data, s);
      GrownDescribes(l, data, r.data, r.result.value, s, Some((s.offset, s.virtualAddress)));
    }
  }

  lemma SameWord(a: seq<byte>, b: seq<byte>, from: nat, to: nat)
    requires from <= to <= |a| == |b| && forall k :: from <= k < to ==> a[k] == b[k]
    ensures a[from..to] == b[from..to]
  {
  }

  /** A grown table that the header words point to is described by the grown layout. */
  lemma GrownDescribes(l: Layout, data: seq<byte>, data': seq<byte>, l': Layout, s: LoadSegment,
                       relocated: Option<(u64, u64)>)
    requires Describes(l, data) && Grown(l, data, data', l'.tableOffset, s, relocated) && |data'| == |data|
    requires l' == l.(tableOffset := l'.tableOffset, tableCount := l.tableCount + 1, loads := l.loads + [s])
    requires ELF_HEADER <= l'.tableOffset
    requires Val(data'[0x20..0x28]) == l'.tableOffset && Val(data'[0x38..0x3a]) == l'.tableCount
    ensures Describes(l', data')
  {
    hide Loads, Val, HeaderBytes, Told;
    GrownLoads(l, data, data', l'.tableOffset, s, relocated);
    assert multiset(l.loads + [s]) == multiset(l.loads) + multiset{s};
  }

  lemma ReuseDescribes(l: Layout, data: seq<byte>, s: LoadSegment, note: nat)
    requires Describes(l, data) && ReusableNote(l, data) == Ok(Some(note))
    ensures var r := Reuse(l, data, s, note);
            && r.result == Ok(l.(loads := l.loads + [s])) && |r.data| == |data|
            && Describes(l.(loads := l.loads + [s]), r.data)
  {
    hide Reuse, Loads, Val, HeaderBytes, ReusableNote;
    ReusedIsNote(l, data);
    ReuseReplaces(l, data, s, note);
    var r := Reuse(l, data, s, note);
    SameWord(data, r.data, 0x20, 0x28);
    SameWord(data, r.data, 0x38, 0x3a);
    assert multiset(l.loads + [s]) == multiset(l.loads) + multiset{s};
  }

  lemma SlackFits(l: Layout, data: seq<byte>, s: LoadSegment)
    requires l.tableCount + 1 < 0x1_0000 && Slack(l, data, s).result.Ok?
    ensures l.tableOffset + ENTRY * (l.tableCount + 1) <= |data|
  {
  }

  lemma RelocateOffset(l: Layout, data: seq<byte>, s: LoadSegment, reservation: nat)
    requires l.entrySize == ENTRY && l.tableCount + 1 < 0x1_0000 && Relocate(l, data, s, reservation).result.Ok?
    ensures Relocate(l, data, s, reservation).result.value.tableOffset == s.offset
    ensures reservation == ENTRY * (l.tableCount + 1) && s.offset + reservation <= s.offset + s.fileSize
  {
  }

  /** What each strategy changes, byte for byte. */
  ghost predicate ChangedExactly(l: Layout, data: seq<byte>, data': seq<byte>, s: LoadSegment, reserved: nat)
    requires l.entrySize == ENTRY
  {
    if reserved == 0 then
      // The slot after the table is filled, PT_PHDRs get the new size, and the count word is set.
      && Grown(l, data, data', l.tableOffset, s, None)
      && OnlyChanges(data, data', l.tableOffset, ENTRY * (l.tableCount + 1), false)
      && ELF_HEADER <= |data'| && data'[0x38..0x3a] == Le(l.tableCount + 1, 2)
    else
      match ReusableNote(l, data)
      // The 56 bytes of one entry.
      case Ok(Some(note)) =>
        l.tableOffset + ENTRY * (note + 1) <= |data|
          && data' == Splice(data, l.tableOffset + ENTRY * note, HeaderBytes(s))
      // The new table, whose PT_PHDRs name it, and both header words.
      case Ok(None) =>
        && Grown(l, data, data', s.offset, s, Some((s.offset, s.virtualAddress)))
        && OnlyChanges(data, data', s.offset, ENTRY * (l.tableCount + 1), true)
        && ELF_HEADER <= |data'| && data'[0x20..0x28] == Le(s.offset, 8) && data'[0x38..0x3a] == Le(l.tableCount + 1, 2)
      case Err(_) => false
  }

  /** A successful append changes exactly what its strategy says, and nothing else. */
  lemma AppendFrame(l: Layout, data: seq<byte>, s: LoadSegment, reserved: nat)
    requires Describes(l, data)
    requires Append(l, data, s, reserved).result.Ok?
             && ELF_HEADER <= Append(l, data, s, reserved).result.value.tableOffset
    ensures ChangedExactly(l, data, Append(l, data, s, reserved).data, s, reserved)
  {
    hide Slack, Relocate, Reuse, Loads, Val, HeaderBytes, ReusableNote, Le;
    var r := Append(l, data, s, reserved);
    var reservation := Check(l, |data|, s, reserved).value;
    if reservation == 0 {
      SlackFits(l, data, s);
      SlackGrows(l, data, s);
    } else if ReusableNote(l, data).value.Some? {
      var note := ReusableNote(l, data).value.value;
      ReusedIsNote(l, data);
      ReuseReplaces(l, data, s, note);
    } else {
      RelocateOffset(l, data, s, reservation);
      RelocateGrows(l, data, s);
    }
  }

  // ----- PT_PHDR names the table -----

  /** Every PT_PHDR gives the offset of the table that the header points to, and its whole size twice. */
  ghost predicate PhdrsName(l: Layout, data: seq<byte>) {
    l.tableOffset + ENTRY * l.tableCount <= |data| &&
    forall j: nat :: j < l.tableCount ==> NamesTable(Slot(data, l.tableOffset, j), l.tableOffset, ENTRY * l.tableCount)
  }

  predicate NamesTable(slot: seq<byte>, table: nat, size: nat)
    requires |slot| == ENTRY
  {
    TypeOf(slot) == PT_PHDR ==> Field64(slot, 8) == table && Field64(slot, 0x20) == size && Field64(slot, 0x28) == size
  }

  /** In a table moved to segment `s`, a PT_PHDR also gives the address the table is loaded at. */
  predicate NamesAddress(slot: seq<byte>, address: nat)
    requires |slot| == ENTRY
  {
    TypeOf(slot) == PT_PHDR ==> Field64(slot, 0x10) == address && Field64(slot, 0x18) == address
  }

  lemma ToldNames(slot: seq<byte>, relocated: Option<(u64, u64)>, size: nat)
    requires |slot| == ENTRY && size < TWO_64
    ensures var r := Told(slot, relocated, size);
            && (relocated.Some? ==> NamesTable(r, relocated.value.0, size) && NamesAddress(r, relocated.value.1))
            && (relocated.None? ==> forall table, was :: NamesTable(slot, table, was) ==> NamesTable(r, table, size))
  {
    hide PhdrSlot, Val;
    ToldKeepsType(slot, relocated, size);
    PhdrSlotSays(slot, relocated, size);
    if relocated.None? {
      var r := PhdrSlot(slot, relocated, size);
      assert r[8..0x10] == r[..0x20][8..0x10] && slot[8..0x10] == slot[..0x20][8..0x10];
    }
  }

  lemma LoadNames(s: LoadSegment, table: nat, size: nat)
    ensures NamesTable(HeaderBytes(s), table, size)
  {
    hide HeaderBytes, SegmentOf;
    HeaderRoundTrip(s);
  }

  /** The grown table's PT_PHDRs name it: always when it moved, and when it stayed if they named it before. */
  lemma GrownNames(l: Layout, data: seq<byte>, data': seq<byte>, table': nat, s: LoadSegment,
                   relocated: Option<(u64, u64)>)
    requires Grown(l, data, data', table', s, relocated) && l.tableCount + 1 < 0x1_0000
    requires relocated.None? ==> table' == l.tableOffset && PhdrsName(l, data)
    requires relocated.Some? ==> relocated.value.0 == table'
    ensures PhdrsName(l.(tableOffset := table', tableCount := l.tableCount + 1), data')
    ensures relocated.Some? ==>
            forall j: nat :: j < l.tableCount ==> NamesAddress(Slot(data', table', j), relocated.value.1)
  {
    hide Told, HeaderBytes, NamesTable, NamesAddress, Slot;
    var size := ENTRY * (l.tableCount + 1);
    forall j: nat | j < l.tableCount
      ensures NamesTable(Slot(data', table', j), table', size)
      ensures relocated.Some? ==> NamesAddress(Slot(data', table', j), relocated.value.1)
    {
      ToldNames(Slot(data, l.tableOffset, j), relocated, size);
    }
    LoadNames(s, table', size);
  }

  /**
   After a successful append every PT_PHDR names the table that the header
   words point to: unconditionally when the table moved, and otherwise if it
   did before. When the table moved, its address is that of the new segment,
   which the table starts.
   */
  lemma AppendNamesTable(l: Layout, data: seq<byte>, s: LoadSegment, reserved: nat)
    requires Describes(l, data)
    requires Append(l, data, s, reserved).result.Ok?
             && ELF_HEADER <= Append(l, data, s, reserved).result.value.tableOffset
    ensures var r := Append(l, data, s, reserved); var l' := r.result.value;
            && (PhdrsName(l, data) ==> PhdrsName(l', r.data))
            && (reserved != 0 && ReusableNote(l, data) == Ok(None) ==>
                  && PhdrsName(l', r.data) && l'.tableOffset == s.offset
                  && forall j: nat :: j < l.tableCount ==> NamesAddress(Slot(r.data, s.offset, j), s.virtualAddress))
  {
    hide Slack, Relocate, Reuse, Loads, Val, HeaderBytes, ReusableNote, Le, PhdrsName, Grown, NamesAddress;
    var r := Append(l, data, s, reserved);
    var reservation := Check(l, |data|, s, reserved).value;
    if reservation == 0 {
      SlackFits(l, data, s);
      SlackGrows(l, data, s);
      if PhdrsName(l, data) {
        GrownNames(l, data, r.data, l.tableOffset, s, None);
        SameLoadsName(l.(tableCount := l.tableCount + 1), r.result.value, r.data);
      }
    } else if ReusableNote(l, data).value.Some? {
      var note := ReusableNote(l, data).value.value;
      ReusedIsNote(l, data);
      ReuseReplaces(l, data, s, note);
      if PhdrsName(l, data) {
        ReuseNames(l, data, s, note);
        SameLoadsName(l, r.result.value, r.data);
      }
    } else {
      RelocateOffset(l, data, s, reservation);
      RelocateGrows(l, data, s);
      GrownNames(l, data, r.data, s.offset, s, Some((s.offset, s.virtualAddress)));
      SameLoadsName(l.(tableOffset := s.offset, tableCount := l.tableCount + 1), r.result.value, r.data);
    }
  }

  lemma SameLoadsName(l: Layout, l': Layout, data: seq<byte>)
    requires PhdrsName(l, data) && l'.tableOffset == l.tableOffset && l'.tableCount == l.tableCount
    ensures PhdrsName(l', data)
  {
    hide NamesTable;
  }

  lemma ReuseNames(l: Layout, data: seq<byte>, s: LoadSegment, note: nat)
    requires PhdrsName(l, data) && note < l.tableCount
    ensures PhdrsName(l, Splice(data, l.tableOffset + note * ENTRY, HeaderBytes(s)))
  {
    hide NamesTable, HeaderBytes;
    var data' := Splice(data, l.tableOffset + note * ENTRY, HeaderBytes(s));
    forall j: nat | j < l.tableCount
      ensures NamesTable(Slot(data', l.tableOffset, j), l.tableOffset, ENTRY * l.tableCount)
    {
      if j == note {
        assert Slot(data', l.tableOffset, note) == HeaderBytes(s);
        LoadNames(s, l.tableOffset, ENTRY * l.tableCount);
      } else {
        SameSlot(data', data, l.tableOffset, j);
      }
    }
  }

  /** A relocation that passes its checks completes. */
  lemma RelocateAllOrNothing(l: Layout, data: seq<byte>, s: LoadSegment, reservation: nat)
    requires l.entrySize == ENTRY && l.tableCount + 1 < 0x1_0000 && ELF_HEADER <= |data| < TWO_64
    ensures var r := Relocate(l, data, s, reservation); r.result.Err? ==> r.data == data
  {
    hide HeaderBytes, UpdatePhdrs, WithCount, PhdrFields, Val, Le, HasType;
    var table, n := s.offset, l.tableCount;
    if table + (n + 1) * ENTRY <= |data| && l.tableOffset + n * ENTRY <= |data| {
      var data1 := Splice(data, table, data[l.tableOffset..l.tableOffset + n * ENTRY] + HeaderBytes(s));
      var data2 := Splice(data1, 0x20, Le(table, 8));
      var fields := PhdrFields(Some((table, s.virtualAddress)), (n + 1) * ENTRY);
      UpdatePhdrsTells(data2, table, 0, n, Some((table, s.virtualAddress)), (n + 1) * ENTRY);
      CountWritten(l, UpdatePhdrs(data2, table, 0, n, fields).0, table, s);
    }
  }

  /** A refused append leaves every byte as it was. */
  lemma AppendFailsCleanly(l: Layout, data: seq<byte>, s: LoadSegment, reserved: nat)
    requires Describes(l, data) && Append(l, data, s, reserved).result.Err?
    ensures Append(l, data, s, reserved).data == data
  {
    hide Relocate, Reuse, Loads, Val, HeaderBytes, ReusableNote, UpdatePhdrs, WithCount, PhdrFields;
    var checked := Check(l, |data|, s, reserved);
    if checked.Ok? {
      if checked.value == 0 {
        if l.tableOffset + ENTRY * (l.tableCount + 1) <= |data| {
          SlackGrows(l, data, s);
        }
      } else if ReusableNote(l, data).Ok? {
        if ReusableNote(l, data).value.Some? {
          ReusedIsNote(l, data);
          ReuseReplaces(l, data, s, ReusableNote(l, data).value.value);
        } else {
          RelocateAllOrNothing(l, data, s, checked.value);
        }
      }
    }
  }

  // ----- When an append succeeds -----

  /** One more slot fits between the table and the first section that has contents. */
  ghost predicate HasSlack(l: Layout) {
    forall s :: s in l.sections && HasContents(s) ==> l.tableOffset + ENTRY * (l.tableCount + 1) <= s.offset
  }

  /** `a` is a power of two. */
  ghost predicate HasExponent(a: nat)
    ensures HasExponent(a) ==> a > 0
  {
    exists k: nat :: a == Pow2(k)
  }

  /** What a segment must satisfy by itself, in a file of `len` bytes. */
  ghost predicate WellFormed(s: LoadSegment, len: nat) {
    && 0 < s.fileSize <= s.memorySize
    && HasExponent(s.alignment)
    && s.offset % s.alignment == s.virtualAddress % s.alignment
    && s.offset + s.fileSize <= len && s.virtualAddress + s.memorySize < TWO_64
  }

  /** No segment of the layout wraps around, and none meets `s` in the file or in memory. */
  ghost predicate ClearOf(loads: seq<LoadSegment>, s: LoadSegment) {
    forall e :: e in loads ==>
      && e.offset + e.fileSize < TWO_64 && e.virtualAddress + e.memorySize < TWO_64
      && FileApart(s, e) && MemoryApart(s, e)
  }

  /** Some PT_NOTE can be given up. */
  ghost predicate HasSpareNote(l: Layout, data: seq<byte>)
    requires l.tableOffset + ENTRY * l.tableCount <= |data|
  {
    NoteCount(data, l.tableOffset, l.tableCount) >= 2 && exists i :: 0 <= i < l.tableCount && Candidate(l, data, i)
  }

  ghost predicate HasPhdr(l: Layout, data: seq<byte>)
    requires l.tableOffset + ENTRY * l.tableCount <= |data|
  {
    exists i :: 0 <= i < l.tableCount && TypeOf(Slot(data, l.tableOffset, i)) == PT_PHDR
  }

  /**
   The table has a place for one more entry, and the caller has reserved as much
   as that place takes: nothing for a slot in the slack, which must be in the
   file; a whole table otherwise, for which a spare PT_NOTE is used or, if
   there is none, the segment must have the room and a PT_PHDR must be there to
   be told.
   */
  ghost predicate HasPlace(l: Layout, data: seq<byte>, s: LoadSegment, reserved: nat)
    requires l.tableOffset + ENTRY * l.tableCount <= |data|
  {
    var size := ENTRY * (l.tableCount + 1);
    && l.tableCount + 1 < 0x1_0000 && l.tableOffset + size < TWO_64
    && if HasSlack(l) then reserved == 0 && l.tableOffset + size <= |data|
       else
         && reserved == size && !NoteOverflows(data, l.tableOffset, l.tableCount)
         && (HasSpareNote(l, data) || (HasPhdr(l, data) && size <= s.fileSize))
  }

  lemma PowerOfTwoIs(a: nat)
    ensures IsPowerOfTwo(a) <==> HasExponent(a)
  {
    if IsPowerOfTwo(a) {
      PowerHasExponent(a);
    }
    forall k: nat | a == Pow2(k)
      ensures IsPowerOfTwo(a)
    {
      PowerOfExponent(k);
    }
  }

  lemma {:induction false} PowerHasExponent(a: nat)
    requires IsPowerOfTwo(a)
    ensures exists k: nat :: a == Pow2(k)
  {
    if a == 1 {
      assert a == Pow2(0);
    } else {
      PowerHasExponent(a / 2);
      var k: nat :| a / 2 == Pow2(k);
      assert a == Pow2(k + 1);
    }
  }

  lemma {:induction false} PowerOfExponent(k: nat)
    ensures IsPowerOfTwo(Pow2(k))
  {
    if k > 0 {
      PowerOfExponent(k - 1);
      assert Pow2(k) / 2 == Pow2(k - 1);
    }
  }

  lemma ReservationIs(l: Layout)
    requires l.entrySize == ENTRY && l.tableCount + 1 < 0x1_0000
    ensures Reservation(l).Ok? <==> l.tableOffset + ENTRY * (l.tableCount + 1) < TWO_64
    ensures Reservation(l).Ok? ==> Reservation(l).value == if HasSlack(l) then 0 else ENTRY * (l.tableCount + 1)
  {
  }

  lemma CheckIs(l: Layout, len: nat, s: LoadSegment, reserved: nat)
    requires l.entrySize == ENTRY && len < TWO_64
    ensures Check(l, len, s, reserved).Ok? <==>
              && WellFormed(s, len) && ClearOf(l.loads, s) && l.tableCount + 1 < 0x1_0000
              && l.tableOffset + ENTRY * (l.tableCount + 1) < TWO_64
              && reserved == if HasSlack(l) then 0 else ENTRY * (l.tableCount + 1)
    ensures Check(l, len, s, reserved).Ok? ==> Check(l, len, s, reserved) == Ok(reserved)
  {
    hide Reservation, IsPowerOfTwo, HasExponent, HasSlack, FileApart, MemoryApart, CheckLoads;
    PowerOfTwoIs(s.alignment);
    assert CheckLoads(l.loads, s) == None <==> ClearOf(l.loads, s);
    if l.tableCount + 1 < 0x1_0000 {
      ReservationIs(l);
    }
  }

  lemma {:induction false} HasTypeIs(l: Layout, data: seq<byte>, t: nat, i: nat)
    requires l.entrySize == ENTRY && l.tableOffset + ENTRY * l.tableCount <= |data| < TWO_64 && i <= l.tableCount
    ensures HasType(l, data, t, i)
         == Ok(exists j :: i <= j < l.tableCount && TypeOf(Slot(data, l.tableOffset, j)) == t)
    decreases l.tableCount - i
  {
    hide Slot, TypeOf, Read;
    if i < l.tableCount {
      ReadSlot(data, l.tableOffset, i);
      HasTypeIs(l, data, t, i + 1);
    }
  }

  /** A relocation completes exactly when there is a PT_PHDR and the segment has room for the table. */
  lemma RelocateSucceeds(l: Layout, data: seq<byte>, s: LoadSegment)
    requires l.entrySize == ENTRY && l.tableCount + 1 < 0x1_0000 && ELF_HEADER <= |data| < TWO_64
    requires l.tableOffset + ENTRY * l.tableCount <= |data| && s.offset + s.fileSize <= |data|
    ensures Relocate(l, data, s, ENTRY * (l.tableCount + 1)).result.Ok? <==>
              HasPhdr(l, data) && ENTRY * (l.tableCount + 1) <= s.fileSize
  {
    hide HeaderBytes, UpdatePhdrs, WithCount, PhdrFields, Val, Le, HasType, Slot, TypeOf;
    var table, n := s.offset, l.tableCount;
    HasTypeIs(l, data, PT_PHDR, 0);
    if table + (n + 1) * ENTRY <= |data| {
      var data1 := Splice(data, table, data[l.tableOffset..l.tableOffset + n * ENTRY] + HeaderBytes(s));
      var data2 := Splice(data1, 0x20, Le(table, 8));
      var fields := PhdrFields(Some((table, s.virtualAddress)), (n + 1) * ENTRY);
      UpdatePhdrsTells(data2, table, 0, n, Some((table, s.virtualAddress)), (n + 1) * ENTRY);
      CountWritten(l, UpdatePhdrs(data2, table, 0, n, fields).0, table, s);
    }
  }

  lemma SlackSucceeds(l: Layout, data: seq<byte>, s: LoadSegment)
    requires l.tableCount + 1 < 0x1_0000 && ELF_HEADER <= l.tableOffset && |data| < TWO_64
    ensures Slack(l, data, s).result.Ok? <==> l.tableOffset + ENTRY * (l.tableCount + 1) <= |data|
  {
    hide Slack;
    if l.tableOffset + ENTRY * (l.tableCount + 1) <= |data| {
      SlackGrows(l, data, s);
    } else if Slack(l, data, s).result.Ok? {
      SlackFits(l, data, s);
    }
  }

  /** The segment is sound, clear of the others, and the table has a place for it. */
  ghost predicate Acceptable(l: Layout, data: seq<byte>, s: LoadSegment, reserved: nat)
    requires l.tableOffset + ENTRY * l.tableCount <= |data|
  {
    WellFormed(s, |data|) && ClearOf(l.loads, s) && HasPlace(l, data, s, reserved)
  }

  /** On a described image an append succeeds exactly when the request is acceptable. */
  lemma AppendSucceeds(l: Layout, data: seq<byte>, s: LoadSegment, reserved: nat)
    requires Describes(l, data)
    ensures Append(l, data, s, reserved).result.Ok? <==> Acceptable(l, data, s, reserved)
  {
    hide Check, Slack, Relocate, Reuse, Loads, Val, ReusableNote, NoteOverflows, NoteCount, Candidate, HasPhdr,
         WellFormed, ClearOf, HasSlack, NoteFrom;
    CheckIs(l, |data|, s, reserved);
    if WellFormed(s, |data|) {
      WellFormedFits(s, |data|);
    }
    if Check(l, |data|, s, reserved).Ok? {
      if reserved == 0 {
        SlackSucceeds(l, data, s);
      } else {
        ReusableNoteIs(l, data);
        var note := ReusableNote(l, data);
        if note.Ok? && note.value.Some? {
          ReusedIsNote(l, data);
          ReuseReplaces(l, data, s, note.value.value);
        } else {
          RelocateSucceeds(l, data, s);
        }
      }
    }
  }

  lemma WellFormedFits(s: LoadSegment, len: nat)
    requires WellFormed(s, len)
    ensures s.offset + s.fileSize <= len
  {
  }

  // ----- Chains of appends -----

  ghost predicate AllApart(loads: seq<LoadSegment>) {
    forall i, j :: 0 <= i < j < |loads| ==> FileApart(loads[i], loads[j]) && MemoryApart(loads[i], loads[j])
  }

  lemma AppendKeepsApart(l: Layout, data: seq<byte>, s: LoadSegment, reserved: nat)
    requires AllApart(l.loads) && Append(l, data, s, reserved).result.Ok?
    ensures Append(l, data, s, reserved).result.value.loads == l.loads + [s] && AllApart(l.loads + [s])
    ensures s.offset + s.fileSize <= |data|
  {
    hide HeaderBytes, UpdatePhdrs, PhdrFields, HasType, ReusableNote, Reservation, CheckLoads;
    assert CheckLoads(l.loads, s) == None;
    forall i | 0 <= i < |l.loads|
      ensures FileApart(l.loads[i], s) && MemoryApart(l.loads[i], s)
    {
      assert l.loads[i] in l.loads;
    }
  }

  /** Append one segment after the other; stop at the first refusal. */
  function AppendAll(l: Layout, data: seq<byte>, requests: seq<(LoadSegment, nat)>): Appended
    decreases |requests|
  {
    if requests == [] then Appended(data, Ok(l))
    else
      var r := Append(l, data, requests[0].0, requests[0].1);
      if r.result.Err? then r else AppendAll(r.result.value, r.data, requests[1..])
  }

  function Segments(requests: seq<(LoadSegment, nat)>): seq<LoadSegment> {
    if requests == [] then [] else [requests[0].0] + Segments(requests[1..])
  }

  lemma NewTableClear(l: Layout, data: seq<byte>, s: LoadSegment, reserved: nat)
    requires Describes(l, data) && Append(l, data, s, reserved).result.Ok? && ELF_HEADER <= s.offset
    ensures ELF_HEADER <= Append(l, data, s, reserved).result.value.tableOffset
  {
    hide HeaderBytes, UpdatePhdrs, PhdrFields, HasType, ReusableNote, CheckLoads, Loads, Val;
  }

  lemma ChainStep(l: Layout, data: seq<byte>, requests: seq<(LoadSegment, nat)>)
    requires requests != [] && AppendAll(l, data, requests).result.Ok?
    ensures var r := Append(l, data, requests[0].0, requests[0].1);
            r.result.Ok? && AppendAll(l, data, requests) == AppendAll(r.result.value, r.data, requests[1..])
  {
    hide Append;
  }

  lemma SegmentsStep(loads: seq<LoadSegment>, requests: seq<(LoadSegment, nat)>)
    requires requests != []
    ensures loads + Segments(requests) == (loads + [requests[0].0]) + Segments(requests[1..])
  {
  }

  /** No request puts its segment over the ELF header. */
  ghost predicate ClearOfHeader(requests: seq<(LoadSegment, nat)>) {
    forall i :: 0 <= i < |requests| ==> ELF_HEADER <= requests[i].0.offset
  }

  /**
   Any chain of successful appends of segments clear of the ELF header: the
   final layout describes the final bytes, its PT_LOADs are the old ones and
   the new ones in order, they stay pairwise disjoint in the file and in
   memory, and PT_PHDRs that named the table still do.
   */
  lemma {:induction false} ChainDescribes(l: Layout, data: seq<byte>, requests: seq<(LoadSegment, nat)>)
    requires Describes(l, data) && AllApart(l.loads) && ClearOfHeader(requests)
    requires AppendAll(l, data, requests).result.Ok?
    ensures var r := AppendAll(l, data, requests);
            && Describes(r.result.value, r.data) && AllApart(r.result.value.loads)
            && r.result.value.loads == l.loads + Segments(requests) && |r.data| == |data|
            && (PhdrsName(l, data) ==> PhdrsName(r.result.value, r.data))
    decreases |requests|
  {
    hide Append, Describes, AllApart, AppendAll, Segments, PhdrsName, ReusableNote;
    if requests == [] {
      EmptyChain(l, data);
    } else {
      var (s, reserved) := requests[0];
      var r := Append(l, data, s, reserved);
      ChainStep(l, data, requests);
      SegmentsStep(l.loads, requests);
      NewTableClear(l, data, s, reserved);
      AppendDescribes(l, data, s, reserved);
      AppendKeepsApart(l, data, s, reserved);
      AppendNamesTable(l, data, s, reserved);
      ChainDescribes(r.result.value, r.data, requests[1..]);
    }
  }

  lemma EmptyChain(l: Layout, data: seq<byte>)
    ensures AppendAll(l, data, []) == Appended(data, Ok(l)) && l.loads + Segments([]) == l.loads
  {
  }

  // ----- Reading the table back -----

  lemma ReadSlot(data: seq<byte>, table: nat, i: nat)
    requires table + ENTRY * (i + 1) <= |data|
    ensures var off := table + i * ENTRY; var slot := Slot(data, table, i);
            && Read(data, off, 4) == Ok(TypeOf(slot)) && Read(data, off + 4, 4) == Ok(Field32(slot, 4))
            && Read(data, off + 8, 8) == Ok(Field64(slot, 8)) && Read(data, off + 0x10, 8) == Ok(Field64(slot, 0x10))
            && Read(data, off + 0x20, 8) == Ok(Field64(slot, 0x20))
            && Read(data, off + 0x28, 8) == Ok(Field64(slot, 0x28))
            && Read(data, off + 0x30, 8) == Ok(Field64(slot, 0x30))
  {
    hide Val;
    var off, slot := table + i * ENTRY, Slot(data, table, i);
    SubSlice(data, off, off + ENTRY, 0, 4);
    SubSlice(data, off, off + ENTRY, 4, 8);
    SubSlice(data, off, off + ENTRY, 8, 0x10);
    SubSlice(data, off, off + ENTRY, 0x10, 0x18);
    SubSlice(data, off, off + ENTRY, 0x20, 0x28);
    SubSlice(data, off, off + ENTRY, 0x28, 0x30);
    SubSlice(data, off, off + ENTRY, 0x30, 0x38);
  }

  lemma SubSlice(s: seq<byte>, lo: nat, hi: nat, x: nat, y: nat)
    requires lo <= hi <= |s| && x <= y <= hi - lo
    ensures s[lo..hi][x..y] == s[lo + x..lo + y]
  {
    var a, b := s[lo..hi][x..y], s[lo + x..lo + y];
    forall k | 0 <= k < |a|
      ensures a[k] == b[k]
    {
      assert s[lo..hi][x + k] == s[lo + x + k];
    }
  }

  predicate InFile(loads: seq<LoadSegment>, len: nat) {
    forall s :: s in loads ==> s.offset + s.fileSize <= len
  }

  /** The type of the entry at `off`, of which only the first four bytes need be in the file. */
  function TypeAt(data: seq<byte>, off: nat): nat
    requires off + 4 <= |data|
  {
    Val(data[off..off + 4])
  }

  /** Entry `i` has its type in the file, and all of it if it is a PT_LOAD, whose contents then are too. */
  predicate Readable(data: seq<byte>, table: nat, i: nat) {
    var off := table + ENTRY * i;
    && off + 4 <= |data|
    && (TypeAt(data, off) == PT_LOAD ==>
          off + ENTRY <= |data|
            && SegmentOf(data[off..off + ENTRY]).offset + SegmentOf(data[off..off + ENTRY]).fileSize <= |data|)
  }

  /** The segments among the first `n` entries, up to the first that cannot be read. */
  function ReadLoads(data: seq<byte>, table: nat, n: nat): seq<LoadSegment> {
    if n == 0 then []
    else
      var off := table + ENTRY * (n - 1);
      ReadLoads(data, table, n - 1)
      + if off + ENTRY <= |data| && TypeAt(data, off) == PT_LOAD then [SegmentOf(data[off..off + ENTRY])] else []
  }

  /** The segment in slot `i`, if that is a PT_LOAD that stays inside the file. */
  method ParseSlot(data: seq<byte>, table: nat, i: nat) returns (r: Result<Option<LoadSegment>, Error>)
    requires |data| < TWO_64
    ensures r.Ok? <==> Readable(data, table, i)
    ensures r.Ok? ==>
              var off := table + ENTRY * i;
              r.value == if TypeAt(data, off) == PT_LOAD then Some(SegmentOf(data[off..off + ENTRY])) else None
  {
    hide Field32, Field64, SegmentOf, Val;
    var off := CheckedIndex(table, i, ENTRY);
    if off.Err? {
      return Err(off.error);
    }
    var t := Read(data, off.value, 4);
    if t.Err? {
      return Err(t.error);
    }
    if t.value != PT_LOAD {
      return Ok(None);
    }
    if off.value + ENTRY > |data| {
      return Err(OutOfBounds);
    }
    var segment := SegmentOf(data[off.value..off.value + ENTRY]);
    if segment.offset + segment.fileSize >= TWO_64 {
      return Err(RangeOverflow);
    }
    if segment.offset + segment.fileSize > |data| {
      return Err(ExceedsFile);
    }
    return Ok(Some(segment));
  }

  /**
   The PT_LOAD part of parsing: it succeeds exactly when every entry can be
   read and there is a PT_LOAD, wherever the table lies, and gives the segments
   in table order.
   */
  method ParseLoads(data: seq<byte>, table: nat, count: nat) returns (r: Result<seq<LoadSegment>, Error>)
    requires |data| < TWO_64
    ensures r.Ok? <==> (forall i: nat :: i < count ==> Readable(data, table, i)) && ReadLoads(data, table, count) != []
    ensures r.Ok? ==> r.value == ReadLoads(data, table, count)
  {
    hide TypeAt, SegmentOf, Readable;
    var loads: seq<LoadSegment> := [];
    for i := 0 to count
      invariant loads == ReadLoads(data, table, i) && forall j: nat :: j < i ==> Readable(data, table, j)
    {
      var segment := ParseSlot(data, table, i);
      ReadNext(data, table, i);
      if segment.Err? {
        return Err(segment.error);
      }
      if segment.value.Some? {
        loads := loads + [segment.value.value];
      }
    }
    if loads == [] {
      return Err(NoFileContents);
    }
    return Ok(loads);
  }

  lemma ReadNext(data: seq<byte>, table: nat, i: nat)
    ensures Readable(data, table, i) ==>
              var off := table + ENTRY * i;
              && off + 4 <= |data| && (TypeAt(data, off) == PT_LOAD ==> off + ENTRY <= |data|)
              && ReadLoads(data, table, i + 1)
              == ReadLoads(data, table, i)
                 + if TypeAt(data, off) == PT_LOAD then [SegmentOf(data[off..off + ENTRY])] else []
  {
    hide TypeAt, SegmentOf;
  }

  lemma SlotReads(data: seq<byte>, table: nat, i: nat)
    requires table + ENTRY * (i + 1) <= |data|
    ensures var off, slot := table + ENTRY * i, Slot(data, table, i);
            TypeAt(data, off) == TypeOf(slot) && data[off..off + ENTRY] == slot
              && (Readable(data, table, i) <==> InFile(LoadIn(slot), |data|))
  {
    hide SegmentOf, Val;
    var off, slot := table + ENTRY * i, Slot(data, table, i);
    assert slot[0..4] == data[off..off + 4];
  }

  lemma InFileAppend(a: seq<LoadSegment>, b: seq<LoadSegment>, len: nat)
    ensures InFile(a + b, len) <==> InFile(a, len) && InFile(b, len)
  {
    assert forall s :: s in a + b <==> s in a || s in b;
  }

  /** In a table inside the file these are its PT_LOADs, readable exactly when their contents are in the file. */
  lemma {:induction false} ReadLoadsAre(data: seq<byte>, table: nat, n: nat)
    requires table + ENTRY * n <= |data|
    ensures ReadLoads(data, table, n) == Loads(data, table, n)
    ensures InFile(Loads(data, table, n), |data|) <==> forall i: nat :: i < n ==> Readable(data, table, i)
  {
    hide SegmentOf, TypeOf, TypeAt, Slot, Readable;
    if n > 0 {
      ReadLoadsAre(data, table, n - 1);
      SlotReads(data, table, n - 1);
      InFileAppend(Loads(data, table, n - 1), LoadIn(Slot(data, table, n - 1)), |data|);
    }
  }

  /** Follow the header words of a described image: exactly the layout's segments come back. */
  method ReadBack(data: seq<byte>, ghost l: Layout) returns (r: Result<seq<LoadSegment>, Error>)
    requires Describes(l, data)
    ensures InFile(l.loads, |data|) && l.loads != [] <==> r.Ok?
    ensures r.Ok? ==> multiset(r.value) == multiset(l.loads)
  {
    hide Val, Readable;
    r := ParseLoads(data, Val(data[0x20..0x28]), Val(data[0x38..0x3a]));
    ReadLoadsAre(data, l.tableOffset, l.tableCount);
    ghost var loads := Loads(data, l.tableOffset, l.tableCount);
    SameElements(loads, l.loads);
  }

  lemma SameElements(a: seq<LoadSegment>, b: seq<LoadSegment>)
    requires multiset(a) == multiset(b)
    ensures forall s :: s in a <==> s in b
    ensures a == [] <==> b == []
  {
    forall s
      ensures s in a <==> s in b
    {
      assert s in a <==> s in multiset(a);
      assert s in b <==> s in multiset(b);
    }
    assert |multiset(a)| == |a| && |multiset(b)| == |b|;
  }

  // ----- The in-place operation -----

  method WriteFieldsTo(output: array<byte>, at: nat, fields: seq<(nat, seq<byte>)>) returns (ok: bool)
    modifies output
    ensures (output[..], ok) == WriteFields(old(output[..]), at, fields)
  {
    ghost var all := WriteFields(output[..], at, fields);
    for i := 0 to |fields|
      invariant WriteFields(output[..], at, fields[i..]) == all
    {
      assert fields[i..][1..] == fields[i + 1..];
      ok := WriteTo(output, at + fields[i].0, fields[i].1);
      if !ok {
        return;
      }
    }
    ok := true;
  }

  method UpdatePtPhdr(output: array<byte>, table: nat, count: nat, relocated: Option<(u64, u64)>, tableSize: nat)
    returns (ok: bool)
    modifies output
    ensures (output[..], ok) == UpdatePhdrs(old(output[..]), table, 0, count, PhdrFields(relocated, tableSize))
    ensures table + ENTRY * count <= output.Length < TWO_64 ==>
              ok && SlotsTold(old(output[..]), output[..], table, 0, count, relocated, tableSize)
  {
    hide PhdrFields, WriteFields, SlotsTold;
    if table + ENTRY * count <= output.Length < TWO_64 {
      UpdatePhdrsTells(output[..], table, 0, count, relocated, tableSize);
    }
    var fields := PhdrFields(relocated, tableSize);
    ghost var all := UpdatePhdrs(output[..], table, 0, count, fields);
    for index := 0 to count
      invariant UpdatePhdrs(output[..], table, index, count, fields) == all
    {
      var off := CheckedIndex(table, index, ENTRY);
      if off.Err? {
        return false;
      }
      var t := Read(output[..], off.value, 4);
      if t.Err? {
        return false;
      }
      if t.value == PT_PHDR {
        ok := WriteFieldsTo(output, off.value, fields);
        if !ok {
          return;
        }
      }
    }
    ok := true;
  }

  method ScanNote(l: Layout, output: array<byte>, i: nat, count: nat, found: seq<(nat, nat)>)
    returns (r: Result<(nat, seq<(nat, nat)>), Error>)
    requires l.entrySize == ENTRY
    ensures r == NoteAt(l, output[..], i, count, found)
  {
    hide Contained, Read;
    var off := CheckedIndex(l.tableOffset, i, l.entrySize);
    if off.Err? {
      return Err(off.error);
    }
    var t := Read(output[..], off.value, 4);
    if t.Err? {
      return Err(t.error);
    }
    if t.value != PT_NOTE {
      return Ok((count, found));
    }
    var from, size := Read(output[..], off.value + 8, 8), Read(output[..], off.value + 0x20, 8);
    if from.Err? || size.Err? {
      return Err(OutOfBounds);
    }
    if from.value + size.value >= TWO_64 {
      return Err(RangeOverflow);
    }
    if Contained(l.loads, from.value, from.value + size.value) {
      return Ok((count + 1, found + [(from.value, i)]));
    }
    return Ok((count + 1, found));
  }

  /** The note to reuse: of the candidates, the last with the largest file offset. */
  method ReusableNoteProgramHeader(l: Layout, output: array<byte>) returns (r: Result<Option<nat>, Error>)
    requires l.entrySize == ENTRY
    ensures r == ReusableNote(l, output[..])
    ensures l.tableOffset + ENTRY * l.tableCount <= output.Length < TWO_64 ==> IsReusable(l, output[..], r)
  {
    hide NoteAt, IsReusable;
    if l.tableOffset + ENTRY * l.tableCount <= output.Length < TWO_64 {
      ReusableNoteIs(l, output[..]);
    }
    var noteCount: nat, candidates: seq<(nat, nat)> := 0, [];
    for index := 0 to l.tableCount
      invariant Notes(l, output[..], index) == Ok((noteCount, candidates))
    {
      NotesFail(l, output[..], index + 1, l.tableCount);
      var next := ScanNote(l, output, index, noteCount, candidates);
      if next.Err? {
        return Err(next.error);
      }
      noteCount, candidates := next.value.0, next.value.1;
    }
    if noteCount < 2 {
      return Ok(None);
    }
    var best := LastMax(candidates);
    return Ok(if best.None? then None else Some(best.value.1));
  }

  /** The scan stops at the first unreadable entry. */
  lemma {:induction false} NotesFail(l: Layout, data: seq<byte>, i: nat, n: nat)
    requires l.entrySize == ENTRY && i <= n
    ensures Notes(l, data, i).Err? ==> Notes(l, data, n) == Notes(l, data, i)
    decreases n
  {
    hide NoteAt;
    if i < n {
      NotesFail(l, data, i, n - 1);
    }
  }

  /** The step that the slack and relocation strategies share: the new entry count. */
  method WriteCount(l: Layout, output: array<byte>, table: u64, s: LoadSegment) returns (r: Result<Layout, Error>)
    requires l.tableCount + 1 < 0x1_0000
    modifies output
    ensures Appended(output[..], r) == WithCount(l, old(output[..]), table, s)
  {
    hide Write, Le;
    var ok := WriteTo(output, 0x38, Le(l.tableCount + 1, 2));
    return if ok then Ok(l.(tableOffset := table, tableCount := l.tableCount + 1, loads := l.loads + [s]))
      else Err(OutOfBounds);
  }

  method UseSlack(l: Layout, output: array<byte>, s: LoadSegment) returns (r: Result<Layout, Error>)
    requires l.tableCount + 1 < 0x1_0000
    modifies output
    ensures Appended(output[..], r) == Slack(l, old(output[..]), s)
  {
    hide Write, UpdatePhdrs, PhdrFields, HeaderBytes, WithCount;
    var ok := WriteTo(output, l.tableOffset + l.tableCount * ENTRY, HeaderBytes(s));
    if !ok {
      return Err(OutOfBounds);
    }
    ok := UpdatePtPhdr(output, l.tableOffset, l.tableCount, None, (l.tableCount + 1) * ENTRY);
    if !ok {
      return Err(OutOfBounds);
    }
    r := WriteCount(l, output, l.tableOffset, s);
  }

  method ReuseNote(l: Layout, output: array<byte>, s: LoadSegment, note: nat) returns (r: Result<Layout, Error>)
    modifies output
    ensures Appended(output[..], r) == Reuse(l, old(output[..]), s, note)
  {
    hide Write, HeaderBytes;
    var off := CheckedIndex(l.tableOffset, note, ENTRY);
    if off.Err? {
      return Err(off.error);
    }
    var ok := WriteTo(output, off.value, HeaderBytes(s));
    return if ok then Ok(l.(loads := l.loads + [s])) else Err(OutOfBounds);
  }

  lemma WriteInside(data: seq<byte>, off: nat, bytes: seq<byte>)
    requires off + |bytes| <= |data|
    ensures Write(data, off, bytes) == (Splice(data, off, bytes), true)
  {
  }

  method RelocateTable(l: Layout, output: array<byte>, s: LoadSegment, reservation: nat)
    returns (r: Result<Layout, Error>)
    requires l.entrySize == ENTRY && l.tableCount + 1 < 0x1_0000
    modifies output
    ensures Appended(output[..], r) == Relocate(l, old(output[..]), s, reservation)
  {
    hide UpdatePhdrs, PhdrFields, HeaderBytes, WithCount, HasType, Le, Write, Splice;
    var oldSize, newSize := l.tableCount * ENTRY, (l.tableCount + 1) * ENTRY;
    var found := HasType(l, output[..], PT_PHDR, 0);
    if found.Err? {
      return Err(found.error);
    }
    if !found.value {
      return Err(CannotRelocate);
    }
    if reservation != newSize {
      return Err(ReservationMismatch);
    }
    if s.fileSize < reservation {
      return Err(SegmentTooSmall);
    }
    if s.offset + newSize > output.Length || l.tableOffset + oldSize > output.Length {
      return Err(OutOfBounds);
    }
    var table := output[l.tableOffset..l.tableOffset + oldSize] + HeaderBytes(s);
    WriteInside(output[..], s.offset, table);
    var ok := WriteTo(output, s.offset, table);
    ok := WriteTo(output, 0x20, Le(s.offset, 8));
    if !ok {
      return Err(OutOfBounds);
    }
    ok := UpdatePtPhdr(output, s.offset, l.tableCount, Some((s.offset, s.virtualAddress)), newSize);
    if !ok {
      return Err(OutOfBounds);
    }
    r := WriteCount(l, output, s.offset, s);
  }

  /** Append `s` to the image in `output`; the layout and bytes are those of `Append`. */
  method AppendLoadSegment(l: Layout, output: array<byte>, s: LoadSegment, reserved: nat)
    returns (r: Result<Layout, Error>)
    modifies output
    ensures Appended(output[..], r) == Append(l, old(output[..]), s, reserved)
    ensures Describes(l, old(output[..])) ==> (r.Ok? <==> Acceptable(l, old(output[..]), s, reserved))
  {
    hide Check, ReusableNote, Slack, Reuse, Relocate, Describes, Acceptable;
    if Describes(l, output[..]) {
      AppendSucceeds(l, output[..], s, reserved);
    }
    var checked := Check(l, output.Length, s, reserved);
    if checked.Err? {
      return Err(checked.error);
    }
    CheckImplies(l, output.Length, s, reserved);
    if checked.value == 0 {
      r := UseSlack(l, output, s);
      return;
    }
    var note := ReusableNoteProgramHeader(l, output);
    if note.Err? {
      return Err(note.error);
    }
    if note.value.Some? {
      r := ReuseNote(l, output, s, note.value.value);
    } else {
      r := RelocateTable(l, output, s, checked.value);
    }
  }

  lemma CheckImplies(l: Layout, len: nat, s: LoadSegment, reserved: nat)
    requires Check(l, len, s, reserved).Ok?
    ensures l.entrySize == ENTRY && l.tableCount + 1 < 0x1_0000
  {
  }
}
