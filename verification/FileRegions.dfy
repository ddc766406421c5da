/** Bytes of a PE file that no section covers: the gaps between raw ranges and the overlay. */
module FileRegions {
  import opened Wrappers

  const MAX_REGIONS: nat := 64
  const SECTION_HEADER: nat := 40

  datatype Section = Section(rawOffset: nat, rawSize: nat)

  datatype Range = Range(start: nat, end: nat)

  datatype Kind = HeadersToFirstSection | BetweenSections | Overlay

  datatype Region = Region(offset: nat, length: nat, kind: Kind)

  function Min(a: nat, b: nat): nat {
    if a <= b then a else b
  }

  function Max(a: nat, b: nat): nat {
    if a <= b then b else a
  }

  // ----- Raw ranges -----

  predicate Backed(s: Section, len: nat) {
    s.rawSize != 0 && s.rawOffset < len
  }

  /** A section's raw range, cut at the end of the file. */
  function Clipped(s: Section, len: nat): Range {
    Range(s.rawOffset, Min(s.rawOffset + s.rawSize, len))
  }

  /** Byte `b` belongs to the clipped raw range of a section. */
  predicate InSection(sections: seq<Section>, len: nat, b: nat) {
    exists i :: 0 <= i < |sections| && Backed(sections[i], len) && Covers(Clipped(sections[i], len), b)
  }

  predicate Covers(r: Range, b: nat) {
    r.start <= b < r.end
  }

  function RawRanges(sections: seq<Section>, len: nat): (r: seq<Range>) {
    if sections == [] then []
    else (if Backed(sections[0], len) then [Clipped(sections[0], len)] else []) + RawRanges(sections[1..], len)
  }

  predicate InRanges(raws: seq<Range>, b: nat) {
    exists i :: 0 <= i < |raws| && Covers(raws[i], b)
  }

  predicate AllNonempty(raws: seq<Range>, len: nat) {
    forall i :: 0 <= i < |raws| ==> raws[i].start < raws[i].end <= len
  }

  lemma {:induction false} RawRangesCover(sections: seq<Section>, len: nat, b: nat)
    ensures InRanges(RawRanges(sections, len), b) <==> InSection(sections, len, b)
    ensures AllNonempty(RawRanges(sections, len), len)
  {
    hide Covers;
    if sections != [] {
      RawRangesCover(sections[1..], len, b);
      var head := if Backed(sections[0], len) then [Clipped(sections[0], len)] else [];
      InRangesAppend(head, RawRanges(sections[1..], len), b);
      InSectionHead(sections, len, b);
    }
  }

  lemma InRangesAppend(a: seq<Range>, c: seq<Range>, b: nat)
    ensures InRanges(a + c, b) <==> InRanges(a, b) || InRanges(c, b)
  {
    hide Covers;
    if InRanges(a, b) {
      var i :| 0 <= i < |a| && Covers(a[i], b);
      assert Covers((a + c)[i], b);
    }
    if InRanges(c, b) {
      var i :| 0 <= i < |c| && Covers(c[i], b);
      assert Covers((a + c)[|a| + i], b);
    }
  }

  lemma InSectionHead(sections: seq<Section>, len: nat, b: nat)
    requires sections != []
    ensures InSection(sections, len, b) <==>
            (Backed(sections[0], len) && Covers(Clipped(sections[0], len), b)) || InSection(sections[1..], len, b)
  {
    hide Covers, Backed, Clipped;
    if InSection(sections[1..], len, b) {
      var i :| 0 <= i < |sections[1..]| && Backed(sections[1..][i], len) && Covers(Clipped(sections[1..][i], len), b);
      assert Backed(sections[i + 1], len) && Covers(Clipped(sections[i + 1], len), b);
    }
  }

  // ----- Sorting -----

  predicate Before(a: Range, b: Range) {
    a.start < b.start || (a.start == b.start && a.end <= b.end)
  }

  predicate Sorted(raws: seq<Range>) {
    forall i, j :: 0 <= i < j < |raws| ==> Before(raws[i], raws[j])
  }

  function Insert(raws: seq<Range>, r: Range): seq<Range> {
    if raws == [] || Before(r, raws[0]) then [r] + raws else [raws[0]] + Insert(raws[1..], r)
  }

  function Sort(raws: seq<Range>): seq<Range> {
    if raws == [] then [] else Insert(Sort(raws[1..]), raws[0])
  }

  lemma {:induction false} InsertSorts(raws: seq<Range>, r: Range)
    requires Sorted(raws)
    ensures Sorted(Insert(raws, r)) && multiset(Insert(raws, r)) == multiset(raws) + multiset{r}
  {
    if raws != [] && !Before(r, raws[0]) {
      InsertSorts(raws[1..], r);
      var rest := Insert(raws[1..], r);
      assert raws == [raws[0]] + raws[1..];
      forall j | 0 <= j < |rest|
        ensures Before(raws[0], rest[j])
      {
        assert rest[j] in multiset(rest);
      }
    } else {
      assert Insert(raws, r) == [r] + raws;
    }
  }

  lemma {:induction false} SortSorts(raws: seq<Range>)
    ensures Sorted(Sort(raws)) && multiset(Sort(raws)) == multiset(raws)
  {
    if raws != [] {
      SortSorts(raws[1..]);
      InsertSorts(Sort(raws[1..]), raws[0]);
      assert raws == [raws[0]] + raws[1..];
    }
  }

  lemma SmallestFirst(a: seq<Range>, b: seq<Range>)
    requires Sorted(a) && Sorted(b) && multiset(a) == multiset(b) && a != []
    ensures b != [] && Before(b[0], a[0])
  {
    assert a[0] in multiset(b);
    var i :| 0 <= i < |b| && b[i] == a[0];
  }

  lemma TailRanges(a: seq<Range>, b: seq<Range>)
    requires a != [] && b != [] && a[0] == b[0] && multiset(a) == multiset(b)
    ensures multiset(a[1..]) == multiset(b[1..])
  {
    assert a == [a[0]] + a[1..] && b == [b[0]] + b[1..];
    assert multiset(a[1..]) == multiset(a) - multiset{a[0]};
    assert multiset(b[1..]) == multiset(b) - multiset{b[0]};
  }

  /** Two sorted lists of the same ranges are equal, so any sorting algorithm gives this result. */
  lemma {:induction false} SortedUnique(a: seq<Range>, b: seq<Range>)
    requires Sorted(a) && Sorted(b) && multiset(a) == multiset(b)
    ensures a == b
  {
    if a != [] {
      SmallestFirst(a, b);
      SmallestFirst(b, a);
      TailRanges(a, b);
      SortedUnique(a[1..], b[1..]);
    } else if b != [] {
      SmallestFirst(b, a);
    }
  }

  lemma SameRanges(a: seq<Range>, c: seq<Range>, len: nat, b: nat)
    requires multiset(a) == multiset(c)
    ensures InRanges(a, b) <==> InRanges(c, b)
    ensures AllNonempty(a, len) <==> AllNonempty(c, len)
  {
    hide Covers;
    SameRangesOneWay(a, c, len, b);
    SameRangesOneWay(c, a, len, b);
  }

  lemma SameRangesOneWay(a: seq<Range>, c: seq<Range>, len: nat, b: nat)
    requires multiset(a) == multiset(c)
    ensures InRanges(a, b) ==> InRanges(c, b)
    ensures AllNonempty(a, len) ==> AllNonempty(c, len)
  {
    hide Covers;
    if InRanges(a, b) {
      var i :| 0 <= i < |a| && Covers(a[i], b);
      assert a[i] in multiset(c);
      var j :| 0 <= j < |c| && c[j] == a[i];
      assert Covers(c[j], b);
    }
    forall j | 0 <= j < |c|
      ensures c[j] in a
    {
      assert c[j] in multiset(a);
    }
  }

  // ----- Gaps -----

  /** The gaps between sorted ranges, from `cursor` on. */
  function Gaps(raws: seq<Range>, cursor: nat): seq<Region> {
    if raws == [] then []
    else
      (if raws[0].start > cursor then [Region(cursor, raws[0].start - cursor, BetweenSections)] else [])
      + Gaps(raws[1..], Max(cursor, raws[0].end))
  }

  /** Where the last range ends. */
  function LastEnd(raws: seq<Range>, cursor: nat): nat {
    if raws == [] then cursor else LastEnd(raws[1..], Max(cursor, raws[0].end))
  }

  function FirstStart(raws: seq<Range>, len: nat): nat {
    if raws == [] then len else raws[0].start
  }

  function HeaderGap(headerEnd: nat, first: nat): seq<Region> {
    if headerEnd < first then [Region(headerEnd, first - headerEnd, HeadersToFirstSection)] else []
  }

  /** Every gap, before the list is cut at its cap. */
  function AllGaps(raws: seq<Range>, headerEnd: nat, len: nat): seq<Region> {
    var first := FirstStart(raws, len);
    HeaderGap(headerEnd, first) + Gaps(raws, first)
  }

  function OverlayOf(raws: seq<Range>, len: nat): Option<Region> {
    var end := LastEnd(raws, FirstStart(raws, len));
    if end < len then Some(Region(end, len - end, Overlay)) else None
  }

  predicate InRegion(r: Region, b: nat) {
    r.offset <= b < r.offset + r.length
  }

  predicate InRegions(regions: seq<Region>, b: nat) {
    exists i :: 0 <= i < |regions| && InRegion(regions[i], b)
  }

  /** Nonempty, in order and apart, from `low` up to `high`. */
  predicate Ordered(regions: seq<Region>, low: nat, high: nat) {
    && (forall i :: 0 <= i < |regions| ==>
        low <= regions[i].offset && regions[i].length > 0 && regions[i].offset + regions[i].length <= high)
    && (forall i, j :: 0 <= i < j < |regions| ==> regions[i].offset + regions[i].length <= regions[j].offset)
  }

  lemma InRegionsAppend(a: seq<Region>, c: seq<Region>, b: nat)
    ensures InRegions(a + c, b) <==> InRegions(a, b) || InRegions(c, b)
  {
    hide InRegion;
    if InRegions(a, b) {
      var i :| 0 <= i < |a| && InRegion(a[i], b);
      assert InRegion((a + c)[i], b);
    }
    if InRegions(c, b) {
      var i :| 0 <= i < |c| && InRegion(c[i], b);
      assert InRegion((a + c)[|a| + i], b);
    }
  }

  lemma OneRegion(r: Region, b: nat)
    ensures InRegions([r], b) <==> InRegion(r, b)
  {
    if InRegion(r, b) {
      assert InRegion([r][0], b);
    }
  }

  lemma InRangesHead(raws: seq<Range>, b: nat)
    requires raws != []
    ensures InRanges(raws, b) <==> Covers(raws[0], b) || InRanges(raws[1..], b)
  {
    hide Covers;
    if InRanges(raws[1..], b) {
      var i :| 0 <= i < |raws[1..]| && Covers(raws[1..][i], b);
      assert Covers(raws[i + 1], b);
    }
  }

  /** No later range starts before the next one, so a byte below it is in none of them. */
  lemma NotYet(raws: seq<Range>, b: nat)
    requires Sorted(raws) && raws != [] && b < raws[0].start
    ensures !InRanges(raws, b)
  {
  }

  lemma {:induction false} LastEndGrows(raws: seq<Range>, cursor: nat, len: nat)
    requires AllNonempty(raws, len) && cursor <= len
    ensures cursor <= LastEnd(raws, cursor) <= len
    decreases |raws|
  {
    if raws != [] {
      LastEndGrows(raws[1..], Max(cursor, raws[0].end), len);
    }
  }

  /** From the cursor on, a byte is in a gap exactly when a range still follows and none covers it. */
  lemma {:induction false} GapsExact(raws: seq<Range>, cursor: nat, len: nat, b: nat)
    requires Sorted(raws) && AllNonempty(raws, len) && cursor <= len
    ensures InRegions(Gaps(raws, cursor), b) <==> cursor <= b < LastEnd(raws, cursor) && !InRanges(raws, b)
    ensures InRanges(raws, b) ==> b < LastEnd(raws, cursor)
    decreases |raws|
  {
    hide InRegions, InRanges, InRegion;
    if raws == [] {
      NoneIn(b);
    } else {
      var next := Max(cursor, raws[0].end);
      var gap := Region(cursor, if raws[0].start > cursor then raws[0].start - cursor else 0, BetweenSections);
      GapsExact(raws[1..], next, len, b);
      LastEndGrows(raws[1..], next, len);
      InRangesHead(raws, b);
      GapIs(gap, b);
      if raws[0].start > cursor {
        InRegionsAppend([gap], Gaps(raws[1..], next), b);
        OneRegion(gap, b);
      } else {
        assert [] + Gaps(raws[1..], next) == Gaps(raws[1..], next);
      }
      if b < raws[0].start {
        NotYet(raws, b);
      }
    }
  }

  lemma GapIs(r: Region, b: nat)
    ensures InRegion(r, b) <==> r.offset <= b < r.offset + r.length
  {
  }

  lemma NoneIn(b: nat)
    ensures !InRegions([], b) && !InRanges([], b)
  {
  }

  lemma {:induction false} GapsOrdered(raws: seq<Range>, cursor: nat, len: nat)
    requires Sorted(raws) && AllNonempty(raws, len) && cursor <= len
    ensures Ordered(Gaps(raws, cursor), cursor, LastEnd(raws, cursor))
    decreases |raws|
  {
    hide Ordered;
    if raws == [] {
      NothingOrdered(cursor);
    } else {
      var next := Max(cursor, raws[0].end);
      GapsOrdered(raws[1..], next, len);
      LastEndGrows(raws[1..], next, len);
      if raws[0].start > cursor {
        ConsOrdered(Region(cursor, raws[0].start - cursor, BetweenSections), Gaps(raws[1..], next), cursor, next,
                    LastEnd(raws, cursor));
      } else {
        assert [] + Gaps(raws[1..], next) == Gaps(raws[1..], next);
        WidenOrdered(Gaps(raws[1..], next), next, cursor, LastEnd(raws, cursor), LastEnd(raws, cursor));
      }
    }
  }

  lemma NothingOrdered(low: nat)
    ensures Ordered([], low, low)
  {
  }

  lemma ConsOrdered(r: Region, regions: seq<Region>, low: nat, next: nat, high: nat)
    requires Ordered(regions, next, high) && low <= r.offset && 0 < r.length && r.offset + r.length <= next <= high
    ensures Ordered([r] + regions, low, high)
  {
  }

  lemma WidenOrdered(regions: seq<Region>, low: nat, lower: nat, high: nat, higher: nat)
    requires Ordered(regions, low, high) && lower <= low && high <= higher
    ensures Ordered(regions, lower, higher)
  {
  }

  // ----- Main results -----

  function SortedRanges(sections: seq<Section>, len: nat): seq<Range> {
    Sort(RawRanges(sections, len))
  }

  /** The end of the section table, or of a file that ends before it. */
  function HeaderEnd(sections: seq<Section>, tableAt: nat, len: nat): nat {
    Min(tableAt + SECTION_HEADER * |sections|, len)
  }

  lemma SortedRangesCover(sections: seq<Section>, len: nat, b: nat)
    ensures var raws := SortedRanges(sections, len);
            && Sorted(raws) && AllNonempty(raws, len) && (InRanges(raws, b) <==> InSection(sections, len, b))
  {
    hide Sort, RawRanges, InRanges, InSection, AllNonempty, Sorted;
    RawRangesCover(sections, len, b);
    SortSorts(RawRanges(sections, len));
    SameRanges(Sort(RawRanges(sections, len)), RawRanges(sections, len), len, b);
  }

  lemma AllGapsExact(raws: seq<Range>, headerEnd: nat, len: nat, b: nat)
    requires Sorted(raws) && AllNonempty(raws, len) && headerEnd <= len
    ensures var first := FirstStart(raws, len);
            InRegions(AllGaps(raws, headerEnd, len), b)
            <==> Min(headerEnd, first) <= b < LastEnd(raws, first) && !InRanges(raws, b)
    ensures InRanges(raws, b) ==> FirstStart(raws, len) <= b < LastEnd(raws, FirstStart(raws, len))
    ensures FirstStart(raws, len) <= LastEnd(raws, FirstStart(raws, len)) <= len
  {
    hide InRegions, InRanges, InRegion, Gaps, LastEnd;
    var first := FirstStart(raws, len);
    FirstInFile(raws, len);
    GapsExact(raws, first, len, b);
    LastEndGrows(raws, first, len);
    InRegionsAppend(HeaderGap(headerEnd, first), Gaps(raws, first), b);
    NoneIn(b);
    if raws != [] && b < first {
      NotYet(raws, b);
    }
    if headerEnd < first {
      var gap := Region(headerEnd, first - headerEnd, HeadersToFirstSection);
      OneRegion(gap, b);
      GapIs(gap, b);
    }
  }

  lemma FirstInFile(raws: seq<Range>, len: nat)
    requires AllNonempty(raws, len)
    ensures FirstStart(raws, len) <= len
  {
  }

  lemma RegionsExact(sections: seq<Section>, tableAt: nat, len: nat, b: nat)
    requires b < len
    ensures var raws := SortedRanges(sections, len); var headerEnd := HeaderEnd(sections, tableAt, len);
            var overlay := OverlayOf(raws, len);
            (InRegions(AllGaps(raws, headerEnd, len), b) || (overlay.Some? && InRegion(overlay.value, b)))
            <==> Min(headerEnd, FirstStart(raws, len)) <= b && !InSection(sections, len, b)
  {
    hide InRegions, InRanges, InSection, InRegion, AllGaps, LastEnd, SortedRanges, Sorted, AllNonempty;
    var raws, headerEnd := SortedRanges(sections, len), HeaderEnd(sections, tableAt, len);
    SortedRangesCover(sections, len, b);
    AllGapsExact(raws, headerEnd, len, b);
    var end := LastEnd(raws, FirstStart(raws, len));
    GapIs(Region(end, if end < len then len - end else 0, Overlay), b);
  }

  /** Byte `b` belongs to the raw range that some section declares. */
  ghost predicate InSome(sections: seq<Section>, b: nat) {
    exists s :: s in sections && s.rawOffset <= b < s.rawOffset + s.rawSize
  }

  lemma InSectionIs(sections: seq<Section>, len: nat, b: nat)
    requires b < len
    ensures InSection(sections, len, b) <==> InSome(sections, b)
  {
    if InSome(sections, b) {
      var s :| s in sections && s.rawOffset <= b < s.rawOffset + s.rawSize;
      var i :| 0 <= i < |sections| && sections[i] == s;
      assert Backed(sections[i], len) && Covers(Clipped(sections[i], len), b);
    }
  }

  /** The first raw range starts at the least byte that any section declares. */
  lemma FirstStartIs(sections: seq<Section>, len: nat, b: nat)
    requires b < len && !InSome(sections, b)
    ensures FirstStart(SortedRanges(sections, len), len) <= b <==> exists c: nat :: c < b && InSome(sections, c)
  {
    hide InSome, InSection, SortedRanges, InRanges, Sorted;
    var raws := SortedRanges(sections, len);
    var first := FirstStart(raws, len);
    SortedRangesCover(sections, len, b);
    InSectionIs(sections, len, b);
    if first <= b {
      SortedRangesCover(sections, len, first);
      FirstCovered(raws, len);
      InSectionIs(sections, len, first);
    }
    if exists c: nat :: c < b && InSome(sections, c) {
      var c: nat :| c < b && InSome(sections, c);
      InSectionIs(sections, len, c);
      SortedRangesCover(sections, len, c);
      AllGapsExact(raws, 0, len, c);
    }
  }

  lemma FirstCovered(raws: seq<Range>, len: nat)
    requires raws != [] && AllNonempty(raws, len)
    ensures InRanges(raws, raws[0].start)
  {
    assert Covers(raws[0], raws[0].start);
  }

  /**
   The gaps and the overlay are the bytes that no section declares, from the end
   of the section table on, or from the first declared byte on if that comes
   before it.
   */
  lemma RegionsAreTheUncovered(sections: seq<Section>, tableAt: nat, len: nat, b: nat)
    requires b < len
    ensures var raws := SortedRanges(sections, len); var overlay := OverlayOf(raws, len);
            (InRegions(AllGaps(raws, HeaderEnd(sections, tableAt, len), len), b)
             || (overlay.Some? && InRegion(overlay.value, b)))
            <==> !InSome(sections, b)
                 && (tableAt + SECTION_HEADER * |sections| <= b || exists c: nat :: c < b && InSome(sections, c))
  {
    hide InSome, InSection, SortedRanges, AllGaps, OverlayOf, InRegions, InRegion, FirstStart;
    RegionsExact(sections, tableAt, len, b);
    InSectionIs(sections, len, b);
    if !InSome(sections, b) {
      FirstStartIs(sections, len, b);
    }
  }

  lemma {:induction false} GapKinds(raws: seq<Range>, cursor: nat)
    ensures forall k :: 0 <= k < |Gaps(raws, cursor)| ==> Gaps(raws, cursor)[k].kind == BetweenSections
  {
    if raws != [] {
      GapKinds(raws[1..], Max(cursor, raws[0].end));
    }
  }

  /** The gap in front of the first section is named so, every other one lies between sections. */
  lemma KindsAre(sections: seq<Section>, tableAt: nat, len: nat)
    ensures var raws := SortedRanges(sections, len); var gaps := AllGaps(raws, HeaderEnd(sections, tableAt, len), len);
            && (forall k :: 0 <= k < |gaps| ==>
                  gaps[k].kind == if gaps[k].offset < FirstStart(raws, len) then HeadersToFirstSection
                                  else BetweenSections)
            && (OverlayOf(raws, len).Some? ==> OverlayOf(raws, len).value.kind == Overlay)
  {
    hide SortedRanges, Gaps, LastEnd;
    var raws := SortedRanges(sections, len);
    GapKinds(raws, FirstStart(raws, len));
    GapsBehind(raws, FirstStart(raws, len));
  }

  lemma {:induction false} GapsBehind(raws: seq<Range>, cursor: nat)
    ensures forall k :: 0 <= k < |Gaps(raws, cursor)| ==> cursor <= Gaps(raws, cursor)[k].offset
  {
    if raws != [] {
      GapsBehind(raws[1..], Max(cursor, raws[0].end));
    }
  }

  /** Gaps are nonempty, in order and pairwise apart, and the overlay comes after all of them. */
  lemma RegionsAreApart(sections: seq<Section>, tableAt: nat, len: nat)
    ensures var raws := SortedRanges(sections, len); var headerEnd := HeaderEnd(sections, tableAt, len);
            var overlay := OverlayOf(raws, len);
            && Ordered(AllGaps(raws, headerEnd, len), 0, if overlay.Some? then overlay.value.offset else len)
            && (overlay.Some? ==> overlay.value.length > 0 && overlay.value.offset + overlay.value.length == len)
  {
    hide Gaps, LastEnd, SortedRanges, Sorted, AllNonempty, Ordered;
    var raws, headerEnd := SortedRanges(sections, len), HeaderEnd(sections, tableAt, len);
    SortedRangesCover(sections, len, 0);
    FirstInFile(raws, len);
    var first := FirstStart(raws, len);
    var end := LastEnd(raws, first);
    GapsOrdered(raws, first, len);
    LastEndGrows(raws, first, len);
    if headerEnd < first {
      ConsOrdered(Region(headerEnd, first - headerEnd, HeadersToFirstSection), Gaps(raws, first), headerEnd, first,
                  end);
      WidenOrdered(AllGaps(raws, headerEnd, len), headerEnd, 0, end, end);
    } else {
      assert [] + Gaps(raws, first) == Gaps(raws, first);
      WidenOrdered(Gaps(raws, first), first, 0, end, end);
    }
  }

  // ----- The sweep -----

  /** The list as far as it is kept. */
  function Kept(regions: seq<Region>): (r: seq<Region>)
    ensures |r| <= MAX_REGIONS && (|regions| <= MAX_REGIONS ==> r == regions)
  {
    if |regions| <= MAX_REGIONS then regions else regions[..MAX_REGIONS]
  }

  /** Add a region unless it is empty or the list is full. */
  method Push(regions: seq<Region>, offset: nat, end: nat, kind: Kind, ghost all: seq<Region>) returns (r: seq<Region>)
    requires offset < end && regions == Kept(all)
    ensures r == Kept(all + [Region(offset, end - offset, kind)])
  {
    r := regions;
    if offset < end && |regions| < MAX_REGIONS {
      r := regions + [Region(offset, end - offset, kind)];
    }
  }

  method CollectRanges(sections: seq<Section>, len: nat) returns (raws: seq<Range>)
    ensures raws == RawRanges(sections, len)
  {
    hide Backed, Clipped;
    raws := [];
    for i := 0 to |sections|
      invariant RawRanges(sections, len) == raws + RawRanges(sections[i..], len)
    {
      assert sections[i..][1..] == sections[i + 1..];
      ghost var before := raws;
      if Backed(sections[i], len) {
        raws := raws + [Clipped(sections[i], len)];
      } else {
        assert [] + RawRanges(sections[i + 1..], len) == RawRanges(sections[i + 1..], len);
      }
    }
  }

  method Sweep(len: nat, sections: seq<Section>, tableAt: nat) returns (regions: seq<Region>, overlay: Option<Region>)
    ensures var raws := SortedRanges(sections, len);
            && regions == Kept(AllGaps(raws, HeaderEnd(sections, tableAt, len), len))
            && overlay == OverlayOf(raws, len)
  {
    hide Kept, RawRanges, Sort;
    var headerEnd := HeaderEnd(sections, tableAt, len);
    var raws := CollectRanges(sections, len);
    raws := Sort(raws);
    var first := FirstStart(raws, len);
    NoneKept();
    regions := [];
    ghost var all: seq<Region> := [];
    if headerEnd < first {
      regions := Push(regions, headerEnd, first, HeadersToFirstSection, all);
      all := all + [Region(headerEnd, first - headerEnd, HeadersToFirstSection)];
    }
    var cursor: nat := first;
    assert raws[0..] == raws;
    for i := 0 to |raws|
      invariant regions == Kept(all)
      invariant all + Gaps(raws[i..], cursor) == AllGaps(raws, headerEnd, len)
      invariant LastEnd(raws[i..], cursor) == LastEnd(raws, first)
    {
      assert raws[i..][1..] == raws[i + 1..];
      ghost var before := all;
      if raws[i].start > cursor {
        regions := Push(regions, cursor, raws[i].start, BetweenSections, all);
        all := all + [Region(cursor, raws[i].start - cursor, BetweenSections)];
      }
      Regroup(before, raws[i..], cursor, all);
      cursor := Max(cursor, raws[i].end);
    }
    assert all + [] == all;
    overlay := if cursor < len then Some(Region(cursor, len - cursor, Overlay)) else None;
  }

  lemma NoneKept()
    ensures Kept([]) == []
  {
  }

  lemma Regroup(before: seq<Region>, raws: seq<Range>, cursor: nat, all: seq<Region>)
    requires raws != []
    requires all
             == before
                + (if raws[0].start > cursor then [Region(cursor, raws[0].start - cursor, BetweenSections)] else [])
    ensures before + Gaps(raws, cursor) == all + Gaps(raws[1..], Max(cursor, raws[0].end))
  {
  }
}
