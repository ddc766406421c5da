/**
 When the Windows decompressors succeed, and what they write, in terms of the
 format alone.
 */
module WindowsFormat {
  import opened Bytes
  import opened Wrappers
  import opened HuffmanTable
  import opened WindowsDecompress
  import opened Format

  /** Symbol `i` is what the table gives for the look-ahead at its bit, and it takes bits or gives bytes. */
  predicate ReadAt(t: Table, mem: seq<byte>, src: seq<byte>, codes: seq<Symbol>, i: nat)
    requires i < |codes|
  {
    && Start(codes, i) / 8 < |src|
    && ReadCode(t, mem, Word(src, Start(codes, i))) == Code(codes[i].sym, codes[i].bits)
    && (codes[i].bits > 0 || Length(codes, i) > 0)
  }

  ghost predicate ReadOff(t: Table, mem: seq<byte>, src: seq<byte>, codes: seq<Symbol>, n: nat)
    requires n <= |codes|
  {
    forall i :: 0 <= i < n ==> ReadAt(t, mem, src, codes, i)
  }

  /** The symbols are read off the source, are legal behind the bytes before `dest`, and stand for `out`. */
  ghost predicate Encodes(t: Table, mem: seq<byte>, src: seq<byte>, dest: nat, size: nat, out: seq<byte>,
                          codes: seq<Symbol>)
    requires dest <= |mem|
  {
    ReadOff(t, mem, src, codes, |codes|) && Legal(dest, codes, size) && StandsFor(mem[..dest], codes, out)
  }

  /** Writing output does not change the codes of the table. */
  ghost predicate KeepsCodes(t: Table, mem: seq<byte>, dest: nat, size: nat) {
    forall mem', w: nat :: Unchanged(mem, mem', dest, dest + size) ==> ReadCode(t, mem', w) == ReadCode(t, mem, w)
  }

  // ----- One symbol -----

  /** What `Emit` makes of symbol `k` when it is legal. */
  ghost predicate Emits(codes: seq<Symbol>, k: nat, mem: seq<byte>, dest: nat, e: Emitted)
    requires k < |codes|
  {
    && e.Emitted? && |e.mem| == |mem| && dest + Total(codes, k + 1) <= |mem|
    && e.step == Length(codes, k) && e.pending == Number(codes, k + 1)
    && Extends(dest, codes, k, mem[..dest + Total(codes, k)], e.mem[..dest + Total(codes, k + 1)])
  }

  /** Acting on symbol `k` succeeds exactly when it is legal, and then appends its bytes. */
  ghost predicate EmitsLegal(codes: seq<Symbol>, k: nat, mem: seq<byte>, dest: nat, size: nat)
    requires k < |codes| && Total(codes, k) < size
  {
    var e := Emit(mem, dest + Total(codes, k), Total(codes, k), size, Number(codes, k), codes[k].sym);
    && (e.Emitted? <==> LegalAt(dest, codes, k, size)) && !e.Overrun?
    && (e.Emitted? ==> Emits(codes, k, mem, dest, e))
  }

  lemma EmitIs(codes: seq<Symbol>, k: nat, mem: seq<byte>, dest: nat, size: nat)
    requires k < |codes| && Total(codes, k) < size && dest + size <= |mem|
    ensures EmitsLegal(codes, k, mem, dest, size)
  {
    hide EmitsLegal;
    match KindOf(codes[k].sym) {
      case Literal => LiteralIs(codes, k, mem, dest, size);
      case Digit => DigitIs(codes, k, mem, dest, size);
      case Fill => FillIs(codes, k, mem, dest, size);
      case Copy => CopyIs(codes, k, mem, dest, size);
    }
  }

  lemma LiteralIs(codes: seq<Symbol>, k: nat, mem: seq<byte>, dest: nat, size: nat)
    requires k < |codes| && Total(codes, k) < size && dest + size <= |mem| && KindOf(codes[k].sym).Literal?
    ensures EmitsLegal(codes, k, mem, dest, size)
  {
    hide Total;
    StartNext(codes, k);
    var at := dest + Total(codes, k);
    assert mem[at := Payload(codes[k].sym)][..at + 1] == mem[..at] + [Payload(codes[k].sym)];
  }

  lemma DigitIs(codes: seq<Symbol>, k: nat, mem: seq<byte>, dest: nat, size: nat)
    requires k < |codes| && Total(codes, k) < size && dest + size <= |mem| && KindOf(codes[k].sym).Digit?
    ensures EmitsLegal(codes, k, mem, dest, size)
  {
    hide Total;
    StartNext(codes, k);
  }

  /** A fill, without what it fills in. */
  lemma FillEmits(mem: seq<byte>, at: nat, written: nat, size: nat, pending: nat, sym: nat)
    requires written < size && written <= at && at - written + size <= |mem| && KindOf(sym).Fill?
    ensures var w := Payload(sym); var n := (if pending == 0 then 1 else pending) * w;
            Emit(mem, at, written, size, pending, sym)
            == if written + n > size then Rejected(OutputOverflow(written, n, size))
               else if w !in {1, 2, 4} then Rejected(InvalidRunFillWidth(w))
               else if w > at then Rejected(RunFillBeforeOutput(w, at))
               else Emitted(Filled(mem, at, w, n), n, 0)
  {
    hide Filled;
  }

  lemma FillIs(codes: seq<Symbol>, k: nat, mem: seq<byte>, dest: nat, size: nat)
    requires k < |codes| && Total(codes, k) < size && dest + size <= |mem| && KindOf(codes[k].sym).Fill?
    ensures EmitsLegal(codes, k, mem, dest, size)
  {
    hide Total, Number, Emit, Filled, Extends;
    StartNext(codes, k);
    var w, n, at := Payload(codes[k].sym), Length(codes, k), dest + Total(codes, k);
    FillEmits(mem, at, Total(codes, k), size, Number(codes, k), codes[k].sym);
    NumberAfter(codes, k);
    if LegalAt(dest, codes, k, size) {
      FilledExtends(codes, k, mem, dest);
    }
  }

  lemma NumberAfter(codes: seq<Symbol>, k: nat)
    requires k < |codes| && (KindOf(codes[k].sym).Fill? || KindOf(codes[k].sym).Copy?)
    ensures Number(codes, k + 1) == 0
  {
  }

  lemma FilledExtends(codes: seq<Symbol>, k: nat, mem: seq<byte>, dest: nat)
    requires k < |codes| && KindOf(codes[k].sym).Fill? && Payload(codes[k].sym) in {1, 2, 4}
    requires dest + Total(codes, k) + Length(codes, k) <= |mem| && Payload(codes[k].sym) <= dest + Total(codes, k)
    ensures var at := dest + Total(codes, k); var to := dest + Total(codes, k + 1);
            to <= |mem| && Extends(dest, codes, k, mem[..at],
                                   Filled(mem, at, Payload(codes[k].sym), Length(codes, k))[..to])
  {
    hide Total, Length, Number;
    StartNext(codes, k);
    var w, n, at := Payload(codes[k].sym), Length(codes, k), dest + Total(codes, k);
    var next := Filled(mem, at, w, n)[..at + n];
    assert next[..at] == mem[..at];
    forall j: nat | Total(codes, k) <= j < Total(codes, k + 1)
      ensures ByteIs(dest, codes, k, next, j)
    {
      FilledBack(mem, at, w, n, dest + j);
    }
  }

  lemma FilledBack(mem: seq<byte>, at: nat, w: nat, n: nat, i: nat)
    requires w in {1, 2, 4} && w <= at && at + n <= |mem| && at <= i < at + n
    ensures Filled(mem, at, w, n)[i] == Filled(mem, at, w, n)[i - w]
  {
    UnitBack(i - at, w);
  }

  /** A copy, without what it copies. */
  lemma CopyEmits(mem: seq<byte>, at: nat, written: nat, size: nat, pending: nat, sym: nat)
    requires written < size && written <= at && at - written + size <= |mem| && KindOf(sym).Copy?
    ensures var n := Payload(sym); var back := pending + n;
            Emit(mem, at, written, size, pending, sym)
            == if back > written then Rejected(InvalidBackReference(back, written))
               else if written + n > size then Rejected(OutputOverflow(written, n, size))
               else Emitted(if n == 0 then mem else Copied(mem, at, back, n), n, 0)
  {
    hide Copied;
  }

  lemma CopyIs(codes: seq<Symbol>, k: nat, mem: seq<byte>, dest: nat, size: nat)
    requires k < |codes| && Total(codes, k) < size && dest + size <= |mem| && KindOf(codes[k].sym).Copy?
    ensures EmitsLegal(codes, k, mem, dest, size)
  {
    hide Total, Number, Emit, Copied, Extends;
    StartNext(codes, k);
    var n, at, back := Length(codes, k), dest + Total(codes, k), Distance(codes, k);
    CopyEmits(mem, at, Total(codes, k), size, Number(codes, k), codes[k].sym);
    NumberAfter(codes, k);
    if LegalAt(dest, codes, k, size) {
      CopiedExtends(codes, k, mem, dest);
    }
  }

  lemma CopiedExtends(codes: seq<Symbol>, k: nat, mem: seq<byte>, dest: nat)
    requires k < |codes| && KindOf(codes[k].sym).Copy? && Distance(codes, k) <= Total(codes, k)
    requires dest + Total(codes, k) + Length(codes, k) <= |mem|
    ensures var at := dest + Total(codes, k); var to := dest + Total(codes, k + 1); var n := Length(codes, k);
            to <= |mem| && Extends(dest, codes, k, mem[..at],
                                   if n == 0 then mem[..to] else Copied(mem, at, Distance(codes, k), n)[..to])
  {
    hide Total, Number;
    StartNext(codes, k);
    var n, at, back := Length(codes, k), dest + Total(codes, k), Distance(codes, k);
    if n > 0 {
      var next := Copied(mem, at, back, n)[..at + n];
      assert next[..at] == mem[..at];
      forall j: nat | Total(codes, k) <= j < Total(codes, k + 1)
        ensures ByteIs(dest, codes, k, next, j)
      {
        assert dest + j - back < at;
      }
    }
  }

  // ----- From the run to the symbols -----

  /** The run that is left behind the symbols read so far. */
  function Rest(t: Table, src: seq<byte>, dest: nat, size: nat, mem: seq<byte>, codes: seq<Symbol>): Ended
    requires Total(codes, |codes|) <= size
  {
    Run(t, src, dest, size, mem, Start(codes, |codes|), Total(codes, |codes|), Number(codes, |codes|))
  }

  /** The symbols read so far, and the buffer `now` that they have led to from `mem`. */
  ghost predicate SoFar(t: Table, src: seq<byte>, dest: nat, size: nat, mem: seq<byte>, now: seq<byte>,
                        codes: seq<Symbol>)
  {
    && dest + size <= |mem| && Total(codes, |codes|) <= size && Unchanged(mem, now, dest, dest + size)
    && ReadOff(t, mem, src, codes, |codes|) && LegalUpTo(dest, codes, |codes|, size)
    && MetUpTo(dest, codes, |codes|, now[..dest + Total(codes, |codes|)])
  }

  lemma StartNext(codes: seq<Symbol>, i: nat)
    requires i < |codes|
    ensures Start(codes, i + 1) == Start(codes, i) + codes[i].bits
    ensures Total(codes, i + 1) == Total(codes, i) + Length(codes, i)
  {
  }

  lemma ReadNext(t: Table, mem: seq<byte>, src: seq<byte>, codes: seq<Symbol>, more: seq<Symbol>)
    requires ReadOff(t, mem, src, codes, |codes|) && |more| == |codes| + 1 && more[..|codes|] == codes
    requires ReadAt(t, mem, src, more, |codes|)
    ensures ReadOff(t, mem, src, more, |more|)
  {
    hide ReadCode, Word, Start, Length;
    forall i | 0 <= i < |more|
      ensures ReadAt(t, mem, src, more, i)
    {
      if i < |codes| {
        assert ReadAt(t, mem, src, codes, i) && more[i] == codes[i];
        assert more[..i] == codes[..i] && more[..i + 1] == codes[..i + 1];
        SamePrefix(codes, more, i);
        LegalPrefix(0, codes, more, i, 0);
      }
    }
  }

  /** An emitted symbol that is legal leads on. */
  lemma SoFarNext(t: Table, src: seq<byte>, dest: nat, size: nat, mem: seq<byte>, now: seq<byte>, codes: seq<Symbol>,
                  more: seq<Symbol>, next: seq<byte>)
    requires SoFar(t, src, dest, size, mem, now, codes) && |more| == |codes| + 1 && more[..|codes|] == codes
    requires ReadAt(t, mem, src, more, |codes|) && LegalAt(dest, more, |codes|, size)
    requires var k := |codes|; var at := dest + Total(more, k);
             && Unchanged(now, next, at, at + Length(more, k)) && dest + Total(more, k + 1) <= |now|
             && Extends(dest, more, k, now[..at], next[..dest + Total(more, k + 1)])
    ensures SoFar(t, src, dest, size, mem, next, more)
  {
    hide ReadAt, LegalAt, ByteIs, Number, Start, Extends, Total, Length;
    var k := |codes|;
    StartNext(more, k);
    InLonger(dest, codes, more, size, now[..dest + Total(codes, k)]);
    LegalTotal(dest, more, k, size);
    ReadNext(t, mem, src, codes, more);
    MetNext(dest, more, k, now[..dest + Total(more, k)], next[..dest + Total(more, k + 1)]);
  }

  lemma LegalTotal(reach: nat, codes: seq<Symbol>, k: nat, size: nat)
    requires k < |codes| && LegalAt(reach, codes, k, size)
    ensures Total(codes, k + 1) <= size
  {
  }

  /** One symbol of a run that succeeds. */
  lemma ReadOne(t: Table, src: seq<byte>, dest: nat, size: nat, mem: seq<byte>, now: seq<byte>, codes: seq<Symbol>)
    returns (more: seq<Symbol>, next: seq<byte>)
    requires SoFar(t, src, dest, size, mem, now, codes) && KeepsCodes(t, mem, dest, size)
    requires Total(codes, |codes|) < size && Rest(t, src, dest, size, now, codes).outcome.Done?
    ensures SoFar(t, src, dest, size, mem, next, more)
    ensures Rest(t, src, dest, size, next, more) == Rest(t, src, dest, size, now, codes)
    ensures Start(codes, |codes|) < 8 * |src| && Start(codes, |codes|) <= Start(more, |more|)
    ensures Start(codes, |codes|) + Total(codes, |codes|) < Start(more, |more|) + Total(more, |more|)
  {
    hide ReadCode, Emit, Word, LegalAt, ByteIs, Number, Extends, Total, Length, Start, MetUpTo, LegalUpTo;
    var p, k := Start(codes, |codes|), |codes|;
    var c := ReadCode(t, now, Word(src, p));
    assert c == ReadCode(t, mem, Word(src, p));
    more := codes + [Symbol(c.sym, c.bits)];
    InLonger(dest, codes, more, size, now);
    StartNext(more, k);
    EmitIs(more, k, now, dest, size);
    var e := Emit(now, dest + Total(more, k), Total(more, k), size, Number(more, k), c.sym);
    EmitFrame(now, dest, Total(more, k), size, Number(more, k), c.sym);
    next := e.mem;
    SoFarNext(t, src, dest, size, mem, now, codes, more, next);
  }

  lemma {:induction false} RunReads(t: Table, src: seq<byte>, dest: nat, size: nat, mem: seq<byte>, now: seq<byte>,
                                    codes: seq<Symbol>)
    requires SoFar(t, src, dest, size, mem, now, codes) && KeepsCodes(t, mem, dest, size)
    requires Rest(t, src, dest, size, now, codes).outcome.Done?
    ensures var r := Rest(t, src, dest, size, now, codes);
            |r.mem| == |mem| && exists all, out :: Encodes(t, mem, src, dest, size, out, all)
    decreases 8 * |src| - Start(codes, |codes|) + (size - Total(codes, |codes|))
  {
    hide Run, Encodes, KeepsCodes, Start, Total, Number, ReadOff, LegalUpTo, MetUpTo;
    if Total(codes, |codes|) == size {
      Finished(t, src, dest, size, now, codes);
      EncodesNow(t, src, dest, size, mem, now, codes);
    } else {
      var more, next := ReadOne(t, src, dest, size, mem, now, codes);
      RunReads(t, src, dest, size, mem, next, more);
    }
  }

  lemma Finished(t: Table, src: seq<byte>, dest: nat, size: nat, now: seq<byte>, codes: seq<Symbol>)
    requires Total(codes, |codes|) == size
    ensures Rest(t, src, dest, size, now, codes) == Ended(now, size, Done)
  {
  }

  lemma EncodesNow(t: Table, src: seq<byte>, dest: nat, size: nat, mem: seq<byte>, now: seq<byte>, codes: seq<Symbol>)
    requires SoFar(t, src, dest, size, mem, now, codes) && Total(codes, |codes|) == size
    ensures Encodes(t, mem, src, dest, size, now[dest..dest + size], codes)
  {
    hide ReadOff, LegalUpTo, MetUpTo;
    assert mem[..dest] + now[dest..dest + size] == now[..dest + size];
  }

  // ----- From the symbols to the run -----

  /** The buffer with the output of the first `k` symbols in it. */
  function WithOutput(mem: seq<byte>, dest: nat, codes: seq<Symbol>, out: seq<byte>, k: nat): seq<byte>
    requires k <= |codes| && Total(codes, k) <= |out| && dest + |out| <= |mem|
  {
    Splice(mem, dest, out[..Total(codes, k)])
  }

  /** Acting on symbol `k` takes the buffer from one stage to the next. */
  lemma EmitsOutput(mem: seq<byte>, dest: nat, size: nat, codes: seq<Symbol>, out: seq<byte>, k: nat)
    requires Legal(dest, codes, size) && |out| == size && dest + size <= |mem| && k < |codes|
    requires MetUpTo(dest, codes, |codes|, mem[..dest] + out)
    ensures Total(codes, k) < size && Total(codes, k + 1) == Total(codes, k) + Length(codes, k) <= size
    ensures var now := WithOutput(mem, dest, codes, out, k);
            Emit(now, dest + Total(codes, k), Total(codes, k), size, Number(codes, k), codes[k].sym)
            == Emitted(WithOutput(mem, dest, codes, out, k + 1), Length(codes, k), Number(codes, k + 1))
  {
    hide Emit, ByteIs, Number, Total, Length, MetUpTo;
    BeforeEnd(dest, codes, k, size);
    StartNext(codes, k);
    var all := mem[..dest] + out;
    MetExtends(dest, codes, k, all);
    var now, after := WithOutput(mem, dest, codes, out, k), WithOutput(mem, dest, codes, out, k + 1);
    var at, to := dest + Total(codes, k), dest + Total(codes, k + 1);
    EmitIs(codes, k, now, dest, size);
    EmitFrame(now, dest, Total(codes, k), size, Number(codes, k), codes[k].sym);
    var e := Emit(now, at, Total(codes, k), size, Number(codes, k), codes[k].sym);
    assert now[..at] == all[..at] && after[..to] == all[..to];
    UnitBehind(dest, codes, k, size);
    ExtensionIsUnique(dest, codes, k, all[..at], all[..to], e.mem[..to]);
    SameParts(after, e.mem, now, mem, to);
  }

  lemma SameParts(a: seq<byte>, b: seq<byte>, now: seq<byte>, mem: seq<byte>, n: nat)
    requires n <= |a| == |b| == |now| == |mem| && a[..n] == b[..n]
    requires forall i :: n <= i < |mem| ==> b[i] == now[i] && now[i] == mem[i] && a[i] == mem[i]
    ensures b == a
  {
    SameFront(a, b, n);
  }

  lemma SameFront(a: seq<byte>, b: seq<byte>, n: nat)
    requires n <= |a| && n <= |b| && a[..n] == b[..n]
    ensures forall i :: 0 <= i < n ==> a[i] == b[i]
  {
    assert forall i :: 0 <= i < n ==> a[i] == a[..n][i] && b[i] == b[..n][i];
  }

  lemma BeforeEnd(reach: nat, codes: seq<Symbol>, k: nat, size: nat)
    requires Legal(reach, codes, size) && k < |codes|
    ensures LegalAt(reach, codes, k, size) && Total(codes, k) < size && Total(codes, k + 1) <= size
  {
  }

  lemma UnitBehind(reach: nat, codes: seq<Symbol>, k: nat, size: nat)
    requires k < |codes| && LegalAt(reach, codes, k, size)
    ensures Length(codes, k) > 0 ==> KindOf(codes[k].sym).Literal? || Distance(codes, k) > 0
  {
  }

  lemma {:induction false} ReadsRun(t: Table, src: seq<byte>, dest: nat, size: nat, mem: seq<byte>, codes: seq<Symbol>,
                                    out: seq<byte>, k: nat)
    requires dest + size <= |mem| && KeepsCodes(t, mem, dest, size) && k <= |codes|
    requires ReadOff(t, mem, src, codes, |codes|) && Legal(dest, codes, size) && |out| == size
    requires MetUpTo(dest, codes, |codes|, mem[..dest] + out)
    ensures Total(codes, k) <= size
    ensures RunFrom(t, src, dest, size, mem, codes, out, k) == Ended(Splice(mem, dest, out), size, Done)
    decreases |codes| - k
  {
    hide Number, Total, MetUpTo, Start, LegalUpTo, KeepsCodes, ReadOff;
    TotalGrows(codes, k, |codes|);
    if k == |codes| {
      assert out[..size] == out;
      Finished(t, src, dest, size, Splice(mem, dest, out), codes);
    } else {
      hide RunFrom;
      ReadsOne(t, src, dest, size, mem, codes, out, k);
      ReadsRun(t, src, dest, size, mem, codes, out, k + 1);
    }
  }

  /** The run that is left behind symbol `k` of an encoded stream. */
  function RunFrom(t: Table, src: seq<byte>, dest: nat, size: nat, mem: seq<byte>, codes: seq<Symbol>, out: seq<byte>,
                   k: nat)
    : Ended
    requires k <= |codes| && Total(codes, k) <= |out| == size && dest + size <= |mem|
  {
    Run(t, src, dest, size, WithOutput(mem, dest, codes, out, k), Start(codes, k), Total(codes, k), Number(codes, k))
  }

  lemma ReadsOne(t: Table, src: seq<byte>, dest: nat, size: nat, mem: seq<byte>, codes: seq<Symbol>, out: seq<byte>,
                 k: nat)
    requires dest + size <= |mem| && KeepsCodes(t, mem, dest, size) && k < |codes|
    requires ReadOff(t, mem, src, codes, |codes|) && Legal(dest, codes, size) && |out| == size
    requires MetUpTo(dest, codes, |codes|, mem[..dest] + out)
    ensures Total(codes, k) <= Total(codes, k + 1) <= size
    ensures RunFrom(t, src, dest, size, mem, codes, out, k) == RunFrom(t, src, dest, size, mem, codes, out, k + 1)
  {
    hide ReadCode, Emit, Word, LegalAt, ByteIs, Number, Total, Length, MetUpTo, Start, LegalUpTo;
    EmitsOutput(mem, dest, size, codes, out, k);
    StartNext(codes, k);
    assert ReadAt(t, mem, src, codes, k);
    var now := WithOutput(mem, dest, codes, out, k);
    assert Unchanged(mem, now, dest, dest + size);
  }

  // ----- Main results -----

  lemma Nothing(t: Table, src: seq<byte>, dest: nat, size: nat, mem: seq<byte>, codes: seq<Symbol>)
    requires dest + size <= |mem|
    ensures SoFar(t, src, dest, size, mem, mem, [])
    ensures Start(codes, 0) == 0 && Total(codes, 0) == 0 && Number(codes, 0) == 0
  {
  }

  /**
   A run succeeds exactly when the source is a legal sequence of symbols, and
   then the buffer holds what they stand for and is otherwise as it was.
   */
  lemma DoneIs(t: Table, src: seq<byte>, dest: nat, size: nat, mem: seq<byte>)
    requires dest + size <= |mem| && KeepsCodes(t, mem, dest, size)
    ensures var r := Run(t, src, dest, size, mem, 0, 0, 0);
            && (r.outcome.Done? <==> exists codes, out :: Encodes(t, mem, src, dest, size, out, codes))
            && forall codes, out :: Encodes(t, mem, src, dest, size, out, codes) ==>
                 dest + |out| <= |mem| && r == Ended(Splice(mem, dest, out), size, Done)
  {
    hide Run, ReadOff, LegalUpTo, MetUpTo, KeepsCodes, SoFar, Start, Total, Number;
    var r := Run(t, src, dest, size, mem, 0, 0, 0);
    Nothing(t, src, dest, size, mem, []);
    if r.outcome.Done? {
      RunReads(t, src, dest, size, mem, mem, []);
    }
    forall codes, out | Encodes(t, mem, src, dest, size, out, codes)
      ensures dest + |out| <= |mem| && r == Ended(Splice(mem, dest, out), size, Done)
    {
      Nothing(t, src, dest, size, mem, codes);
      ReadsRun(t, src, dest, size, mem, codes, out, 0);
      assert Splice(mem, dest, out[..0]) == mem;
    }
  }

  // ----- Whole calls -----

  /** A snapshot is read apart from the image. */
  lemma {:induction false} DescendApart(tab: seq<byte>, mem: seq<byte>, mem': seq<byte>, w: nat, idx: nat, b: nat,
                                        depth: nat)
    requires depth <= MAX_DEPTH
    ensures Descend(Snapshot(tab), mem, w, idx, b, depth) == Descend(Snapshot(tab), mem', w, idx, b, depth)
    decreases MAX_DEPTH - depth
  {
    hide BitAt;
    var raw := Raw(Snapshot(tab), mem, idx);
    assert raw == Raw(Snapshot(tab), mem', idx);
    if raw.Some? && raw.value < LEAF && depth < MAX_DEPTH {
      DescendApart(tab, mem, mem', w, raw.value + BitAt(w, b), b + 1, depth + 1);
    }
  }

  lemma SnapshotKeeps(tab: seq<byte>, mem: seq<byte>, dest: nat, size: nat)
    ensures KeepsCodes(Snapshot(tab), mem, dest, size)
  {
    hide Descend, BitAt;
    forall mem', w: nat
      ensures ReadCode(Snapshot(tab), mem', w) == ReadCode(Snapshot(tab), mem, w)
    {
      var root := w % ROOTS;
      var raw, width := Raw(Snapshot(tab), mem, root), Width(Snapshot(tab), mem, root);
      if raw.Some? && width.Some? && raw.value < LEAF && width.value < 32 {
        DescendApart(tab, mem', mem, w, raw.value + BitAt(w, width.value), width.value + 1, 0);
      }
    }
  }

  /** So is the table in the image, as long as the output stays clear of it. */
  lemma InPlaceKeeps(tab: seq<byte>, mem: seq<byte>, key: nat, dest: nat, size: nat)
    requires SnapshotOf(tab, mem, key) && Apart(key, |tab|, dest, size)
    ensures KeepsCodes(InPlace(key), mem, dest, size)
  {
    hide ReadCode, SnapshotOf, Unchanged;
    forall mem', w: nat | Unchanged(mem, mem', dest, dest + size)
      ensures ReadCode(InPlace(key), mem', w) == ReadCode(InPlace(key), mem, w)
    {
      WriteKeepsSnapshot(tab, mem, mem', key, dest, dest + size);
      CodesAgree(tab, mem, key, w);
      CodesAgree(tab, mem', key, w);
      SnapshotKeeps(tab, mem, dest, size);
    }
  }

  /** Output that does not fit in the buffer is never completed. */
  lemma {:induction false} DoneInside(t: Table, src: seq<byte>, dest: nat, size: nat, mem: seq<byte>, p: nat,
                                      written: nat, pending: nat)
    requires written < size && Run(t, src, dest, size, mem, p, written, pending).outcome.Done?
    ensures dest + size <= |mem|
    decreases 8 * |src| - p + (size - written)
  {
    hide ReadCode, Word, Emit;
    var c := ReadCode(t, mem, Word(src, p));
    var e := Emit(mem, dest + written, written, size, pending, c.sym);
    if written + e.step < size {
      DoneInside(t, src, dest, size, e.mem, p + c.bits, written + e.step, e.pending);
    }
  }

  ghost predicate Stream(t: Table, mem: seq<byte>, src: seq<byte>, dest: nat, size: nat, out: seq<byte>)
    requires dest <= |mem|
  {
    exists codes :: Encodes(t, mem, src, dest, size, out, codes)
  }

  /** Source and output lie in the buffer, and the source is a legal sequence of symbols for `out`. */
  ghost predicate Decompresses(t: Table, mem: seq<byte>, src: nat, dest: nat, sSize: nat, size: nat, out: seq<byte>) {
    && sSize <= MAX_IMAGE_SIZE && src + sSize <= |mem| && |out| == size
    && (size > 0 ==> dest + size <= |mem| && Stream(t, mem, mem[src..src + sSize], dest, size, out))
  }

  /**
   A call succeeds exactly when the source decompresses to some output, which it
   then leaves at `dest`, all other bytes being as they were.
   */
  ghost predicate CallRight(t: Table, mem: seq<byte>, src: nat, dest: nat, sSize: nat, size: nat) {
    var r := Decompress(t, mem, src, dest, sSize, size);
    && (r.outcome.Done? <==> exists out :: Decompresses(t, mem, src, dest, sSize, size, out))
    && forall out :: Decompresses(t, mem, src, dest, sSize, size, out) ==>
         r == Ended(if size == 0 then mem else Splice(mem, dest, out), size, Done)
  }

  lemma CallIs(t: Table, mem: seq<byte>, src: nat, dest: nat, sSize: nat, size: nat)
    requires KeepsCodes(t, mem, dest, size)
    ensures CallRight(t, mem, src, dest, sSize, size)
  {
    hide Run, Stream, KeepsCodes;
    if sSize <= MAX_IMAGE_SIZE && src + sSize <= |mem| {
      var source := mem[src..src + sSize];
      if size == 0 {
        NoOutput(t, source, dest, mem);
        assert Decompresses(t, mem, src, dest, sSize, size, []);
      } else {
        if Run(t, source, dest, size, mem, 0, 0, 0).outcome.Done? {
          DoneInside(t, source, dest, size, mem, 0, 0, 0);
        }
        if dest + size <= |mem| {
          CallInside(t, mem, src, dest, sSize, size);
        }
      }
    }
  }

  lemma NoOutput(t: Table, src: seq<byte>, dest: nat, mem: seq<byte>)
    ensures Run(t, src, dest, 0, mem, 0, 0, 0) == Ended(mem, 0, Done)
  {
  }

  lemma CallInside(t: Table, mem: seq<byte>, src: nat, dest: nat, sSize: nat, size: nat)
    requires KeepsCodes(t, mem, dest, size) && size > 0 && dest + size <= |mem|
    requires sSize <= MAX_IMAGE_SIZE && src + sSize <= |mem|
    ensures var r := Run(t, mem[src..src + sSize], dest, size, mem, 0, 0, 0);
            && (r.outcome.Done? <==> exists out :: Decompresses(t, mem, src, dest, sSize, size, out))
            && forall out :: Decompresses(t, mem, src, dest, sSize, size, out) ==>
                 r == Ended(Splice(mem, dest, out), size, Done)
  {
    hide Run, Encodes, KeepsCodes;
    var source := mem[src..src + sSize];
    DoneIs(t, source, dest, size, mem);
    assert forall codes, out :: Encodes(t, mem, source, dest, size, out, codes) ==>
             Stream(t, mem, source, dest, size, out);
    forall codes, out | Encodes(t, mem, source, dest, size, out, codes)
      ensures Decompresses(t, mem, src, dest, sSize, size, out)
    {
      EncodedSize(t, mem, source, dest, size, out, codes);
    }
  }

  lemma EncodedSize(t: Table, mem: seq<byte>, src: seq<byte>, dest: nat, size: nat, out: seq<byte>, codes: seq<Symbol>)
    requires dest <= |mem| && Encodes(t, mem, src, dest, size, out, codes)
    ensures |out| == size
  {
    hide ReadOff, LegalUpTo, MetUpTo;
  }

  /** The two decompressors: with a snapshot always, in place when the output stays clear of the table. */
  lemma CallsAre(tab: seq<byte>, mem: seq<byte>, key: nat, src: nat, dest: nat, sSize: nat, size: nat)
    ensures CallRight(Snapshot(tab), mem, src, dest, sSize, size)
    ensures SnapshotOf(tab, mem, key) && Apart(key, |tab|, dest, size) ==>
              CallRight(InPlace(key), mem, src, dest, sSize, size)
  {
    hide CallRight, KeepsCodes, SnapshotOf;
    SnapshotKeeps(tab, mem, dest, size);
    CallIs(Snapshot(tab), mem, src, dest, sSize, size);
    if SnapshotOf(tab, mem, key) && Apart(key, |tab|, dest, size) {
      InPlaceKeeps(tab, mem, key, dest, size);
      CallIs(InPlace(key), mem, src, dest, sSize, size);
    }
  }
}
