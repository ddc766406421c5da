/**
 When the Android reference decoder accepts a stream, and what it makes of it,
 in terms of the format alone.
 */
module AndroidFormat {
  import opened Bytes
  import opened Wrappers
  import opened Format
  import opened AndroidDecoder

  /** The first `n` symbols are what the stream spells from its first bit on, and none leaves the source. */
  ghost predicate Spelled(tree: seq<byte>, src: seq<byte>, codes: seq<Symbol>, n: nat)
    requires n <= |codes|
  {
    forall i :: 0 <= i < n ==> SpelledAt(tree, src, codes, i)
  }

  predicate SpelledAt(tree: seq<byte>, src: seq<byte>, codes: seq<Symbol>, i: nat)
    requires i < |codes|
  {
    && RefCode(tree, src, Start(codes, i)) == Found(codes[i].sym, codes[i].bits)
    && codes[i].bits > 0 && Start(codes, i + 1) <= 8 * |src|
  }

  /** The stream is a legal sequence of symbols, ends in its last byte, and stands for `out`. */
  ghost predicate Encodes(tree: seq<byte>, src: seq<byte>, size: nat, out: seq<byte>, codes: seq<Symbol>) {
    && Spelled(tree, src, codes, |codes|) && (Start(codes, |codes|) + 7) / 8 == |src|
    && Legal(0, codes, size) && StandsFor([], codes, out)
  }

  // ----- One symbol -----

  /** Applying a symbol succeeds exactly when it is legal, and then appends its bytes. */
  lemma ApplyIs(codes: seq<Symbol>, k: nat, out: seq<byte>, size: nat)
    requires k < |codes| && |out| == Total(codes, k) < size
    ensures var r := RefApply(out, Number(codes, k), codes[k].sym, size);
            && (r.Some? <==> LegalAt(0, codes, k, size))
            && (r.Some? ==> Extends(0, codes, k, out, r.value.0) && r.value.1 == Number(codes, k + 1))
  {
    match KindOf(codes[k].sym) {
      case Fill => FillIs(codes, k, out, size);
      case Copy => CopyIs(codes, k, out, size);
      case _ =>
    }
  }

  lemma FillIs(codes: seq<Symbol>, k: nat, out: seq<byte>, size: nat)
    requires k < |codes| && |out| == Total(codes, k) < size && KindOf(codes[k].sym).Fill?
    ensures var r := RefApply(out, Number(codes, k), codes[k].sym, size);
            && (r.Some? <==> LegalAt(0, codes, k, size))
            && (r.Some? ==> Extends(0, codes, k, out, r.value.0) && r.value.1 == Number(codes, k + 1))
  {
    var w, n := Payload(codes[k].sym), Length(codes, k);
    if LegalAt(0, codes, k, size) {
      var next := out + Repeated(out, w, n);
      forall j: nat | Total(codes, k) <= j < Total(codes, k + 1)
        ensures ByteIs(0, codes, k, next, j)
      {
        RepeatedBack(out, w, n, j - |out|);
      }
    }
  }

  lemma RepeatedBack(out: seq<byte>, w: nat, n: nat, i: nat)
    requires w in {1, 2, 4} && w <= |out| && i < n
    ensures (out + Repeated(out, w, n))[|out| + i] == (out + Repeated(out, w, n))[|out| + i - w]
  {
    UnitBack(i, w);
  }

  lemma CopyIs(codes: seq<Symbol>, k: nat, out: seq<byte>, size: nat)
    requires k < |codes| && |out| == Total(codes, k) < size && KindOf(codes[k].sym).Copy?
    ensures var r := RefApply(out, Number(codes, k), codes[k].sym, size);
            && (r.Some? <==> LegalAt(0, codes, k, size))
            && (r.Some? ==> Extends(0, codes, k, out, r.value.0) && r.value.1 == Number(codes, k + 1))
  {
  }

  // ----- The run -----

  /** The symbols read from the stream up to bit `q` are legal and stand for `out`. */
  ghost predicate Reads(tree: seq<byte>, src: seq<byte>, size: nat, codes: seq<Symbol>, out: seq<byte>, q: nat) {
    Spelled(tree, src, codes, |codes|) && Legal(0, codes, size) && StandsFor([], codes, out)
      && Start(codes, |codes|) == q
  }

  lemma ReadsNow(tree: seq<byte>, src: seq<byte>, size: nat, codes: seq<Symbol>, out: seq<byte>)
    requires Spelled(tree, src, codes, |codes|) && LegalUpTo(0, codes, |codes|, size)
    requires MetUpTo(0, codes, |codes|, out) && |out| == Total(codes, |codes|) == size
    ensures Reads(tree, src, size, codes, out, Start(codes, |codes|))
  {
    hide Spelled, LegalUpTo, MetUpTo;
    assert [] + out == out;
  }

  /** One symbol more: what is known of the symbols read so far, and the run from there. */
  lemma ReadOne(tree: seq<byte>, src: seq<byte>, size: nat, codes: seq<Symbol>, out: seq<byte>)
    returns (more: seq<Symbol>, next: seq<byte>)
    requires Spelled(tree, src, codes, |codes|) && LegalUpTo(0, codes, |codes|, size)
    requires MetUpTo(0, codes, |codes|, out) && |out| == Total(codes, |codes|) < size
    requires RefRun(tree, src, size, Start(codes, |codes|), out, Number(codes, |codes|)).Some?
    ensures Spelled(tree, src, more, |more|) && LegalUpTo(0, more, |more|, size)
    ensures MetUpTo(0, more, |more|, next) && |next| == Total(more, |more|) <= size
    ensures Start(codes, |codes|) < Start(more, |more|) <= 8 * |src|
    ensures RefRun(tree, src, size, Start(codes, |codes|), out, Number(codes, |codes|))
         == RefRun(tree, src, size, Start(more, |more|), next, Number(more, |more|))
  {
    hide RefCode, RefApply, LegalAt, ByteIs, Number, Spelled, MetUpTo, Total;
    var p, k := Start(codes, |codes|), |codes|;
    var f := RefCode(tree, src, p);
    more := codes + [Symbol(f.sym, f.bits)];
    InLonger(0, codes, more, size, out);
    ApplyIs(more, k, out, size);
    next := RefApply(out, Number(codes, k), f.sym, size).value.0;
    MetNext(0, more, k, out, next);
    SpelledNext(tree, src, codes, more);
    StartNext(more, k);
  }

  /** From an accepted run to the symbols it has read. */
  lemma {:induction false} RunReads(tree: seq<byte>, src: seq<byte>, size: nat, codes: seq<Symbol>, out: seq<byte>)
    requires Spelled(tree, src, codes, |codes|) && LegalUpTo(0, codes, |codes|, size)
    requires MetUpTo(0, codes, |codes|, out) && |out| == Total(codes, |codes|) <= size
    requires RefRun(tree, src, size, Start(codes, |codes|), out, Number(codes, |codes|)).Some?
    ensures var (o, q) := RefRun(tree, src, size, Start(codes, |codes|), out, Number(codes, |codes|)).value;
            exists all :: Reads(tree, src, size, all, o, q)
    decreases 8 * |src| - Start(codes, |codes|)
  {
    hide RefCode, RefApply, LegalUpTo, MetUpTo, Number, Spelled, Reads, Total, Start;
    if |out| == size {
      ReadsNow(tree, src, size, codes, out);
    } else {
      var more, next := ReadOne(tree, src, size, codes, out);
      RunReads(tree, src, size, more, next);
    }
  }

  lemma SpelledNext(tree: seq<byte>, src: seq<byte>, codes: seq<Symbol>, more: seq<Symbol>)
    requires Spelled(tree, src, codes, |codes|) && |more| == |codes| + 1 && more[..|codes|] == codes
    requires var p := Start(codes, |codes|); var last := more[|codes|];
             RefCode(tree, src, p) == Found(last.sym, last.bits) && last.bits > 0 && p + last.bits <= 8 * |src|
    ensures Spelled(tree, src, more, |more|)
  {
    hide RefCode, Start;
    forall i | 0 <= i < |more|
      ensures SpelledAt(tree, src, more, i)
    {
      assert more[..i] == codes[..i];
      SamePrefix(codes, more, i);
      StartNext(more, i);
      if i < |codes| {
        assert more[i] == codes[i] && SpelledAt(tree, src, codes, i);
        StartNext(codes, i);
      } else {
        assert codes[..|codes|] == codes;
      }
    }
  }

  lemma StartNext(codes: seq<Symbol>, i: nat)
    requires i < |codes|
    ensures Start(codes, i + 1) == Start(codes, i) + codes[i].bits
  {
  }

  /** From the symbols to the run, from any symbol on. */
  lemma {:induction false} ReadsRun(tree: seq<byte>, src: seq<byte>, size: nat, codes: seq<Symbol>, out: seq<byte>,
                                    k: nat)
    requires Spelled(tree, src, codes, |codes|) && Legal(0, codes, size) && k <= |codes|
    requires |out| == size && MetUpTo(0, codes, |codes|, out)
    ensures Total(codes, k) <= size
    ensures RefRun(tree, src, size, Start(codes, k), out[..Total(codes, k)], Number(codes, k))
         == Some((out, Start(codes, |codes|)))
    decreases |codes| - k
  {
    hide RefCode, RefApply, LegalAt, ByteIs, Number, Total, MetUpTo, Extends;
    TotalGrows(codes, k, |codes|);
    if k == |codes| {
      assert out[..size] == out;
    } else {
      BeforeEnd(codes, k, size);
      assert SpelledAt(tree, src, codes, k);
      MetExtends(0, codes, k, out);
      var now, next := out[..Total(codes, k)], out[..Total(codes, k + 1)];
      ApplyIs(codes, k, now, size);
      StartNext(codes, k);
      var r := RefApply(now, Number(codes, k), codes[k].sym, size).value;
      UnitBehind(codes, k, size);
      ExtensionIsUnique(0, codes, k, now, next, r.0);
      ReadsRun(tree, src, size, codes, out, k + 1);
    }
  }

  lemma BeforeEnd(codes: seq<Symbol>, k: nat, size: nat)
    requires Legal(0, codes, size) && k < |codes|
    ensures LegalAt(0, codes, k, size) && Total(codes, k) < size
  {
  }

  lemma UnitBehind(codes: seq<Symbol>, k: nat, size: nat)
    requires k < |codes| && LegalAt(0, codes, k, size)
    ensures Length(codes, k) > 0 ==> KindOf(codes[k].sym).Literal? || Distance(codes, k) > 0
  {
  }

  /**
   The reference accepts a stream exactly when it is a legal sequence of symbols
   that ends in its last byte, and its result is what the symbols stand for.
   */
  lemma ReferenceIs(tree: seq<byte>, src: seq<byte>, size: nat, out: seq<byte>)
    ensures Reference(tree, src, size) == Some(out) <==> exists codes :: Encodes(tree, src, size, out, codes)
  {
    hide RefRun, LegalUpTo, Spelled, MetUpTo, Start, Total, Number;
    if Reference(tree, src, size) == Some(out) {
      NothingRead(tree, src, size);
      AtStart([]);
      RunReads(tree, src, size, [], []);
      var (o, q) := RefRun(tree, src, size, 0, [], 0).value;
      var codes :| Reads(tree, src, size, codes, o, q);
      assert Encodes(tree, src, size, out, codes);
    }
    forall codes | Encodes(tree, src, size, out, codes)
      ensures Reference(tree, src, size) == Some(out)
    {
      assert [] + out == out;
      AtStart(codes);
      ReadsRun(tree, src, size, codes, out, 0);
      assert out[..0] == [];
    }
  }

  lemma AtStart(codes: seq<Symbol>)
    ensures Start(codes, 0) == 0 && Total(codes, 0) == 0 && Number(codes, 0) == 0
  {
  }

  lemma NothingRead(tree: seq<byte>, src: seq<byte>, size: nat)
    ensures Spelled(tree, src, [], 0) && LegalUpTo(0, [], 0, size) && MetUpTo(0, [], 0, [])
  {
  }
}
