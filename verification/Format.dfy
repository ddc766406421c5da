/**
 The compressed format, apart from any decoder: a sequence of symbols, what
 makes it legal, and what output it stands for.

 The output is given by an equation for each byte: a literal is its value, and
 every other byte equals an earlier one at a distance that its symbol tells. A
 decoder is right when it accepts the legal sequences and produces the bytes
 that satisfy the equations.
 */
module Format {
  import opened Bytes

  /** A symbol of ten bits as read from the stream, and how many bits it took. */
  datatype Symbol = Symbol(sym: nat, bits: nat)

  datatype Kind = Literal | Digit | Fill | Copy

  function KindOf(sym: nat): Kind {
    match (sym / 256) % 4
    case 0 => Literal
    case 1 => Digit
    case 2 => Fill
    case _ => Copy
  }

  function Payload(sym: nat): byte {
    sym % 256
  }

  /** The number that the digits in front of symbol `i` form, since the last fill or copy; literals do not end it. */
  function Number(codes: seq<Symbol>, i: nat): nat
    requires i <= |codes|
  {
    if i == 0 then 0
    else
      var sym := codes[i - 1].sym;
      match KindOf(sym)
      case Literal => Number(codes, i - 1)
      case Digit => 256 * Number(codes, i - 1) + Payload(sym)
      case _ => 0
  }

  /** How many bytes symbol `i` stands for: a fill is repeated as often as its number says, and once without one. */
  function Length(codes: seq<Symbol>, i: nat): nat
    requires i < |codes|
  {
    var sym := codes[i].sym;
    match KindOf(sym)
    case Literal => 1
    case Digit => 0
    case Fill => (if Number(codes, i) == 0 then 1 else Number(codes, i)) * Payload(sym)
    case Copy => Payload(sym)
  }

  /** How many bytes the first `i` symbols stand for. */
  function Total(codes: seq<Symbol>, i: nat): nat
    requires i <= |codes|
  {
    if i == 0 then 0 else Total(codes, i - 1) + Length(codes, i - 1)
  }

  /** The bit at which symbol `i` starts. */
  function Start(codes: seq<Symbol>, i: nat): nat
    requires i <= |codes|
  {
    if i == 0 then 0 else Start(codes, i - 1) + codes[i - 1].bits
  }

  /** How far back the bytes of a fill or a copy lie. */
  function Distance(codes: seq<Symbol>, i: nat): nat
    requires i < |codes|
  {
    Payload(codes[i].sym) + if KindOf(codes[i].sym).Copy? then Number(codes, i) else 0
  }

  /**
   Symbol `i` is in order: there is output left to fill, a number stays below
   2^16, the unit of a fill is 1, 2 or 4 bytes and lies behind it, `reach` bytes
   before the output included, and a copy only refers to output.
   */
  predicate LegalAt(reach: nat, codes: seq<Symbol>, i: nat, size: nat)
    requires i < |codes|
  {
    && Total(codes, i) < size && Total(codes, i + 1) <= size
    && match KindOf(codes[i].sym)
       case Literal => true
       case Digit => Number(codes, i) < 256
       case Fill => Distance(codes, i) in {1, 2, 4} && Distance(codes, i) <= reach + Total(codes, i)
       case Copy => Distance(codes, i) <= Total(codes, i)
  }

  ghost predicate LegalUpTo(reach: nat, codes: seq<Symbol>, n: nat, size: nat)
    requires n <= |codes|
  {
    forall i :: 0 <= i < n ==> LegalAt(reach, codes, i, size)
  }

  /** All symbols are in order and together stand for `size` bytes. */
  ghost predicate Legal(reach: nat, codes: seq<Symbol>, size: nat) {
    LegalUpTo(reach, codes, |codes|, size) && Total(codes, |codes|) == size
  }

  /** Byte `j` of the output, as symbol `i` gives it; `all` is the output behind the `reach` bytes before it. */
  predicate ByteIs(reach: nat, codes: seq<Symbol>, i: nat, all: seq<byte>, j: nat)
    requires i < |codes|
  {
    && reach + j < |all|
    && if KindOf(codes[i].sym).Literal? then all[reach + j] == Payload(codes[i].sym)
       else Distance(codes, i) <= reach + j && all[reach + j] == all[reach + j - Distance(codes, i)]
  }

  /** The first `n` symbols are met by `all`, which holds at least their output. */
  ghost predicate MetUpTo(reach: nat, codes: seq<Symbol>, n: nat, all: seq<byte>)
    requires n <= |codes|
  {
    && reach + Total(codes, n) <= |all|
    && forall i, j: nat :: 0 <= i < n && Total(codes, i) <= j < Total(codes, i + 1) ==> ByteIs(reach, codes, i, all, j)
  }

  /** `out`, behind the bytes `before`, is what the symbols stand for. */
  ghost predicate StandsFor(before: seq<byte>, codes: seq<Symbol>, out: seq<byte>) {
    |out| == Total(codes, |codes|) && MetUpTo(|before|, codes, |codes|, before + out)
  }

  // ----- Totals -----

  lemma {:induction false} TotalGrows(codes: seq<Symbol>, i: nat, k: nat)
    requires i <= k <= |codes|
    ensures Total(codes, i) <= Total(codes, k)
    decreases k
  {
    if i < k {
      TotalGrows(codes, i, k - 1);
    }
  }

  /** Numbers, totals and positions depend only on the symbols before. */
  lemma {:induction false} SamePrefix(a: seq<Symbol>, b: seq<Symbol>, i: nat)
    requires i <= |a| && i <= |b| && a[..i] == b[..i]
    ensures Number(a, i) == Number(b, i) && Total(a, i) == Total(b, i) && Start(a, i) == Start(b, i)
  {
    if i > 0 {
      assert a[i - 1] == a[..i][i - 1] && b[i - 1] == b[..i][i - 1];
      assert a[..i - 1] == a[..i][..i - 1] && b[..i - 1] == b[..i][..i - 1];
      SamePrefix(a, b, i - 1);
    }
  }

  // ----- One symbol -----

  /** `next` is `all` with the bytes of symbol `i` behind it. */
  ghost predicate Extends(reach: nat, codes: seq<Symbol>, i: nat, all: seq<byte>, next: seq<byte>)
    requires i < |codes|
  {
    && |all| == reach + Total(codes, i) && |next| == reach + Total(codes, i + 1) && next[..|all|] == all
    && forall j: nat :: Total(codes, i) <= j < Total(codes, i + 1) ==> ByteIs(reach, codes, i, next, j)
  }

  /** There is only one such extension, for a symbol whose bytes lie behind it. */
  lemma ExtensionIsUnique(reach: nat, codes: seq<Symbol>, i: nat, all: seq<byte>, x: seq<byte>, y: seq<byte>)
    requires i < |codes| && Extends(reach, codes, i, all, x) && Extends(reach, codes, i, all, y)
    requires Length(codes, i) > 0 ==> KindOf(codes[i].sym).Literal? || Distance(codes, i) > 0
    ensures x == y
  {
    assert |x| == |y|;
    SameUpTo(reach, codes, i, all, x, y, |x|);
    assert x[..|x|] == x && y[..|y|] == y;
  }

  lemma {:induction false} SameUpTo(reach: nat, codes: seq<Symbol>, i: nat, all: seq<byte>, x: seq<byte>, y: seq<byte>,
                                    n: nat)
    requires i < |codes| && Extends(reach, codes, i, all, x) && Extends(reach, codes, i, all, y)
    requires Length(codes, i) > 0 ==> KindOf(codes[i].sym).Literal? || Distance(codes, i) > 0
    requires n <= |x|
    ensures x[..n] == y[..n]
  {
    if n <= |all| {
      assert x[..n] == x[..|all|][..n] && y[..n] == y[..|all|][..n];
    } else {
      SameUpTo(reach, codes, i, all, x, y, n - 1);
      var j: nat := n - 1 - reach;
      assert ByteIs(reach, codes, i, x, j) && ByteIs(reach, codes, i, y, j);
      if !KindOf(codes[i].sym).Literal? {
        var k := n - 1 - Distance(codes, i);
        assert x[k] == x[..n - 1][k] && y[k] == y[..n - 1][k];
      }
      assert x[..n] == x[..n - 1] + [x[n - 1]] && y[..n] == y[..n - 1] + [y[n - 1]];
    }
  }

  /** Meeting the symbols up to `n` only looks at their output. */
  lemma MetPrefix(reach: nat, codes: seq<Symbol>, n: nat, all: seq<byte>, more: seq<byte>)
    requires n <= |codes| && |all| == reach + Total(codes, n) <= |more| && more[..|all|] == all
    ensures MetUpTo(reach, codes, n, all) <==> MetUpTo(reach, codes, n, more)
  {
    forall i, j: nat | 0 <= i < n && Total(codes, i) <= j < Total(codes, i + 1)
      ensures ByteIs(reach, codes, i, all, j) <==> ByteIs(reach, codes, i, more, j)
    {
      TotalGrows(codes, i + 1, n);
      assert forall k :: 0 <= k < |all| ==> all[k] == more[..|all|][k] == more[k];
    }
  }

  /** An output that meets the symbols up to `n`, extended by symbol `n`, meets them up to `n + 1`. */
  lemma MetNext(reach: nat, codes: seq<Symbol>, n: nat, all: seq<byte>, next: seq<byte>)
    requires n < |codes| && MetUpTo(reach, codes, n, all) && Extends(reach, codes, n, all, next)
    ensures MetUpTo(reach, codes, n + 1, next)
  {
    hide ByteIs;
    MetPrefix(reach, codes, n, all, next);
  }

  /** Cut behind symbol `n`, an output that meets the symbols extends its cut in front of it. */
  lemma MetExtends(reach: nat, codes: seq<Symbol>, n: nat, all: seq<byte>)
    requires n < |codes| && MetUpTo(reach, codes, |codes|, all)
    ensures reach + Total(codes, n) <= reach + Total(codes, n + 1) <= |all|
    ensures Extends(reach, codes, n, all[..reach + Total(codes, n)], all[..reach + Total(codes, n + 1)])
  {
    TotalGrows(codes, n + 1, |codes|);
    var now, next := all[..reach + Total(codes, n)], all[..reach + Total(codes, n + 1)];
    assert next[..|now|] == now;
    forall j: nat | Total(codes, n) <= j < Total(codes, n + 1)
      ensures ByteIs(reach, codes, n, next, j)
    {
      assert ByteIs(reach, codes, n, all, j);
    }
  }

  /** Places in a fill one unit apart have the same place in the unit. */
  lemma UnitBack(i: nat, w: nat)
    requires w in {1, 2, 4}
    ensures if i < w then i % w == i else (i - w) % w == i % w < w
  {
    if w == 1 {
    } else if w == 2 {
    }
  }

  // ----- Longer sequences -----

  lemma LegalPrefix(reach: nat, a: seq<Symbol>, b: seq<Symbol>, i: nat, size: nat)
    requires i < |a| && i < |b| && a[..i + 1] == b[..i + 1]
    ensures LegalAt(reach, a, i, size) <==> LegalAt(reach, b, i, size)
    ensures Distance(a, i) == Distance(b, i) && Length(a, i) == Length(b, i)
  {
    assert a[i] == a[..i + 1][i] && b[i] == b[..i + 1][i];
    assert a[..i] == a[..i + 1][..i] && b[..i] == b[..i + 1][..i];
    SamePrefix(a, b, i);
    SamePrefix(a, b, i + 1);
  }

  /** What holds of a sequence holds of it in a longer one. */
  lemma InLonger(reach: nat, codes: seq<Symbol>, more: seq<Symbol>, size: nat, all: seq<byte>)
    requires |codes| <= |more| && more[..|codes|] == codes
    ensures LegalUpTo(reach, codes, |codes|, size) <==> LegalUpTo(reach, more, |codes|, size)
    ensures MetUpTo(reach, codes, |codes|, all) <==> MetUpTo(reach, more, |codes|, all)
    ensures Total(codes, |codes|) == Total(more, |codes|) && Number(codes, |codes|) == Number(more, |codes|)
    ensures Start(codes, |codes|) == Start(more, |codes|)
  {
    hide LegalAt, ByteIs, Number, Total, Start;
    assert codes[..|codes|] == codes;
    SamePrefix(codes, more, |codes|);
    forall i: nat | i < |codes|
      ensures SameAt(reach, codes, more, i, size, all)
    {
      assert more[..i + 1] == codes[..i + 1];
      LegalPrefix(reach, codes, more, i, size);
      SameByte(reach, codes, more, i, size, all);
    }
    AllSame(reach, codes, more, |codes|, size, all);
  }

  lemma AllSame(reach: nat, a: seq<Symbol>, b: seq<Symbol>, n: nat, size: nat, all: seq<byte>)
    requires n <= |a| && n <= |b| && Total(a, n) == Total(b, n)
    requires forall i: nat :: i < n ==> SameAt(reach, a, b, i, size, all)
    ensures LegalUpTo(reach, a, n, size) <==> LegalUpTo(reach, b, n, size)
    ensures MetUpTo(reach, a, n, all) <==> MetUpTo(reach, b, n, all)
  {
    hide LegalAt, ByteIs, Total;
    forall i | 0 <= i < n
      ensures LegalAt(reach, a, i, size) <==> LegalAt(reach, b, i, size)
    {
      assert SameAt(reach, a, b, i, size, all);
    }
    forall i, j: nat | 0 <= i < n
      ensures Total(a, i) == Total(b, i) && Total(a, i + 1) == Total(b, i + 1)
      ensures ByteIs(reach, a, i, all, j) <==> ByteIs(reach, b, i, all, j)
    {
      assert SameAt(reach, a, b, i, size, all);
    }
  }

  /** Symbol `i` plays the same part in both sequences. */
  ghost predicate SameAt(reach: nat, a: seq<Symbol>, b: seq<Symbol>, i: nat, size: nat, all: seq<byte>)
    requires i < |a| && i < |b|
  {
    && (LegalAt(reach, a, i, size) <==> LegalAt(reach, b, i, size))
    && Total(a, i) == Total(b, i) && Total(a, i + 1) == Total(b, i + 1)
    && forall j: nat :: ByteIs(reach, a, i, all, j) <==> ByteIs(reach, b, i, all, j)
  }

  lemma SameByte(reach: nat, a: seq<Symbol>, b: seq<Symbol>, i: nat, size: nat, all: seq<byte>)
    requires i < |a| && i < |b| && a[..i + 1] == b[..i + 1] && Distance(a, i) == Distance(b, i)
    requires LegalAt(reach, a, i, size) <==> LegalAt(reach, b, i, size)
    ensures SameAt(reach, a, b, i, size, all)
  {
    hide LegalAt, Total, Distance;
    assert a[i] == a[..i + 1][i] && b[i] == b[..i + 1][i];
    assert a[..i] == a[..i + 1][..i] && b[..i] == b[..i + 1][..i];
    SamePrefix(a, b, i);
    SamePrefix(a, b, i + 1);
  }
}
