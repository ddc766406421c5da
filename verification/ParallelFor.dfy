/**
 The block-parallel fan-out: span checks, carving, and the worker threads as a
 state machine whose atomic steps interleave in any order.
 */
module ParallelFor {
  import opened Bytes
  import opened Wrappers

  type Span = (nat, nat)

  /** How a block ends; the errors are numbered. */
  datatype Status = Success | Failure(error: nat) | Panic

  datatype BlockResult = BlockResult(out: seq<byte>, status: Status)

  /** Block index, base offset and the bytes of its span. */
  type Block = (nat, nat, seq<byte>) -> BlockResult

  /** A block writes inside the slice it was given. */
  ghost predicate KeepsLength(f: Block) {
    forall i, base, s :: |f(i, base, s).out| == |s|
  }

  // ----- Spans -----

  predicate InBounds(spans: seq<Span>, len: nat) {
    forall i :: 0 <= i < |spans| ==> spans[i].0 <= spans[i].1 <= len
  }

  /** One span ends before the other starts. An empty span may sit at the start of another. */
  predicate Separate(a: Span, b: Span) {
    a.1 <= b.0 || b.1 <= a.0
  }

  predicate AllSeparate(spans: seq<Span>) {
    forall i, j :: 0 <= i < j < |spans| ==> Separate(spans[i], spans[j])
  }

  predicate Before(a: Span, b: Span) {
    a.0 < b.0 || (a.0 == b.0 && a.1 <= b.1)
  }

  /** `order` lists the indices of `spans` once each, by start and then by end. */
  ghost predicate IsOrder(spans: seq<Span>, order: seq<nat>, n: nat) {
    && |order| == n <= |spans|
    && (forall k :: 0 <= k < n ==> order[k] < n)
    && (forall i: nat :: i < n ==> i in order)
    && (forall k, l :: 0 <= k < l < n ==> order[k] != order[l])
    && (forall k, l :: 0 <= k < l < n ==> Before(spans[order[k]], spans[order[l]]))
  }

  /** Sort the indices by the whole span (start, then end). */
  method SortedOrder(spans: seq<Span>) returns (order: seq<nat>)
    ensures IsOrder(spans, order, |spans|)
  {
    order := [];
    for i := 0 to |spans|
      invariant IsOrder(spans, order, i)
    {
      var k := |order|;
      while k > 0 && !Before(spans[order[k - 1]], spans[i])
        invariant 0 <= k <= |order|
        invariant forall l :: k <= l < |order| ==> Before(spans[i], spans[order[l]])
      {
        k := k - 1;
      }
      ghost var was := order;
      order := order[..k] + [i] + order[k..];
      Inserted(spans, was, k, i);
    }
  }

  lemma Inserted(spans: seq<Span>, order: seq<nat>, k: nat, i: nat)
    requires IsOrder(spans, order, i) && i < |spans| && k <= i
    requires k > 0 ==> Before(spans[order[k - 1]], spans[i])
    requires forall l :: k <= l < i ==> Before(spans[i], spans[order[l]])
    requires forall j: nat :: j < i + 1 ==> j in order || j == i
    ensures IsOrder(spans, order[..k] + [i] + order[k..], i + 1)
  {
    var r := order[..k] + [i] + order[k..];
    forall j: nat | j < i + 1
      ensures j in r
    {
      InsertedMember(order, k, i, j);
    }
    InsertedDistinct(spans, order, k, i);
    InsertedSorted(spans, order, k, i);
  }

  lemma InsertedDistinct(spans: seq<Span>, order: seq<nat>, k: nat, i: nat)
    requires IsOrder(spans, order, i) && k <= i
    ensures var r := order[..k] + [i] + order[k..];
            && (forall a :: 0 <= a < i + 1 ==> r[a] < i + 1)
            && (forall a, b :: 0 <= a < b < i + 1 ==> r[a] != r[b])
  {
    hide Before;
  }

  lemma InsertedSorted(spans: seq<Span>, order: seq<nat>, k: nat, i: nat)
    requires |order| == i < |spans| && k <= i
    requires forall a :: 0 <= a < i ==> order[a] < i
    requires forall a, b :: 0 <= a < b < i ==> Before(spans[order[a]], spans[order[b]])
    requires k > 0 ==> Before(spans[order[k - 1]], spans[i])
    requires forall l :: k <= l < i ==> Before(spans[i], spans[order[l]])
    ensures var r := order[..k] + [i] + order[k..];
            && (forall a :: 0 <= a < i + 1 ==> r[a] < i + 1)
            && (forall a, b :: 0 <= a < b < i + 1 ==> Before(spans[r[a]], spans[r[b]]))
  {
    assert forall l :: 0 <= l < k ==> Before(spans[order[l]], spans[i]);
  }

  lemma InsertedMember(order: seq<nat>, k: nat, i: nat, j: nat)
    requires k <= |order| && (j in order || j == i)
    ensures j in order[..k] + [i] + order[k..]
  {
    assert order == order[..k] + order[k..];
  }

  /** Adjacent sorted spans do not overlap exactly when no two spans do. */
  lemma SortedNeighbours(spans: seq<Span>, order: seq<nat>, len: nat)
    requires IsOrder(spans, order, |spans|) && InBounds(spans, len)
    ensures (forall k :: 0 <= k < |order| - 1 ==> spans[order[k]].1 <= spans[order[k + 1]].0) <==> AllSeparate(spans)
  {
    if forall k :: 0 <= k < |order| - 1 ==> spans[order[k]].1 <= spans[order[k + 1]].0 {
      forall i, j | 0 <= i < j < |spans|
        ensures Separate(spans[i], spans[j])
      {
        assert i in order && j in order;
        var k :| 0 <= k < |order| && order[k] == i;
        var l :| 0 <= l < |order| && order[l] == j;
        Chain(spans, order, len, if k < l then k else l, if k < l then l else k);
      }
    }
    if AllSeparate(spans) {
      forall k | 0 <= k < |order| - 1
        ensures spans[order[k]].1 <= spans[order[k + 1]].0
      {
        var a, b := order[k], order[k + 1];
        assert a != b && Before(spans[a], spans[b]);
        assert Separate(spans[if a < b then a else b], spans[if a < b then b else a]);
      }
    }
  }

  lemma {:induction false} Chain(spans: seq<Span>, order: seq<nat>, len: nat, k: nat, l: nat)
    requires IsOrder(spans, order, |spans|) && InBounds(spans, len)
    requires forall k :: 0 <= k < |order| - 1 ==> spans[order[k]].1 <= spans[order[k + 1]].0
    requires k < l < |order|
    ensures spans[order[k]].1 <= spans[order[l]].0
    decreases l
  {
    if k + 1 < l {
      Chain(spans, order, len, k, l - 1);
    }
  }

  /** Sort, then compare neighbours. */
  method SpansDisjoint(spans: seq<Span>, ghost len: nat) returns (disjoint: bool, order: seq<nat>)
    requires InBounds(spans, len)
    ensures disjoint == AllSeparate(spans) && IsOrder(spans, order, |spans|)
  {
    order := SortedOrder(spans);
    SortedNeighbours(spans, order, len);
    var k := 0;
    while k + 1 < |order|
      invariant k == 0 || k < |order|
      invariant forall m :: 0 <= m < k ==> spans[order[m]].1 <= spans[order[m + 1]].0
    {
      if spans[order[k + 1]].0 < spans[order[k]].1 {
        return false, order;
      }
      k := k + 1;
    }
    return true, order;
  }

  /** `split_at_mut` of a slice that starts at `at`; panics unless `k <= len`. */
  function SplitAt(at: nat, len: nat, k: nat): (r: ((nat, nat), (nat, nat)))
    requires k <= len
    ensures r == ((at, k), (at + k, len - k))
  {
    ((at, k), (at + k, len - k))
  }

  /** Carve the buffer into the spans, in sorted order; neither split nor `s - base` can fail. */
  method Carve(spans: seq<Span>, order: seq<nat>, len: nat) returns (pieces: seq<(nat, nat)>)
    requires IsOrder(spans, order, |spans|) && InBounds(spans, len) && AllSeparate(spans)
    ensures |pieces| == |spans|
    ensures forall i :: 0 <= i < |spans| ==> pieces[i] == (spans[i].0, spans[i].1 - spans[i].0)
  {
    SortedNeighbours(spans, order, len);
    pieces := seq(|spans|, _ => (0, 0));
    var rest: (nat, nat), base: nat := (0, len), 0;
    for k := 0 to |order|
      invariant |pieces| == |spans|
      invariant rest.0 == base && rest.0 + rest.1 == len
      invariant base == if k == 0 then 0 else spans[order[k - 1]].1
      invariant forall m :: 0 <= m < k ==>
                pieces[order[m]] == (spans[order[m]].0, spans[order[m]].1 - spans[order[m]].0)
    {
      var i := order[k];
      var (s, e) := spans[i];
      var skip := s - base;
      var (_, tail) := SplitAt(rest.0, rest.1, skip);
      var (piece, tail2) := SplitAt(tail.0, tail.1, e - s);
      pieces := pieces[i := piece];
      rest := tail2;
      base := e;
    }
    forall i | 0 <= i < |spans|
      ensures pieces[i] == (spans[i].0, spans[i].1 - spans[i].0)
    {
      assert i in order;
    }
  }

  // ----- The sequential loop -----

  /** What a job works on: the buffer as it was, the spans and the block function. */
  datatype Job = Job(buf: seq<byte>, spans: seq<Span>, f: Block) {
    ghost predicate Valid() {
      InBounds(spans, |buf|) && AllSeparate(spans) && KeepsLength(f)
    }

    /** The result of block `i` on its own span of the original buffer. */
    function Of(i: nat): (r: BlockResult)
      requires InBounds(spans, |buf|) && i < |spans|
    {
      f(i, spans[i].0, buf[spans[i].0..spans[i].1])
    }
  }

  /** Run blocks `i..` one after the other on `buf`; stop at the first failure. */
  function Sequential(job: Job, i: nat, buf: seq<byte>): (r: (seq<byte>, Status))
    requires InBounds(job.spans, |buf|) && i <= |job.spans|
    requires forall k, base, s :: |job.f(k, base, s).out| == |s|
    decreases |job.spans| - i
  {
    if i == |job.spans| then (buf, Success)
    else
      var (s, e) := job.spans[i];
      var r := job.f(i, s, buf[s..e]);
      var buf' := Splice(buf, s, r.out);
      if r.status != Success then (buf', r.status) else Sequential(job, i + 1, buf')
  }

  function Piece(job: Job, buf: seq<byte>, i: nat): seq<byte>
    requires i < |job.spans| && InBounds(job.spans, |buf|)
  {
    buf[job.spans[i].0..job.spans[i].1]
  }

  /** Position `k` belongs to no span. */
  predicate Uncovered(spans: seq<Span>, k: nat) {
    forall i :: 0 <= i < |spans| ==> !(spans[i].0 <= k < spans[i].1)
  }

  // ----- The workers -----

  /** Where a worker is; a running worker remembers what its span held when it was handed over. */
  datatype Pc = Looping | Fetching | Running(block: nat, span: seq<byte>) | Failing(error: nat)
              | Panicking(block: nat) | Stopping | Exited

  /** `next` is the shared iterator; `runs[i]` records how often block `i` has been run. */
  datatype State = State(buf: seq<byte>, next: nat, stop: bool, firstErr: Option<nat>, firstPanic: Option<nat>,
                         pcs: seq<Pc>, runs: seq<nat>)

  /**
   The atomic steps of worker `w`. The stop flag is read without ordering, so a
   worker may still see it lowered (`seen == false`) after it was raised. While
   a block runs it may write anything into its own span.
   */
  datatype Step =
    | CheckStop(w: nat, seen: bool)
    | Fetch(w: nat)
    | Scribble(w: nat, bytes: seq<byte>)
    | Finish(w: nat)
    | RecordError(w: nat)
    | RecordPanic(w: nat)
    | RaiseStop(w: nat)

  ghost predicate Fits(job: Job, s: State) {
    job.Valid() && |s.buf| == |job.buf| && |s.runs| == |job.spans| && s.next <= |job.spans|
    && forall w :: 0 <= w < |s.pcs| && s.pcs[w].Running? ==>
         s.pcs[w].block < |job.spans| && |s.pcs[w].span| == job.spans[s.pcs[w].block].1 - job.spans[s.pcs[w].block].0
  }

  predicate Enabled(job: Job, s: State, a: Step) {
    a.w < |s.pcs| &&
    match a
    case CheckStop(w, seen) => s.pcs[w].Looping? && (seen ==> s.stop)
    case Fetch(w) => s.pcs[w].Fetching?
    case Scribble(w, bytes) => s.pcs[w].Running? && |bytes| == |s.pcs[w].span|
    case Finish(w) => s.pcs[w].Running?
    case RecordError(w) => s.pcs[w].Failing?
    case RecordPanic(w) => s.pcs[w].Panicking?
    case RaiseStop(w) => s.pcs[w].Stopping?
  }

  function AfterRun(i: nat, status: Status): Pc {
    match status
    case Success => Looping
    case Failure(e) => Failing(e)
    case Panic => Panicking(i)
  }

  function Next(job: Job, s: State, a: Step): State
    requires Fits(job, s) && Enabled(job, s, a)
  {
    match a
    case CheckStop(w, seen) => s.(pcs := s.pcs[w := if seen then Exited else Fetching])
    case Fetch(w) =>
      if s.next < |job.spans| then s.(next := s.next + 1, pcs := s.pcs[w := Running(s.next, Piece(job, s.buf, s.next))])
      else s.(pcs := s.pcs[w := Exited])
    case Scribble(w, bytes) => s.(buf := Splice(s.buf, job.spans[s.pcs[w].block].0, bytes))
    case Finish(w) =>
      var i := s.pcs[w].block;
      var r := job.f(i, job.spans[i].0, s.pcs[w].span);
      s.(buf := Splice(s.buf, job.spans[i].0, r.out), runs := s.runs[i := s.runs[i] + 1],
         pcs := s.pcs[w := AfterRun(i, r.status)])
    case RecordError(w) =>
      s.(firstErr := if s.firstErr.None? then Some(s.pcs[w].error) else s.firstErr, pcs := s.pcs[w := Stopping])
    case RecordPanic(w) =>
      s.(firstPanic := if s.firstPanic.None? then Some(s.pcs[w].block) else s.firstPanic, pcs := s.pcs[w := Stopping])
    case RaiseStop(w) => s.(stop := true, pcs := s.pcs[w := Exited])
  }

  function Start(job: Job, workers: nat): State {
    State(job.buf, 0, false, None, None, seq(workers, _ => Looping), seq(|job.spans|, _ => 0))
  }

  // ----- What every step keeps -----

  predicate Held(s: State, i: nat) {
    exists w :: 0 <= w < |s.pcs| && s.pcs[w].Running? && s.pcs[w].block == i
  }

  /** Every block is with the iterator, with exactly one worker, or has run once. */
  ghost predicate HandedOnce(job: Job, s: State) {
    && Fits(job, s)
    && (forall w :: 0 <= w < |s.pcs| && s.pcs[w].Running? ==> s.pcs[w].block < s.next && s.runs[s.pcs[w].block] == 0)
    && (forall v, w :: 0 <= v < w < |s.pcs| && s.pcs[v].Running? && s.pcs[w].Running? ==>
        s.pcs[v].block != s.pcs[w].block)
    && (forall i :: 0 <= i < |job.spans| ==> s.runs[i] <= 1)
    && (forall i :: s.next <= i < |job.spans| ==> s.runs[i] == 0)
    && (forall i :: 0 <= i < s.next && s.runs[i] == 0 ==> Held(s, i))
  }

  /** A finished block's span holds its result, an unfetched one its original bytes; nothing else changes. */
  ghost predicate BufferExact(job: Job, s: State) {
    && Fits(job, s)
    && (forall w :: 0 <= w < |s.pcs| && s.pcs[w].Running? ==> s.pcs[w].span == Piece(job, job.buf, s.pcs[w].block))
    && (forall i :: 0 <= i < |job.spans| && s.runs[i] == 1 ==> Piece(job, s.buf, i) == job.Of(i).out)
    && (forall i :: s.next <= i < |job.spans| ==> Piece(job, s.buf, i) == Piece(job, job.buf, i))
    && (forall k :: 0 <= k < |s.buf| && Uncovered(job.spans, k) ==> s.buf[k] == job.buf[k])
  }

  /** Block `i` has run and ended with `status`. */
  ghost predicate Ended(job: Job, s: State, i: nat, status: Status) {
    Fits(job, s) && i < |job.spans| && s.runs[i] == 1 && job.Of(i).status == status
  }

  predicate Recording(s: State, panic: bool) {
    exists w :: 0 <= w < |s.pcs| && if panic then s.pcs[w].Panicking? else s.pcs[w].Failing?
  }

  /** The slots, and the workers about to fill them, only speak of blocks that failed... */
  ghost predicate SlotsSound(job: Job, s: State) {
    && Fits(job, s)
    && (s.firstErr.Some? ==> exists i :: Ended(job, s, i, Failure(s.firstErr.value)))
    && (s.firstPanic.Some? ==> Ended(job, s, s.firstPanic.value, Panic))
    && (forall w :: 0 <= w < |s.pcs| && s.pcs[w].Failing? ==> exists i :: Ended(job, s, i, Failure(s.pcs[w].error)))
    && (forall w :: 0 <= w < |s.pcs| && s.pcs[w].Panicking? ==> Ended(job, s, s.pcs[w].block, Panic))
  }

  /** ... and no failure gets lost; workers only leave when the blocks are used up or one failed. */
  ghost predicate SlotsComplete(job: Job, s: State) {
    && Fits(job, s)
    && (forall i, status :: Ended(job, s, i, status) && status.Failure? ==> s.firstErr.Some? || Recording(s, false))
    && (forall i :: Ended(job, s, i, Panic) ==> s.firstPanic.Some? || Recording(s, true))
    && (s.stop ==> s.firstErr.Some? || s.firstPanic.Some?)
    && (forall w :: 0 <= w < |s.pcs| && s.pcs[w].Stopping? ==> s.firstErr.Some? || s.firstPanic.Some?)
    && (forall w :: 0 <= w < |s.pcs| && s.pcs[w].Exited? ==> s.stop || s.next == |job.spans|)
  }

  ghost predicate Inv(job: Job, s: State) {
    HandedOnce(job, s) && BufferExact(job, s) && SlotsSound(job, s) && SlotsComplete(job, s)
  }

  lemma StartInv(job: Job, workers: nat)
    requires job.Valid()
    ensures Inv(job, Start(job, workers))
  {
  }

  lemma FitsKept(job: Job, s: State, a: Step)
    requires HandedOnce(job, s) && Enabled(job, s, a)
    ensures Fits(job, Next(job, s, a))
  {
  }

  /** `s'` differs from `s` at worker `w` at most, and in the same blocks being held. */
  ghost predicate SameHolders(s: State, s': State, w: nat) {
    && |s'.pcs| == |s.pcs| && w < |s.pcs|
    && (forall v :: 0 <= v < |s.pcs| && v != w ==> s'.pcs[v] == s.pcs[v])
    && (s'.pcs[w] == s.pcs[w] || (!s'.pcs[w].Running? && !s.pcs[w].Running?))
  }

  lemma HeldKept(s: State, s': State, w: nat, i: nat)
    requires SameHolders(s, s', w) && Held(s, i)
    ensures Held(s', i)
  {
    var v :| 0 <= v < |s.pcs| && s.pcs[v].Running? && s.pcs[v].block == i;
    assert s'.pcs[v] == s.pcs[v];
  }

  lemma HandedOnceQuiet(job: Job, s: State, s': State, w: nat)
    requires HandedOnce(job, s) && Fits(job, s') && SameHolders(s, s', w) && s'.next == s.next && s'.runs == s.runs
    ensures HandedOnce(job, s')
  {
    forall i | 0 <= i < s'.next && s'.runs[i] == 0
      ensures Held(s', i)
    {
      HeldKept(s, s', w, i);
    }
  }

  lemma HandedOnceFetch(job: Job, s: State, w: nat)
    requires HandedOnce(job, s) && Enabled(job, s, Fetch(w)) && s.next < |job.spans|
    ensures HandedOnce(job, Next(job, s, Fetch(w)))
  {
    var s' := Next(job, s, Fetch(w));
    forall i | 0 <= i < s'.next && s'.runs[i] == 0
      ensures Held(s', i)
    {
      if i == s.next {
        assert s'.pcs[w].Running? && s'.pcs[w].block == i;
      } else {
        var v :| 0 <= v < |s.pcs| && s.pcs[v].Running? && s.pcs[v].block == i;
        assert s'.pcs[v] == s.pcs[v];
      }
    }
  }

  lemma HandedOnceFinish(job: Job, s: State, w: nat)
    requires HandedOnce(job, s) && Enabled(job, s, Finish(w))
    ensures HandedOnce(job, Next(job, s, Finish(w)))
  {
    var s' := Next(job, s, Finish(w));
    var b := s.pcs[w].block;
    assert forall v :: 0 <= v < |s.pcs| && v != w ==> s'.pcs[v] == s.pcs[v];
    assert !s'.pcs[w].Running?;
    forall i | 0 <= i < s'.next && s'.runs[i] == 0
      ensures Held(s', i)
    {
      var v :| 0 <= v < |s.pcs| && s.pcs[v].Running? && s.pcs[v].block == i;
      assert v != w;
      assert s'.pcs[v] == s.pcs[v];
    }
  }

  lemma HandedOnceKept(job: Job, s: State, a: Step)
    requires HandedOnce(job, s) && Enabled(job, s, a)
    ensures HandedOnce(job, Next(job, s, a))
  {
    hide HandedOnce;
    HandedOnceFits(job, s, a);
    if a.Fetch? && s.next < |job.spans| {
      HandedOnceFetch(job, s, a.w);
    } else if a.Finish? {
      HandedOnceFinish(job, s, a.w);
    } else {
      HandedOnceQuiet(job, s, Next(job, s, a), a.w);
    }
  }

  lemma HandedOnceFits(job: Job, s: State, a: Step)
    requires HandedOnce(job, s) && Enabled(job, s, a)
    ensures Fits(job, s) && Fits(job, Next(job, s, a))
  {
    FitsKept(job, s, a);
  }

  // ----- The buffer -----

  lemma SplicedPieces(job: Job, buf: seq<byte>, i: nat, bytes: seq<byte>)
    requires InBounds(job.spans, |buf|) && AllSeparate(job.spans) && i < |job.spans|
    requires |bytes| == job.spans[i].1 - job.spans[i].0
    ensures var buf' := Splice(buf, job.spans[i].0, bytes);
            && Piece(job, buf', i) == bytes
            && (forall j: nat :: j < |job.spans| && j != i ==> Piece(job, buf', j) == Piece(job, buf, j))
            && (forall k :: 0 <= k < |buf| && Uncovered(job.spans, k) ==> buf'[k] == buf[k])
  {
    var buf' := Splice(buf, job.spans[i].0, bytes);
    forall j: nat | j < |job.spans| && j != i
      ensures Piece(job, buf', j) == Piece(job, buf, j)
    {
      assert Separate(job.spans[if i < j then i else j], job.spans[if i < j then j else i]);
    }
  }

  lemma BufferFetch(job: Job, s: State, w: nat)
    requires HandedOnce(job, s) && BufferExact(job, s) && Enabled(job, s, Fetch(w)) && s.next < |job.spans|
    ensures BufferExact(job, Next(job, s, Fetch(w)))
  {
    FitsKept(job, s, Fetch(w));
  }

  /** A step that writes `bytes` to the span its worker holds, and perhaps completes the block. */
  lemma BufferWrite(job: Job, s: State, s': State, w: nat, bytes: seq<byte>)
    requires HandedOnce(job, s) && BufferExact(job, s) && Fits(job, s')
    requires w < |s.pcs| && s.pcs[w].Running? && |bytes| == |s.pcs[w].span|
    requires s'.buf == Splice(s.buf, job.spans[s.pcs[w].block].0, bytes) && s'.next == s.next
    requires |s'.pcs| == |s.pcs| && forall v :: 0 <= v < |s.pcs| && s'.pcs[v].Running? ==> s'.pcs[v] == s.pcs[v]
    requires var b := s.pcs[w].block;
             s'.runs == s.runs || (s'.runs == s.runs[b := 1] && bytes == job.Of(b).out)
    ensures BufferExact(job, s')
  {
    hide Piece;
    var b := s.pcs[w].block;
    SplicedPieces(job, s.buf, b, bytes);
  }

  lemma BufferExactKept(job: Job, s: State, a: Step)
    requires HandedOnce(job, s) && BufferExact(job, s) && Enabled(job, s, a)
    ensures BufferExact(job, Next(job, s, a))
  {
    FitsKept(job, s, a);
    var s' := Next(job, s, a);
    if a.Fetch? && s.next < |job.spans| {
      BufferFetch(job, s, a.w);
    } else if a.Scribble? {
      BufferWrite(job, s, s', a.w, a.bytes);
    } else if a.Finish? {
      var b := s.pcs[a.w].block;
      assert job.f(b, job.spans[b].0, s.pcs[a.w].span) == job.Of(b);
      BufferWrite(job, s, s', a.w, job.Of(b).out);
    }
  }

  // ----- The slots -----

  lemma EndedKept(job: Job, s: State, a: Step, i: nat, status: Status)
    requires HandedOnce(job, s) && Enabled(job, s, a) && Ended(job, s, i, status)
    ensures Ended(job, Next(job, s, a), i, status)
  {
    FitsKept(job, s, a);
  }

  /** Only finishing a block ends it. */
  lemma EndedBefore(job: Job, s: State, a: Step, i: nat, status: Status)
    requires HandedOnce(job, s) && Enabled(job, s, a) && Ended(job, Next(job, s, a), i, status)
    ensures Ended(job, s, i, status) || (a.Finish? && i == s.pcs[a.w].block)
  {
  }

  lemma SlotsSoundKept(job: Job, s: State, a: Step)
    requires HandedOnce(job, s) && BufferExact(job, s) && SlotsSound(job, s) && Enabled(job, s, a)
    ensures SlotsSound(job, Next(job, s, a))
  {
    hide HandedOnce, BufferExact;
    FitsKept(job, s, a);
    var s' := Next(job, s, a);
    forall i, status | Ended(job, s, i, status)
      ensures Ended(job, s', i, status)
    {
      EndedKept(job, s, a, i, status);
    }
    if a.Finish? {
      FinishEnds(job, s, a.w);
    }
  }

  lemma FinishEnds(job: Job, s: State, w: nat)
    requires HandedOnce(job, s) && BufferExact(job, s) && Enabled(job, s, Finish(w))
    ensures var i := s.pcs[w].block; var s' := Next(job, s, Finish(w));
            Ended(job, s', i, job.Of(i).status) && s'.pcs[w] == AfterRun(i, job.Of(i).status)
  {
    FitsKept(job, s, Finish(w));
    var i := s.pcs[w].block;
    assert job.f(i, job.spans[i].0, s.pcs[w].span) == job.Of(i);
  }

  lemma SlotsCompleteKept(job: Job, s: State, a: Step)
    requires HandedOnce(job, s) && BufferExact(job, s) && SlotsComplete(job, s) && Enabled(job, s, a)
    ensures SlotsComplete(job, Next(job, s, a))
  {
    hide HandedOnce, BufferExact;
    FitsKept(job, s, a);
    var s' := Next(job, s, a);
    if a.Finish? {
      FinishEnds(job, s, a.w);
    }
    forall i, status | Ended(job, s', i, status) && status != Success
      ensures (if status.Panic? then s'.firstPanic.Some? else s'.firstErr.Some?) || Recording(s', status.Panic?)
    {
      EndedBefore(job, s, a, i, status);
      if Ended(job, s, i, status) {
        RecordingKept(job, s, a, status.Panic?);
      } else {
        assert s'.pcs[a.w] == AfterRun(i, status);
      }
    }
  }

  lemma RecordingKept(job: Job, s: State, a: Step, panic: bool)
    requires Fits(job, s) && Enabled(job, s, a)
    requires (if panic then s.firstPanic.Some? else s.firstErr.Some?) || Recording(s, panic)
    ensures var s' := Next(job, s, a);
            (if panic then s'.firstPanic.Some? else s'.firstErr.Some?) || Recording(s', panic)
  {
    var s' := Next(job, s, a);
    if Recording(s, panic) {
      var w :| 0 <= w < |s.pcs| && if panic then s.pcs[w].Panicking? else s.pcs[w].Failing?;
      if w != a.w {
        assert s'.pcs[w] == s.pcs[w];
      }
    }
  }

  /** Every atomic step of every worker keeps the invariant. */
  lemma StepKeepsInv(job: Job, s: State, a: Step)
    requires Inv(job, s) && Enabled(job, s, a)
    ensures Inv(job, Next(job, s, a))
  {
    hide HandedOnce, BufferExact, SlotsSound, SlotsComplete, Enabled, Next;
    HandedOnceKept(job, s, a);
    BufferExactKept(job, s, a);
    SlotsSoundKept(job, s, a);
    SlotsCompleteKept(job, s, a);
  }

  // ----- Whole executions -----

  /** `steps`, of any workers in any order, lead from `s` to `s'`. */
  ghost predicate Execution(job: Job, s: State, steps: seq<Step>, s': State)
    decreases |steps|
  {
    if steps == [] then s == s'
    else Fits(job, s) && Enabled(job, s, steps[0]) && Execution(job, Next(job, s, steps[0]), steps[1..], s')
  }

  lemma {:induction false} ExecutionKeepsInv(job: Job, s: State, steps: seq<Step>, s': State)
    requires Inv(job, s) && Execution(job, s, steps, s')
    ensures Inv(job, s') && |s'.pcs| == |s.pcs|
    decreases |steps|
  {
    hide Inv;
    if steps != [] {
      StepKeepsInv(job, s, steps[0]);
      ExecutionKeepsInv(job, Next(job, s, steps[0]), steps[1..], s');
    }
  }

  /** All workers have left. */
  predicate Over(s: State) {
    |s.pcs| > 0 && forall w :: 0 <= w < |s.pcs| ==> s.pcs[w].Exited?
  }

  /** A panic is re-raised before an error is returned. */
  function Result(s: State): Status {
    if s.firstPanic.Some? then Panic else if s.firstErr.Some? then Failure(s.firstErr.value) else Success
  }

  ghost predicate AllSucceed(job: Job)
    requires job.Valid()
  {
    forall i :: 0 <= i < |job.spans| ==> job.Of(i).status == Success
  }

  /** Every span holds its block's result and nothing else has changed. */
  ghost predicate Complete(job: Job, buf: seq<byte>)
    requires job.Valid()
  {
    && |buf| == |job.buf|
    && (forall i :: 0 <= i < |job.spans| ==> Piece(job, buf, i) == job.Of(i).out)
    && (forall k :: 0 <= k < |buf| && Uncovered(job.spans, k) ==> buf[k] == job.buf[k])
  }

  /** Every span holds its block's result or is untouched, and nothing else has changed. */
  ghost predicate Partial(job: Job, buf: seq<byte>)
    requires job.Valid()
  {
    && |buf| == |job.buf|
    && (forall i :: 0 <= i < |job.spans| ==>
          Piece(job, buf, i) == job.Of(i).out || Piece(job, buf, i) == Piece(job, job.buf, i))
    && (forall k :: 0 <= k < |buf| && Uncovered(job.spans, k) ==> buf[k] == job.buf[k])
  }

  lemma OverPartial(job: Job, s: State)
    requires Inv(job, s) && Over(s)
    ensures Partial(job, s.buf)
  {
    hide Uncovered;
    forall i | 0 <= i < |job.spans|
      ensures Piece(job, s.buf, i) == job.Of(i).out || Piece(job, s.buf, i) == Piece(job, job.buf, i)
    {
      assert !Held(s, i);
    }
  }

  lemma CompleteIsUnique(job: Job, a: seq<byte>, b: seq<byte>)
    requires job.Valid() && Complete(job, a) && Complete(job, b)
    ensures a == b
  {
    forall k | 0 <= k < |a|
      ensures a[k] == b[k]
    {
      if !Uncovered(job.spans, k) {
        var i :| 0 <= i < |job.spans| && job.spans[i].0 <= k < job.spans[i].1;
        assert a[k] == Piece(job, a, i)[k - job.spans[i].0] && b[k] == Piece(job, b, i)[k - job.spans[i].0];
      }
    }
  }

  /** When the workers have left without an error, every block has run and succeeded. */
  lemma OverWithoutFailure(job: Job, s: State)
    requires Inv(job, s) && Over(s) && s.firstErr.None? && s.firstPanic.None?
    ensures forall i :: 0 <= i < |job.spans| ==> s.runs[i] == 1 && job.Of(i).status == Success
  {
    assert s.pcs[0].Exited?;
    forall i | 0 <= i < |job.spans|
      ensures s.runs[i] == 1 && job.Of(i).status == Success
    {
      assert !Held(s, i) && !Recording(s, true) && !Recording(s, false);
      var status := job.Of(i).status;
      assert Ended(job, s, i, status);
    }
  }

  /**
   However the workers interleave: no block runs twice; the result is success
   exactly when every block succeeds, and then every block has run once and the
   buffer is the one the sequential loop produces; otherwise the result is the
   failure of a block that ran, and a panic wins over an error.
   */
  lemma OverResult(job: Job, s: State)
    requires Inv(job, s) && Over(s)
    ensures forall i :: 0 <= i < |job.spans| ==> s.runs[i] <= 1
    ensures Result(s) == Success <==> AllSucceed(job)
    ensures Result(s) == Success ==> (forall i :: 0 <= i < |job.spans| ==> s.runs[i] == 1) && Complete(job, s.buf)
    ensures Result(s) != Success ==> exists i :: Ended(job, s, i, Result(s))
    ensures forall i :: Ended(job, s, i, Panic) ==> Result(s) == Panic
  {
    if s.firstErr.None? && s.firstPanic.None? {
      OverWithoutFailure(job, s);
    }
    assert !Recording(s, true);
  }

  lemma {:induction false} SequentialCompletes(job: Job, i: nat, buf: seq<byte>)
    requires job.Valid() && AllSucceed(job) && i <= |job.spans| && |buf| == |job.buf|
    requires forall j :: 0 <= j < i ==> Piece(job, buf, j) == job.Of(j).out
    requires forall j :: i <= j < |job.spans| ==> Piece(job, buf, j) == Piece(job, job.buf, j)
    requires forall k :: 0 <= k < |buf| && Uncovered(job.spans, k) ==> buf[k] == job.buf[k]
    ensures var r := Sequential(job, i, buf); r.1 == Success && Complete(job, r.0)
    decreases |job.spans| - i
  {
    hide Uncovered;
    if i < |job.spans| {
      var (s, e) := job.spans[i];
      assert Piece(job, buf, i) == Piece(job, job.buf, i);
      assert job.f(i, s, buf[s..e]) == job.Of(i);
      SplicedPieces(job, buf, i, job.Of(i).out);
      SequentialCompletes(job, i + 1, Splice(buf, s, job.Of(i).out));
    }
  }

  /** When the workers have left, the result and the buffer are those of the sequential loop. */
  lemma OverAgrees(job: Job, s: State)
    requires Inv(job, s) && Over(s)
    ensures |s.runs| == |job.spans| && forall i :: 0 <= i < |job.spans| ==> s.runs[i] <= 1
    ensures Result(s) == Success <==> AllSucceed(job)
    ensures Result(s) == Success ==> Sequential(job, 0, job.buf) == (s.buf, Success) && Complete(job, s.buf)
    ensures Result(s) == Success ==> forall i :: 0 <= i < |job.spans| ==> s.runs[i] == 1
    ensures Result(s) != Success ==> exists i :: Ended(job, s, i, Result(s))
    ensures Partial(job, s.buf)
  {
    hide Complete;
    OverResult(job, s);
    OverPartial(job, s);
    if Result(s) == Success {
      SequentialCompletes(job, 0, job.buf);
      CompleteIsUnique(job, s.buf, Sequential(job, 0, job.buf).0);
    }
  }

  /** The main result: every complete execution agrees with the sequential loop. */
  lemma ParallelIsSequential(job: Job, workers: nat, steps: seq<Step>, s: State)
    requires job.Valid() && workers > 0
    requires Execution(job, Start(job, workers), steps, s) && Over(s)
    ensures Result(s) == Success <==> AllSucceed(job)
    ensures Result(s) == Success ==> Sequential(job, 0, job.buf) == (s.buf, Success)
    ensures |s.runs| == |job.spans| && forall i :: 0 <= i < |job.spans| ==> s.runs[i] <= 1
    ensures Result(s) == Success ==> forall i :: 0 <= i < |job.spans| ==> s.runs[i] == 1
    ensures Result(s) != Success ==> exists i :: Ended(job, s, i, Result(s))
  {
    hide Inv, Over, AllSucceed;
    StartInv(job, workers);
    ExecutionKeepsInv(job, Start(job, workers), steps, s);
    OverAgrees(job, s);
  }

  // ----- Progress -----

  function Rank(pc: Pc): nat {
    match pc
    case Running(_, _) => 5
    case Looping => 4
    case Fetching => 3
    case Failing(_) => 2
    case Panicking(_) => 2
    case Stopping => 1
    case Exited => 0
  }

  function Ranks(pcs: seq<Pc>): nat {
    if pcs == [] then 0 else Rank(pcs[0]) + Ranks(pcs[1..])
  }

  lemma {:induction false} RanksUpdate(pcs: seq<Pc>, w: nat, pc: Pc)
    requires w < |pcs|
    ensures Ranks(pcs[w := pc]) == Ranks(pcs) - Rank(pcs[w]) + Rank(pc)
  {
    if w == 0 {
      assert pcs[0 := pc][1..] == pcs[1..];
    } else {
      RanksUpdate(pcs[1..], w - 1, pc);
      assert pcs[w := pc][1..] == pcs[1..][w - 1 := pc];
    }
  }

  /** The work left: blocks not yet handed out, and how far each worker is from leaving. */
  function Work(job: Job, s: State): int {
    3 * (|job.spans| - s.next) + Ranks(s.pcs)
  }

  /** Every step except a write inside a running block uses up work, so the fan-out ends. */
  lemma StepUsesWork(job: Job, s: State, a: Step)
    requires Fits(job, s) && Enabled(job, s, a) && !a.Scribble?
    ensures Work(job, Next(job, s, a)) < Work(job, s)
    ensures Work(job, s) >= 0
  {
    var s' := Next(job, s, a);
    assert s'.pcs == s.pcs[a.w := s'.pcs[a.w]];
    RanksUpdate(s.pcs, a.w, s'.pcs[a.w]);
  }

  lemma ScribbleKeepsWork(job: Job, s: State, a: Step)
    requires Fits(job, s) && Enabled(job, s, a) && a.Scribble?
    ensures Work(job, Next(job, s, a)) == Work(job, s)
  {
  }

  /** A worker that has not left can always take a step: the fan-out never blocks. */
  lemma NeverBlocks(job: Job, s: State, w: nat)
    requires Fits(job, s) && w < |s.pcs| && !s.pcs[w].Exited?
    ensures exists a :: Enabled(job, s, a) && !a.Scribble? && a.w == w
  {
    var a := match s.pcs[w]
      case Looping => CheckStop(w, false)
      case Fetching => Fetch(w)
      case Running(_, _) => Finish(w)
      case Failing(_) => RecordError(w)
      case Panicking(_) => RecordPanic(w)
      case _ => RaiseStop(w);
    assert Enabled(job, s, a);
  }

  // ----- What a failure does to the rest of a run -----

  /** Workers that have failed or left. */
  predicate Leaving(pc: Pc) {
    pc.Failing? || pc.Panicking? || pc.Stopping? || pc.Exited?
  }

  /** The slots keep the first failure of each kind, and a worker that failed takes no further block. */
  lemma {:induction false} FirstFailureStays(job: Job, s: State, steps: seq<Step>, s': State)
    requires Execution(job, s, steps, s')
    ensures s.firstErr.Some? ==> s'.firstErr == s.firstErr
    ensures s.firstPanic.Some? ==> s'.firstPanic == s.firstPanic
    ensures s.stop ==> s'.stop
    ensures |s'.pcs| == |s.pcs| && forall w :: 0 <= w < |s.pcs| && Leaving(s.pcs[w]) ==> Leaving(s'.pcs[w])
    decreases |steps|
  {
    if steps != [] {
      hide Fits;
      FirstFailureStays(job, Next(job, s, steps[0]), steps[1..], s');
    }
  }

  /** Workers about to take a block. */
  function Fetchers(pcs: seq<Pc>): nat {
    if pcs == [] then 0 else (if pcs[0].Fetching? then 1 else 0) + Fetchers(pcs[1..])
  }

  lemma {:induction false} FetchersUpdate(pcs: seq<Pc>, w: nat, pc: Pc)
    requires w < |pcs|
    ensures Fetchers(pcs[w := pc])
         == Fetchers(pcs) - (if pcs[w].Fetching? then 1 else 0) + (if pc.Fetching? then 1 else 0)
  {
    if w == 0 {
      assert pcs[0 := pc][1..] == pcs[1..];
    } else {
      FetchersUpdate(pcs[1..], w - 1, pc);
      assert pcs[w := pc][1..] == pcs[1..][w - 1 := pc];
    }
  }

  /** Every check of the stop flag sees it raised. */
  predicate Prompt(steps: seq<Step>) {
    forall i :: 0 <= i < |steps| && steps[i].CheckStop? ==> steps[i].seen
  }

  /** Once the flag is raised and seen, only workers already on their way take another block, and one each. */
  lemma {:induction false} StopIsObeyed(job: Job, s: State, steps: seq<Step>, s': State)
    requires s.stop && Prompt(steps) && Execution(job, s, steps, s')
    ensures s'.next + Fetchers(s'.pcs) <= s.next + Fetchers(s.pcs)
    decreases |steps|
  {
    if steps != [] {
      hide Fits;
      var a, after := steps[0], Next(job, s, steps[0]);
      assert after.pcs == s.pcs[a.w := after.pcs[a.w]];
      FetchersUpdate(s.pcs, a.w, after.pcs[a.w]);
      StopIsObeyed(job, after, steps[1..], s');
    }
  }

  // ----- The fan-out -----

  /** Overlapping or out-of-range spans: every block gets the whole buffer, with base 0. */
  function WholeBuffer(f: Block, n: nat, i: nat, buf: seq<byte>): (r: (seq<byte>, Status))
    requires i <= n
    decreases n - i
  {
    if i == n then (buf, Success)
    else
      var r := f(i, 0, buf);
      if r.status != Success then (r.out, r.status) else WholeBuffer(f, n, i + 1, r.out)
  }

  method Overwrite(buf: array<byte>, at: nat, bytes: seq<byte>)
    requires at + |bytes| <= buf.Length
    modifies buf
    ensures buf[..] == Splice(old(buf[..]), at, bytes)
  {
    forall k | 0 <= k < |bytes| {
      buf[at + k] := bytes[k];
    }
  }

  method RunWholeBuffer(buf: array<byte>, n: nat, f: Block) returns (r: Status)
    requires KeepsLength(f)
    modifies buf
    ensures (buf[..], r) == WholeBuffer(f, n, 0, old(buf[..]))
  {
    for i := 0 to n
      invariant WholeBuffer(f, n, i, buf[..]) == WholeBuffer(f, n, 0, old(buf[..]))
    {
      var b := f(i, 0, buf[..]);
      Overwrite(buf, 0, b.out);
      assert buf[..] == b.out;
      if b.status != Success {
        return b.status;
      }
    }
    return Success;
  }

  method RunSequential(buf: array<byte>, spans: seq<Span>, pieces: seq<(nat, nat)>, f: Block) returns (r: Status)
    requires KeepsLength(f) && InBounds(spans, buf.Length) && |pieces| == |spans|
    requires forall i :: 0 <= i < |spans| ==> pieces[i] == (spans[i].0, spans[i].1 - spans[i].0)
    modifies buf
    ensures (buf[..], r) == Sequential(Job(old(buf[..]), spans, f), 0, old(buf[..]))
  {
    ghost var job := Job(buf[..], spans, f);
    for i := 0 to |spans|
      invariant Sequential(job, i, buf[..]) == Sequential(job, 0, job.buf)
    {
      var (at, len) := pieces[i];
      var b := f(i, spans[i].0, buf[at..at + len]);
      assert buf[..][spans[i].0..spans[i].1] == buf[at..at + len];
      Overwrite(buf, at, b.out);
      if b.status != Success {
        return b.status;
      }
    }
    return Success;
  }

  /** One block, on the span its worker owns. */
  method RunBlock(buf: array<byte>, spans: seq<Span>, i: nat, span: seq<byte>, f: Block) returns (status: Status)
    requires KeepsLength(f) && i < |spans| && InBounds(spans, buf.Length) && |span| == spans[i].1 - spans[i].0
    modifies buf
    ensures var b := f(i, spans[i].0, span); buf[..] == Splice(old(buf[..]), spans[i].0, b.out) && status == b.status
  {
    var b := f(i, spans[i].0, span);
    Overwrite(buf, spans[i].0, b.out);
    status := b.status;
  }

  lemma InvFits(job: Job, s: State)
    requires Inv(job, s)
    ensures Fits(job, s) && forall w :: 0 <= w < |s.pcs| && s.pcs[w].Running? ==> s.runs[s.pcs[w].block] == 0
  {
  }

  /**
   One atomic step of worker `w` on the buffer and the shared iterator, flag and
   slots in `s`. The bytes are in the array, so `s` itself carries none. A block
   that is running may write `partial` into its span before it finishes.
   */
  method TakeStep(buf: array<byte>, pieces: seq<(nat, nat)>, ghost job: Job, f: Block, spans: seq<Span>, w: nat,
                  s: State, partial: Option<seq<byte>>, ghost runs: seq<nat>)
    returns (next: State, ghost step: Step)
    requires job.spans == spans && job.f == f && |pieces| == |spans|
    requires forall i :: 0 <= i < |spans| ==> pieces[i].0 == spans[i].0 && pieces[i].0 + pieces[i].1 == spans[i].1
    requires s.buf == [] && s.runs == [] && Fits(job, s.(buf := buf[..], runs := runs)) && w < |s.pcs|
             && !s.pcs[w].Exited?
    modifies buf
    ensures Enabled(job, s.(buf := old(buf[..]), runs := runs), step) && (step.Scribble? ==> partial.Some?)
    ensures next.buf == [] && next.runs == [] && |next.pcs| == |s.pcs|
    ensures var after := Next(job, s.(buf := old(buf[..]), runs := runs), step);
            next.(buf := buf[..], runs := after.runs) == after
  {
    hide Splice;
    next := s;
    match s.pcs[w] {
      case Looping =>
        var upToDate: bool := *;
        var seen := s.stop && upToDate;
        step := CheckStop(w, seen);
        next := s.(pcs := s.pcs[w := if seen then Exited else Fetching]);
      case Fetching =>
        step := Fetch(w);
        if s.next < |spans| {
          var (at, len) := pieces[s.next];
          assert buf[at..at + len] == Piece(job, buf[..], s.next);
          next := s.(next := s.next + 1, pcs := s.pcs[w := Running(s.next, buf[at..at + len])]);
        } else {
          next := s.(pcs := s.pcs[w := Exited]);
        }
      case Running(i, span) =>
        if partial.Some? && |partial.value| == |span| {
          step := Scribble(w, partial.value);
          Overwrite(buf, spans[i].0, partial.value);
        } else {
          step := Finish(w);
          var status := RunBlock(buf, spans, i, span, f);
          next := s.(pcs := s.pcs[w := AfterRun(i, status)]);
        }
      case Failing(e) =>
        step := RecordError(w);
        if s.firstErr == None {
          next := s.(firstErr := Some(e), pcs := s.pcs[w := Stopping]);
        } else {
          next := s.(pcs := s.pcs[w := Stopping]);
        }
      case Panicking(i) =>
        step := RecordPanic(w);
        if s.firstPanic == None {
          next := s.(firstPanic := Some(i), pcs := s.pcs[w := Stopping]);
        } else {
          next := s.(pcs := s.pcs[w := Stopping]);
        }
      case Stopping =>
        step := RaiseStop(w);
        next := s.(stop := true, pcs := s.pcs[w := Exited]);
    }
  }

  /**
   The workers, scheduled arbitrarily one atomic step at a time; the run ends
   when all have left. `partials` are what running blocks write into their
   spans before they finish, at any time and by any worker.
   */
  method RunWorkers(buf: array<byte>, pieces: seq<(nat, nat)>, workers: nat, ghost job: Job, f: Block, spans: seq<Span>,
                    partials: seq<seq<byte>>)
    returns (r: Status)
    requires job == Job(buf[..], spans, f) && job.Valid() && workers > 0 && |pieces| == |spans|
    requires forall i :: 0 <= i < |spans| ==> pieces[i] == (spans[i].0, spans[i].1 - spans[i].0)
    modifies buf
    ensures r == Success <==> AllSucceed(job)
    ensures r == Success ==> (buf[..], r) == Sequential(job, 0, job.buf) && Complete(job, buf[..])
    ensures r != Success ==> exists i :: 0 <= i < |spans| && job.Of(i).status == r
    ensures Partial(job, buf[..])
  {
    hide Inv, AllSucceed, Complete, Partial, Fits, Next, Enabled, Work;
    var s := State([], 0, false, None, None, seq(workers, _ => Looping), []);
    var left := partials;
    ghost var st := Start(job, workers);
    StartInv(job, workers);
    while exists w :: 0 <= w < |s.pcs| && !s.pcs[w].Exited?
      invariant s.buf == [] && s.runs == [] && st == s.(buf := buf[..], runs := st.runs)
      invariant Inv(job, st) && |s.pcs| == workers
      decreases Work(job, st), |left|
    {
      var w :| 0 <= w < |s.pcs| && !s.pcs[w].Exited?;
      InvFits(job, st);
      var now: bool := *;
      var partial := None;
      if left != [] && now {
        partial, left := Some(left[0]), left[1..];
      }
      ghost var step;
      s, step := TakeStep(buf, pieces, job, f, spans, w, s, partial, st.runs);
      StepKeepsInv(job, st, step);
      if step.Scribble? {
        ScribbleKeepsWork(job, st, step);
      } else {
        StepUsesWork(job, st, step);
      }
      st := Next(job, st, step);
    }
    OverAgrees(job, st);
    r := if s.firstPanic.Some? then Panic else if s.firstErr.Some? then Failure(s.firstErr.value) else Success;
  }

  /** Too few blocks, or no threads to spare. */
  predicate OneWorker(n: nat, minPerThread: nat, cap: nat) {
    cap <= 1 || n < 2 || n < 2 * minPerThread
  }

  lemma Quotient(n: nat, per: nat)
    requires per > 0
    ensures n / per * per <= n < (n / per + 1) * per
    ensures n / per <= n && (n >= 2 * per ==> n / per >= 2)
  {
    assert n == n / per * per + n % per;
    if n / per > n {
      AtLeast(n / per, per);
    }
    if n >= 2 * per && n / per < 2 {
      AtMostOne(n / per, per);
    }
  }

  lemma AtLeast(q: nat, per: nat)
    requires per > 0
    ensures q * per >= q
  {
  }

  lemma AtMostOne(q: nat, per: nat)
    requires q < 2
    ensures q * per <= per
  {
    assert q == 0 || q == 1;
  }

  lemma FewerFit(a: nat, b: nat, per: nat)
    requires a <= b
    ensures a * per <= b * per
  {
  }

  /** How many workers to start: at most `cap`, and each with `minPerThread` blocks to do. */
  function Workers(n: nat, minPerThread: nat, cap: nat): (r: nat)
    ensures 1 <= r && (r == 1 <==> OneWorker(n, minPerThread, cap))
    ensures r > 1 ==> r <= n && r <= cap && r * (if minPerThread > 1 then minPerThread else 1) <= n
    ensures 1 < r < cap ==> n < (r + 1) * (if minPerThread > 1 then minPerThread else 1)
  {
    var per := if minPerThread > 1 then minPerThread else 1;
    Quotient(n, per);
    var most := n / per;
    if cap > 1 && n >= 2 * per then
      FewerFit(if cap < most then cap else most, most, per);
      if cap < most then cap else most
    else 1
  }

  /**
   The whole fan-out. With separate in-range spans every scheduling gives what
   the sequential loop gives; otherwise the blocks run one after the other on
   the whole buffer.
   */
  method ParallelFor(buf: array<byte>, spans: seq<Span>, minPerThread: nat, cap: nat, f: Block,
                     partials: seq<seq<byte>>)
    returns (r: Status)
    requires KeepsLength(f)
    modifies buf
    ensures var job := Job(old(buf[..]), spans, f);
            if InBounds(spans, buf.Length) && AllSeparate(spans) then
              && (r == Success <==> AllSucceed(job))
              && (r == Success ==> Complete(job, buf[..]) && buf[..] == Sequential(job, 0, job.buf).0)
              && (r != Success ==> exists i :: 0 <= i < |spans| && job.Of(i).status == r)
              && Partial(job, buf[..])
              && (r != Success && OneWorker(|spans|, minPerThread, cap) ==> exists k :: StoppedAt(job, buf[..], k, r))
            else
              exists bufs :: InTurn(f, |spans|, bufs, r) && bufs[0] == old(buf[..]) && bufs[|bufs| - 1] == buf[..]
  {
    ghost var job := Job(buf[..], spans, f);
    if |spans| == 0 {
      assert Sequential(job, 0, job.buf) == (job.buf, Success);
      return Success;
    }
    var disjoint, order := false, [];
    if InBounds(spans, buf.Length) {
      disjoint, order := SpansDisjoint(spans, buf.Length);
    }
    if !disjoint {
      WholeBufferInTurn(f, |spans|, [buf[..]]);
      r := RunWholeBuffer(buf, |spans|, f);
      return;
    }
    var pieces := Carve(spans, order, buf.Length);
    var workers := Workers(|spans|, minPerThread, cap);
    if workers <= 1 {
      r := RunSequential(buf, spans, pieces, f);
      SequentialStops(job, 0, job.buf);
    } else {
      r := RunWorkers(buf, pieces, workers, job, f, spans, partials);
    }
  }

  /**
   One block after the other up to block `k`, which fails: the blocks before it
   have succeeded, all of them and block `k` have written their results, and
   nothing behind them has been touched.
   */
  ghost predicate StoppedAt(job: Job, buf: seq<byte>, k: nat, r: Status)
    requires job.Valid()
  {
    && k < |job.spans| && r != Success && job.Of(k).status == r && |buf| == |job.buf|
    && (forall i :: 0 <= i < k ==> job.Of(i).status == Success)
    && (forall i :: 0 <= i <= k ==> Piece(job, buf, i) == job.Of(i).out)
    && (forall i :: k < i < |job.spans| ==> Piece(job, buf, i) == Piece(job, job.buf, i))
    && (forall j :: 0 <= j < |buf| && Uncovered(job.spans, j) ==> buf[j] == job.buf[j])
  }

  /** The sequential loop succeeds exactly when every block does, and otherwise stops at the first that fails. */
  lemma {:induction false} SequentialStops(job: Job, i: nat, buf: seq<byte>)
    requires job.Valid() && i <= |job.spans| && |buf| == |job.buf|
    requires forall j :: 0 <= j < i ==> job.Of(j).status == Success && Piece(job, buf, j) == job.Of(j).out
    requires forall j :: i <= j < |job.spans| ==> Piece(job, buf, j) == Piece(job, job.buf, j)
    requires forall k :: 0 <= k < |buf| && Uncovered(job.spans, k) ==> buf[k] == job.buf[k]
    ensures var r := Sequential(job, i, buf);
            && (r.1 == Success <==> AllSucceed(job))
            && (r.1 == Success ==> Complete(job, r.0))
            && (r.1 != Success ==> exists k :: StoppedAt(job, r.0, k, r.1))
            && Partial(job, r.0)
    decreases |job.spans| - i
  {
    hide Uncovered;
    if i < |job.spans| {
      var (s, e) := job.spans[i];
      assert Piece(job, buf, i) == Piece(job, job.buf, i);
      assert job.f(i, s, buf[s..e]) == job.Of(i);
      SplicedPieces(job, buf, i, job.Of(i).out);
      var buf' := Splice(buf, s, job.Of(i).out);
      if job.Of(i).status == Success {
        SequentialStops(job, i + 1, buf');
      } else {
        assert StoppedAt(job, buf', i, job.Of(i).status);
      }
    }
  }

  /**
   Blocks that get the whole buffer in turn: each sees what the one before it
   left, all but the last succeed, and if the last does not, it ends the run.
   */
  ghost predicate InTurn(f: Block, n: nat, bufs: seq<seq<byte>>, r: Status) {
    && 1 <= |bufs| <= n + 1 && (r == Success ==> |bufs| == n + 1) && (r != Success ==> |bufs| > 1)
    && forall i :: 0 <= i < |bufs| - 1 ==>
         f(i, 0, bufs[i]) == BlockResult(bufs[i + 1], if i == |bufs| - 2 then r else Success)
  }

  lemma {:induction false} WholeBufferInTurn(f: Block, n: nat, bufs: seq<seq<byte>>)
    requires 1 <= |bufs| <= n + 1
    requires forall i :: 0 <= i < |bufs| - 1 ==> f(i, 0, bufs[i]) == BlockResult(bufs[i + 1], Success)
    ensures var r := WholeBuffer(f, n, |bufs| - 1, bufs[|bufs| - 1]);
            exists all :: InTurn(f, n, all, r.1) && all[0] == bufs[0] && all[|all| - 1] == r.0
    decreases n - |bufs|
  {
    var k := |bufs| - 1;
    if k == n {
      assert InTurn(f, n, bufs, Success);
    } else {
      var b := f(k, 0, bufs[k]);
      var more := bufs + [b.out];
      if b.status == Success {
        WholeBufferInTurn(f, n, more);
      } else {
        assert InTurn(f, n, more, b.status);
      }
    }
  }
}
