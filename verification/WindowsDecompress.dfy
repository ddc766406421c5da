/**
 The two Windows Huffman/LZ decompressors: one reads its table inside the
 buffer it writes, the other reads a snapshot of that table.

 `Run` is the decompression as a function of the buffer contents; both methods
 compute it, and the lemmas are about it.
 */
module WindowsDecompress {
  import opened Bytes
  import opened HuffmanTable
  import opened Wrappers

  /**
   `LeftTable` is a walk that leaves its table: the in-place decompressor
   panics, the one with a snapshot just fails. `Fault` is a source or output
   byte outside the buffer, on which both panic.
   */
  datatype Outcome = Done | Failed(failure: Failure) | LeftTable | Fault

  /** The buffer when the run stops, and how many output bytes it holds. */
  datatype Ended = Ended(mem: seq<byte>, written: nat, outcome: Outcome)

  /** `Overrun` leaves everything up to the end of the buffer written. */
  datatype Emitted = Emitted(mem: seq<byte>, step: nat, pending: nat) | Rejected(failure: Failure)
                   | Overrun(mem: seq<byte>)

  /** `n` bytes from `at` on repeat the `w` bytes before `at`. */
  function Filled(mem: seq<byte>, at: nat, w: nat, n: nat): (r: seq<byte>)
    requires 0 < w <= at && at + n <= |mem|
    ensures |r| == |mem|
    ensures forall i {:trigger r[i]} :: 0 <= i < |mem| ==>
            r[i] == if at <= i < at + n then mem[at - w + (i - at) % w] else mem[i]
  {
    seq(|mem|, i requires 0 <= i < |mem| => if at <= i < at + n then mem[at - w + (i - at) % w] else mem[i])
  }

  /** `n` bytes from `at` on copy the `n` bytes starting `back` bytes earlier. */
  function Copied(mem: seq<byte>, at: nat, back: nat, n: nat): (r: seq<byte>)
    requires n <= back <= at && at + n <= |mem|
    ensures |r| == |mem|
    ensures forall i {:trigger r[i]} :: 0 <= i < |mem| ==> r[i] == if at <= i < at + n then mem[i - back] else mem[i]
  {
    mem[..at] + mem[at - back..at - back + n] + mem[at + n..]
  }

  /** One decoded symbol: a literal, a length prefix, a run fill or a back-reference. */
  function Emit(mem: seq<byte>, at: nat, written: nat, dSize: nat, pending: nat, sym: nat): (e: Emitted)
    requires written <= at && written < dSize
    ensures e.Emitted? ==> |e.mem| == |mem| && written + e.step <= dSize && (e.step == 0 || at + e.step <= |mem|)
    ensures e.Emitted? ==> forall i :: 0 <= i < |mem| && !(at <= i < at + e.step) ==> e.mem[i] == mem[i]
    ensures e.Overrun? ==> |e.mem| == |mem| < at + (dSize - written)
    ensures e.Overrun? ==> forall i :: 0 <= i < |mem| && i < at ==> e.mem[i] == mem[i]
    ensures pending < 0x1_0000 && e.Emitted? ==> e.pending < 0x1_0000
  {
    var payload := sym % 256;
    match (sym / 256) % 4
    case 0 => if at >= |mem| then Overrun(mem) else Emitted(mem[at := payload], 1, pending)
    case 1 =>
      if pending >= 256 then Rejected(PendingLengthOverflow(pending))
      else Emitted(mem, 0, if pending == 0 then payload else 256 * pending + payload)
    case 2 =>
      var count := if pending == 0 then 1 else pending;
      if count * payload + written > dSize then Rejected(OutputOverflow(written, count * payload, dSize))
      else if payload != 1 && payload != 2 && payload != 4 then Rejected(InvalidRunFillWidth(payload))
      else if at < payload then Rejected(RunFillBeforeOutput(payload, at))
      else if at > |mem| then Overrun(mem)
      else if at + count * payload > |mem| then Overrun(Filled(mem, at, payload, |mem| - at))
      else Emitted(Filled(mem, at, payload, count * payload), count * payload, 0)
    case _ =>
      var back := pending + payload;
      if back > written then Rejected(InvalidBackReference(back, written))
      else if written + payload > dSize then Rejected(OutputOverflow(written, payload, dSize))
      else if payload == 0 then Emitted(mem, 0, 0)
      else if at > |mem| then Overrun(mem)
      else if at + payload > |mem| then Overrun(Copied(mem, at, back, |mem| - at))
      else Emitted(Copied(mem, at, back, payload), payload, 0)
  }

  /** The look-ahead at bit `pos`: a 32-bit word of the zero-padded source, shifted to the bit. */
  function Word(src: seq<byte>, pos: nat): (w: nat)
    requires pos / 8 < |src|
    ensures w < TWO_32
  {
    var o := pos / 8;
    var padded := src + [0, 0, 0];
    ValBound(padded[o..o + 4]);
    ShrAtMost(Val(padded[o..o + 4]), pos % 8);
    Pow2Words();
    Shr(Val(padded[o..o + 4]), pos % 8)
  }

  /**
   The whole decompression from bit `pos` of the source, with `written` of the
   `dSize` bytes at `dest` already produced. It terminates on every table and
   stream: source bits left plus output bytes left shrink at every symbol.
   */
  function Run(t: Table, src: seq<byte>, dest: nat, dSize: nat, mem: seq<byte>, pos: nat, written: nat, pending: nat)
    : (r: Ended)
    requires written <= dSize
    decreases 8 * |src| - pos + (dSize - written)
  {
    if pos / 8 < |src| && written < dSize then
      match ReadCode(t, mem, Word(src, pos))
      case OutOfTable => Ended(mem, written, LeftTable)
      case NoCode(failure) => Ended(mem, written, Failed(failure))
      case Code(sym, bits) =>
        match Emit(mem, dest + written, written, dSize, pending, sym)
        case Rejected(failure) => Ended(mem, written, Failed(failure))
        case Overrun(mem') => Ended(mem', written, Fault)
        case Emitted(mem', step, pending') =>
          if bits == 0 && step == 0 then Ended(mem', written + step, Failed(NoProgress))
          else Run(t, src, dest, dSize, mem', pos + bits, written + step, pending')
    else if written != dSize then
      Ended(mem, written, Failed(OutputSizeMismatch(written, dSize, (pos + 7) / 8, |src|)))
    else
      Ended(mem, written, Done)
  }

  /** What either decompressor does to `mem`. */
  function Decompress(t: Table, mem: seq<byte>, src: nat, dest: nat, sSize: nat, dSize: nat): Ended {
    if sSize > MAX_IMAGE_SIZE then Ended(mem, 0, Failed(SourceTooLarge(sSize, MAX_IMAGE_SIZE)))
    else if src + sSize > |mem| then Ended(mem, 0, Fault)
    else Run(t, mem[src..src + sSize], dest, dSize, mem, 0, 0, 0)
  }

  // ----- What a run changes -----

  /** Only bytes from `lo` up to `hi` differ. */
  predicate Unchanged(mem: seq<byte>, mem': seq<byte>, lo: nat, hi: nat) {
    |mem'| == |mem| && forall i :: 0 <= i < |mem| && !(lo <= i < hi) ==> mem'[i] == mem[i]
  }

  lemma EmitFrame(mem: seq<byte>, dest: nat, written: nat, dSize: nat, pending: nat, sym: nat)
    requires written < dSize
    ensures match Emit(mem, dest + written, written, dSize, pending, sym)
            case Emitted(mem', step, _) =>
              written + step <= dSize && Unchanged(mem, mem', dest + written, dest + written + step)
            case Rejected(_) => true
            case Overrun(mem') => |mem| < dest + dSize && Unchanged(mem, mem', dest + written, dest + dSize)
  {
    hide Filled, Copied;
  }

  /**
   Only the output region changed, success means a complete output, and unless
   the run went off the end of the buffer, which takes a region that does,
   exactly the reported prefix changed.
   */
  predicate Framed(mem: seq<byte>, r: Ended, dest: nat, written: nat, dSize: nat) {
    && |r.mem| == |mem| && written <= r.written <= dSize
    && (r.outcome.Done? <==> r.written == dSize)
    && (r.outcome.Fault? ==> |mem| < dest + dSize)
    && Unchanged(mem, r.mem, dest + written, dest + dSize)
    && (!r.outcome.Fault? ==> Unchanged(mem, r.mem, dest + written, dest + r.written))
  }

  lemma StoppedFramed(mem: seq<byte>, dest: nat, written: nat, dSize: nat, outcome: Outcome)
    requires written <= dSize && !outcome.Fault? && (outcome.Done? <==> written == dSize)
    ensures Framed(mem, Ended(mem, written, outcome), dest, written, dSize)
  {
  }

  lemma EmittedFramed(mem: seq<byte>, mem': seq<byte>, r: Ended, dest: nat, written: nat, step: nat, dSize: nat)
    requires Unchanged(mem, mem', dest + written, dest + written + step) && Framed(mem', r, dest, written + step, dSize)
    ensures Framed(mem, r, dest, written, dSize)
  {
  }

  lemma OverrunFramed(mem: seq<byte>, mem': seq<byte>, dest: nat, written: nat, dSize: nat)
    requires Unchanged(mem, mem', dest + written, dest + dSize) && written < dSize && |mem| < dest + dSize
    ensures Framed(mem, Ended(mem', written, Fault), dest, written, dSize)
  {
  }

  /** Every run is framed, for every table, stream and starting point. */
  lemma {:induction false} RunFrame(t: Table, src: seq<byte>, dest: nat, dSize: nat, mem: seq<byte>,
                                    pos: nat, written: nat, pending: nat)
    requires written <= dSize
    ensures Framed(mem, Run(t, src, dest, dSize, mem, pos, written, pending), dest, written, dSize)
    decreases 8 * |src| - pos + (dSize - written)
  {
    hide Emit, ReadCode, Word, Unchanged, Framed;
    var r := Run(t, src, dest, dSize, mem, pos, written, pending);
    if pos / 8 >= |src| || written >= dSize {
      StoppedFramed(mem, dest, written, dSize, r.outcome);
    } else {
      var c := ReadCode(t, mem, Word(src, pos));
      if !c.Code? {
        StoppedFramed(mem, dest, written, dSize, r.outcome);
      } else {
        EmitFrame(mem, dest, written, dSize, pending, c.sym);
        match Emit(mem, dest + written, written, dSize, pending, c.sym) {
          case Rejected(failure) => StoppedFramed(mem, dest, written, dSize, Failed(failure));
          case Overrun(mem') => OverrunFramed(mem, mem', dest, written, dSize);
          case Emitted(mem', step, pending') =>
            if c.bits == 0 && step == 0 {
              StoppedFramed(mem', dest, written, dSize, Failed(NoProgress));
            } else {
              RunFrame(t, src, dest, dSize, mem', pos + c.bits, written + step, pending');
            }
            EmittedFramed(mem, mem', r, dest, written, step, dSize);
        }
      }
    }
  }

  // ----- The snapshot decompressor refines the in-place one -----

  /** The output region and the in-place table do not meet. */
  ghost predicate Apart(key: nat, size: nat, dest: nat, dSize: nat) {
    dest + dSize <= key || key + size <= dest
  }

  lemma WriteKeepsSnapshot(tab: seq<byte>, mem: seq<byte>, mem': seq<byte>, key: nat, lo: nat, hi: nat)
    requires SnapshotOf(tab, mem, key) && Unchanged(mem, mem', lo, hi)
    requires hi <= key || key + |tab| <= lo
    ensures SnapshotOf(tab, mem', key)
  {
    var end := key + |tab|;
    assert mem'[key..end] == tab by {
      assert forall i :: key <= i < end ==> mem'[i] == mem[i];
      assert mem'[key..end] == mem[key..end];
    }
    var s :| ClosedUnder(mem, key, end, s);
    forall i | i in s
      ensures ChildrenIn(mem', key, i, s)
    {
      assert ChildrenIn(mem, key, i, s);
    }
    assert ClosedUnder(mem', key, end, s);
  }

  /**
   As long as the table is not overwritten, reading it in place or from its
   snapshot makes no difference: same bytes, same result, same failure, and no
   walk ever leaves the table.
   */
  lemma {:induction false} RunOnSnapshot(tab: seq<byte>, key: nat, src: seq<byte>, dest: nat, dSize: nat,
                                         mem: seq<byte>, pos: nat, written: nat, pending: nat)
    requires SnapshotOf(tab, mem, key) && Apart(key, |tab|, dest, dSize) && written <= dSize
    ensures var r := Run(InPlace(key), src, dest, dSize, mem, pos, written, pending);
            r == Run(Snapshot(tab), src, dest, dSize, mem, pos, written, pending) && !r.outcome.LeftTable?
    decreases 8 * |src| - pos + (dSize - written)
  {
    hide Emit, ReadCode, Word, SnapshotOf, Unchanged, Run;
    if pos / 8 >= |src| || written >= dSize {
      SameStop(InPlace(key), Snapshot(tab), src, dest, dSize, mem, pos, written, pending);
    } else {
      CodesAgree(tab, mem, key, Word(src, pos));
      SameTurn(InPlace(key), Snapshot(tab), src, dest, dSize, mem, pos, written, pending);
      var c := ReadCode(InPlace(key), mem, Word(src, pos));
      if c.Code? {
        var e := Emit(mem, dest + written, written, dSize, pending, c.sym);
        if e.Emitted? && (c.bits != 0 || e.step != 0) {
          EmitFrame(mem, dest, written, dSize, pending, c.sym);
          WriteKeepsSnapshot(tab, mem, e.mem, key, dest + written, dest + written + e.step);
          RunOnSnapshot(tab, key, src, dest, dSize, e.mem, pos + c.bits, written + e.step, e.pending);
        }
      }
    }
  }

  lemma SameStop(t: Table, u: Table, src: seq<byte>, dest: nat, dSize: nat, mem: seq<byte>, pos: nat, written: nat,
                 pending: nat)
    requires written <= dSize && (pos / 8 >= |src| || written >= dSize)
    ensures var r := Run(t, src, dest, dSize, mem, pos, written, pending);
            r == Run(u, src, dest, dSize, mem, pos, written, pending) && !r.outcome.LeftTable?
  {
  }

  /** Two tables that give the same code lead to the same run, if the runs after it are the same. */
  lemma SameTurn(t: Table, u: Table, src: seq<byte>, dest: nat, dSize: nat, mem: seq<byte>, pos: nat, written: nat,
                 pending: nat)
    requires pos / 8 < |src| && written < dSize
    requires var word := Word(src, pos);
             ReadCode(t, mem, word) == ReadCode(u, mem, word) && !ReadCode(t, mem, word).OutOfTable?
    ensures var c := ReadCode(t, mem, Word(src, pos));
            var r := Run(t, src, dest, dSize, mem, pos, written, pending);
            var same := r == Run(u, src, dest, dSize, mem, pos, written, pending) && !r.outcome.LeftTable?;
            if c.Code? && Emit(mem, dest + written, written, dSize, pending, c.sym).Emitted?
               && (c.bits != 0 || Emit(mem, dest + written, written, dSize, pending, c.sym).step != 0)
            then
              var e := Emit(mem, dest + written, written, dSize, pending, c.sym);
              var r' := Run(t, src, dest, dSize, e.mem, pos + c.bits, written + e.step, e.pending);
              var u' := Run(u, src, dest, dSize, e.mem, pos + c.bits, written + e.step, e.pending);
              r' == u' && !r'.outcome.LeftTable? ==> same
            else same
  {
    hide Emit, ReadCode, Word;
  }

  /** The refinement for whole calls: any snapshot taken from the image can replace the table in the image. */
  lemma SnapshotRefines(tab: seq<byte>, mem: seq<byte>, key: nat, src: nat, dest: nat, sSize: nat, dSize: nat)
    requires IsSnapshot(mem, key, Some(tab)) && |mem| <= MAX_IMAGE_SIZE
    requires Apart(key, |tab|, dest, dSize)
    ensures Decompress(Snapshot(tab), mem, src, dest, sSize, dSize)
            == Decompress(InPlace(key), mem, src, dest, sSize, dSize)
    ensures !Decompress(InPlace(key), mem, src, dest, sSize, dSize).outcome.LeftTable?
    ensures src + sSize <= |mem| && dest + dSize <= |mem| ==>
              !Decompress(InPlace(key), mem, src, dest, sSize, dSize).outcome.Fault?
  {
    hide Run, Unchanged;
    if sSize <= MAX_IMAGE_SIZE && src + sSize <= |mem| {
      RunOnSnapshot(tab, key, mem[src..src + sSize], dest, dSize, mem, 0, 0, 0);
      RunFrame(InPlace(key), mem[src..src + sSize], dest, dSize, mem, 0, 0, 0);
    }
  }

  // ----- The decompressors -----

  /** The scratch copy of the source. It is reused between calls, so it may hold stale bytes. */
  class Scratch {
    var buf: array<byte>

    constructor ()
      ensures fresh(buf) && buf.Length == 0
    {
      buf := new byte[0];
    }

    /** Copy the source in, followed by the three zero bytes the last look-ahead may read. */
    method Load(d: array<byte>, src: nat, sSize: nat)
      requires buf != d && src + sSize <= d.Length
      modifies this, buf
      ensures buf != d && (buf == old(buf) || fresh(buf))
      ensures sSize + 3 <= buf.Length && buf[..sSize + 3] == d[src..src + sSize] + [0, 0, 0]
      ensures d[..] == old(d[..])
    {
      var need := sSize + 3;
      if buf.Length < need {
        var grown := new byte[need](_ => 0);
        forall i | 0 <= i < buf.Length {
          grown[i] := buf[i];
        }
        buf := grown;
      }
      buf[sSize], buf[sSize + 1], buf[sSize + 2] := 0, 0, 0;
      forall i | 0 <= i < sSize {
        buf[i] := d[src + i];
      }
    }

    /** The 32-bit look-ahead at bit `bitPos` of byte `off`. */
    method LookAhead(ghost src: seq<byte>, off: nat, bitPos: nat) returns (word: nat)
      requires off < |src| && bitPos < 8
      requires |src| + 3 <= buf.Length && buf[..|src| + 3] == src + [0, 0, 0]
      ensures word == Word(src, 8 * off + bitPos)
    {
      assert buf[off..off + 4] == (src + [0, 0, 0])[off..off + 4];
      word := Shr(Val(buf[off..off + 4]), bitPos);
    }
  }

  /** Repeat the `width` bytes before `at`, `count` times, or up to the end of the buffer. */
  method RunFill(d: array<byte>, at: nat, width: nat, count: nat) returns (ok: bool)
    requires width == 1 || width == 2 || width == 4
    requires width <= at <= d.Length
    modifies d
    ensures ok <==> at + count * width <= d.Length
    ensures d[..] == Filled(old(d[..]), at, width, if ok then count * width else d.Length - at)
  {
    var unit := d[at - width..at];
    for k := 0 to count
      invariant at + k * width <= d.Length
      invariant d[..] == Filled(old(d[..]), at, width, k * width)
    {
      NextUnit(k, count, width);
      if at + (k + 1) * width > d.Length {
        WriteUnit(d, at, width, k, d.Length - at - k * width, unit, old(d[..]));
        return false;
      }
      WriteUnit(d, at, width, k, width, unit, old(d[..]));
    }
    ok := true;
  }

  lemma NextUnit(k: nat, count: nat, width: nat)
    requires (width == 1 || width == 2 || width == 4) && k < count
    ensures k * width + width == (k + 1) * width <= count * width
  {
    if width == 1 {
    } else if width == 2 {
    }
  }

  /** The first `m` bytes of unit `k`. */
  method WriteUnit(d: array<byte>, at: nat, width: nat, k: nat, m: nat, unit: seq<byte>, ghost was: seq<byte>)
    requires width == 1 || width == 2 || width == 4
    requires |unit| == width <= at && m <= width && at + k * width + m <= d.Length == |was|
             && unit == was[at - width..at]
    requires d[..] == Filled(was, at, width, k * width)
    modifies d
    ensures d[..] == Filled(was, at, width, k * width + m)
  {
    var p := at + k * width;
    forall j | 0 <= j < m {
      d[p + j] := unit[j];
    }
    forall i | 0 <= i < d.Length
      ensures d[i] == Filled(was, at, width, k * width + m)[i]
    {
      if p <= i < p + m {
        UnitIndex(k, width, i - p);
      }
    }
  }

  lemma UnitIndex(k: nat, width: nat, j: nat)
    requires (width == 1 || width == 2 || width == 4) && j < width
    ensures (k * width + j) % width == j
  {
    if width == 1 {
      assert k * width == k;
    } else if width == 2 {
      assert k * width == 2 * k;
    } else {
      assert k * width == 4 * k;
    }
  }

  /** Byte by byte, up to the end of the buffer; what is read and what is written never overlap. */
  method CopyBack(d: array<byte>, at: nat, back: nat, n: nat) returns (ok: bool)
    requires n <= back <= at <= d.Length
    modifies d
    ensures ok <==> at + n <= d.Length
    ensures d[..] == Copied(old(d[..]), at, back, if ok then n else d.Length - at)
  {
    for k := 0 to n
      invariant at + k <= d.Length
      invariant forall i :: at <= i < at + k ==> d[i] == old(d[i - back])
      invariant forall i :: 0 <= i < d.Length && !(at <= i < at + k) ==> d[i] == old(d[i])
    {
      if at + k >= d.Length {
        return false;
      }
      d[at + k] := d[at + k - back];
    }
    ok := true;
  }

  /** What acting on a symbol came to: output bytes and the next prefix, a refusal, or a panic. */
  datatype Effect = Step(step: nat, pending: nat) | Refused(failure: Failure) | Panicked

  /** Act on one symbol in place. */
  method EmitInto(d: array<byte>, at: nat, written: nat, dSize: nat, pending: nat, sym: nat) returns (r: Effect)
    requires written <= at && written < dSize
    modifies d
    ensures match Emit(old(d[..]), at, written, dSize, pending, sym)
            case Emitted(mem, step, pending') => r == Step(step, pending') && d[..] == mem
            case Rejected(failure) => r == Refused(failure) && d[..] == old(d[..])
            case Overrun(mem) => r == Panicked && d[..] == mem
  {
    hide Filled, Copied;
    var mode, payload := (sym / 256) % 4, sym % 256;
    if mode == 0 {
      if at >= d.Length {
        return Panicked;
      }
      d[at] := payload;
      return Step(1, pending);
    } else if mode == 1 {
      if pending >= 256 {
        return Refused(PendingLengthOverflow(pending));
      }
      return Step(0, if pending == 0 then payload else 256 * pending + payload);
    } else if mode == 2 {
      var count := if pending == 0 then 1 else pending;
      var step := count * payload;
      if step + written > dSize {
        return Refused(OutputOverflow(written, step, dSize));
      }
      if payload != 1 && payload != 2 && payload != 4 {
        return Refused(InvalidRunFillWidth(payload));
      }
      if at < payload {
        return Refused(RunFillBeforeOutput(payload, at));
      }
      if at > d.Length {
        return Panicked;
      }
      var ok := RunFill(d, at, payload, count);
      return if ok then Step(step, 0) else Panicked;
    } else {
      var back := pending + payload;
      if written + payload > dSize || back > written {
        if back > written {
          return Refused(InvalidBackReference(back, written));
        }
        return Refused(OutputOverflow(written, payload, dSize));
      }
      if payload == 0 {
        return Step(0, 0);
      }
      if at > d.Length {
        return Panicked;
      }
      var ok := CopyBack(d, at, back, payload);
      return if ok then Step(payload, 0) else Panicked;
    }
  }

  /** Where the loop stands: byte and bit of the source, bytes written, length prefix. */
  datatype Cursor = Cursor(off: nat, bitPos: nat, written: nat, pending: nat)

  /** The run from a cursor. */
  function RunFrom(t: Table, src: seq<byte>, dest: nat, dSize: nat, mem: seq<byte>, c: Cursor): Ended
    requires c.written <= dSize
  {
    Run(t, src, dest, dSize, mem, 8 * c.off + c.bitPos, c.written, c.pending)
  }

  function Advance(c: Cursor, bits: nat): (r: Cursor)
    ensures r.bitPos < 8 && 8 * r.off + r.bitPos == 8 * c.off + c.bitPos + bits
    ensures r.written == c.written && r.pending == c.pending
  {
    c.(off := c.off + (c.bitPos + bits) / 8, bitPos := (c.bitPos + bits) % 8)
  }

  /** What is left when the loop ends. */
  lemma RunStops(t: Table, src: seq<byte>, dest: nat, dSize: nat, mem: seq<byte>, c: Cursor)
    requires c.written <= dSize && c.bitPos < 8 && (c.off >= |src| || c.written >= dSize)
    ensures RunFrom(t, src, dest, dSize, mem, c)
         == Ended(mem, c.written,
                  if c.written == dSize then Done
                  else Failed(OutputSizeMismatch(c.written, dSize, c.off + if c.bitPos != 0 then 1 else 0, |src|)))
  {
  }

  /** One symbol of the run, once its code is known and acted on. */
  lemma RunStep(t: Table, src: seq<byte>, dest: nat, dSize: nat, mem: seq<byte>, c: Cursor, sym: nat, bits: nat)
    requires c.written < dSize && c.bitPos < 8 && c.off < |src|
    requires ReadCode(t, mem, Word(src, 8 * c.off + c.bitPos)) == Code(sym, bits)
    ensures match Emit(mem, dest + c.written, c.written, dSize, c.pending, sym)
            case Rejected(failure) => RunFrom(t, src, dest, dSize, mem, c) == Ended(mem, c.written, Failed(failure))
            case Overrun(mem') => RunFrom(t, src, dest, dSize, mem, c) == Ended(mem', c.written, Fault)
            case Emitted(mem', step, pending') =>
              RunFrom(t, src, dest, dSize, mem, c)
              == if bits == 0 && step == 0 then Ended(mem', c.written + step, Failed(NoProgress))
                 else RunFrom(t, src, dest, dSize, mem',
                              Advance(c, bits).(written := c.written + step, pending := pending'))
  {
    hide Emit, ReadCode, Word;
  }

  /** One symbol of the run, when there is no code. */
  lemma RunEnds(t: Table, src: seq<byte>, dest: nat, dSize: nat, mem: seq<byte>, c: Cursor)
    requires c.written < dSize && c.bitPos < 8 && c.off < |src|
    requires !ReadCode(t, mem, Word(src, 8 * c.off + c.bitPos)).Code?
    ensures RunFrom(t, src, dest, dSize, mem, c)
         == Ended(mem, c.written, match ReadCode(t, mem, Word(src, 8 * c.off + c.bitPos))
                                  case NoCode(failure) => Failed(failure)
                                  case _ => LeftTable)
  {
    hide Emit, ReadCode, Word;
  }

  /** Act on the code at the cursor; the next cursor, or how the run ends. */
  method ActOnCode(ghost t: Table, d: array<byte>, ghost src: seq<byte>, dest: nat, dSize: nat, c: Cursor, sym: nat,
                   bits: nat)
    returns (next: Cursor, end: Option<Outcome>)
    requires c.written < dSize && c.bitPos < 8 && c.off < |src|
    requires ReadCode(t, d[..], Word(src, 8 * c.off + c.bitPos)) == Code(sym, bits)
    modifies d
    ensures end.Some? ==> !end.value.Done?
    ensures end.Some? ==>
              RunFrom(t, src, dest, dSize, old(d[..]), c).mem == d[..]
                && RunFrom(t, src, dest, dSize, old(d[..]), c).outcome == end.value
    ensures end.None? ==>
              && next.bitPos < 8 && c.written <= next.written <= dSize
              && 8 * next.off + next.bitPos + next.written > 8 * c.off + c.bitPos + c.written
              && 8 * next.off + next.bitPos >= 8 * c.off + c.bitPos
              && RunFrom(t, src, dest, dSize, old(d[..]), c) == RunFrom(t, src, dest, dSize, d[..], next)
  {
    hide Emit, ReadCode, Word, RunFrom;
    RunStep(t, src, dest, dSize, d[..], c, sym, bits);
    var e := EmitInto(d, dest + c.written, c.written, dSize, c.pending, sym);
    next := Advance(c, bits);
    match e {
      case Refused(failure) => end := Some(Failed(failure));
      case Panicked => end := Some(Fault);
      case Step(step, pending) =>
        next := next.(written := c.written + step, pending := pending);
        end := if bits == 0 && step == 0 then Some(Failed(NoProgress)) else None;
    }
  }

  /** The decompressor whose table lies in the buffer it writes. */
  method DecompressDetailed(scratch: Scratch, d: array<byte>, src: nat, dest: nat, key: nat, sSize: nat, dSize: nat)
    returns (r: Outcome)
    requires scratch.buf != d && d.Length <= MAX_IMAGE_SIZE
    modifies scratch, scratch.buf, d
    ensures scratch.buf != d && (scratch.buf == old(scratch.buf) || fresh(scratch.buf))
    ensures var e := Decompress(InPlace(key), old(d[..]), src, dest, sSize, dSize);
            d[..] == e.mem && r == e.outcome
  {
    hide Emit, ReadCode, Word, RunFrom, Run;
    if sSize > MAX_IMAGE_SIZE {
      return Failed(SourceTooLarge(sSize, MAX_IMAGE_SIZE));
    }
    if src + sSize > d.Length {
      return Fault;
    }
    scratch.Load(d, src, sSize);
    ghost var source := d[src..src + sSize];
    var c := Cursor(0, 0, 0, 0);
    ghost var all := RunFrom(InPlace(key), source, dest, dSize, d[..], c);
    WholeRun(InPlace(key), source, dest, dSize, d[..]);
    while c.off < sSize && c.written < dSize
      invariant c.bitPos < 8 && c.written <= dSize
      invariant scratch.buf == old(scratch.buf) || fresh(scratch.buf)
      invariant scratch.buf != d && sSize + 3 <= scratch.buf.Length
      invariant scratch.buf[..sSize + 3] == source + [0, 0, 0]
      invariant all == RunFrom(InPlace(key), source, dest, dSize, d[..], c)
      decreases 8 * sSize - (8 * c.off + c.bitPos) + (dSize - c.written)
    {
      var word := scratch.LookAhead(source, c.off, c.bitPos);
      var code := ReadCodeInPlace(d, key, word);
      if !code.Code? {
        RunEnds(InPlace(key), source, dest, dSize, d[..], c);
        return if code.OutOfTable? then LeftTable else Failed(code.failure);
      }
      var end;
      c, end := ActOnCode(InPlace(key), d, source, dest, dSize, c, code.sym, code.bits);
      if end.Some? {
        return end.value;
      }
    }
    RunStops(InPlace(key), source, dest, dSize, d[..], c);
    if c.written != dSize {
      return Failed(OutputSizeMismatch(c.written, dSize, c.off + if c.bitPos != 0 then 1 else 0, sSize));
    }
    return Done;
  }

  lemma WholeRun(t: Table, src: seq<byte>, dest: nat, dSize: nat, mem: seq<byte>)
    ensures RunFrom(t, src, dest, dSize, mem, Cursor(0, 0, 0, 0)) == Run(t, src, dest, dSize, mem, 0, 0, 0)
  {
    hide Run;
  }

  /** The decompressor that reads a snapshot of the table: success or failure, or nothing when it panics. */
  method DecompressTbl(scratch: Scratch, tab: seq<byte>, d: array<byte>, src: nat, dest: nat, sSize: nat, dSize: nat)
    returns (r: Option<bool>)
    requires scratch.buf != d && d.Length <= MAX_IMAGE_SIZE
    modifies scratch, scratch.buf, d
    ensures scratch.buf != d && (scratch.buf == old(scratch.buf) || fresh(scratch.buf))
    ensures var e := Decompress(Snapshot(tab), old(d[..]), src, dest, sSize, dSize);
            d[..] == e.mem && r == if e.outcome.Fault? then None else Some(e.outcome.Done?)
  {
    hide Emit, ReadCode, Word, RunFrom, Run;
    if sSize > MAX_IMAGE_SIZE {
      return Some(false);
    }
    if src + sSize > d.Length {
      return None;
    }
    scratch.Load(d, src, sSize);
    ghost var source := d[src..src + sSize];
    var c := Cursor(0, 0, 0, 0);
    ghost var all := RunFrom(Snapshot(tab), source, dest, dSize, d[..], c);
    WholeRun(Snapshot(tab), source, dest, dSize, d[..]);
    while c.off < sSize && c.written < dSize
      invariant c.bitPos < 8 && c.written <= dSize
      invariant scratch.buf == old(scratch.buf) || fresh(scratch.buf)
      invariant scratch.buf != d && sSize + 3 <= scratch.buf.Length
      invariant scratch.buf[..sSize + 3] == source + [0, 0, 0]
      invariant all == RunFrom(Snapshot(tab), source, dest, dSize, d[..], c)
      decreases 8 * sSize - (8 * c.off + c.bitPos) + (dSize - c.written)
    {
      var word := scratch.LookAhead(source, c.off, c.bitPos);
      var code := ReadCodeFromSnapshot(tab, word, d[..]);
      if code.None? {
        RunEnds(Snapshot(tab), source, dest, dSize, d[..], c);
        return Some(false);
      }
      var end;
      c, end := ActOnCode(Snapshot(tab), d, source, dest, dSize, c, code.value.0, code.value.1);
      if end.Some? {
        return if end.value.Fault? then None else Some(false);
      }
    }
    RunStops(Snapshot(tab), source, dest, dSize, d[..], c);
    return Some(c.written == dSize);
  }
}
