/**
 The Android and the Windows decoders agree: what the bit-at-a-time reference
 accepts, the Windows decompressor also produces, from the same table bytes.
 */
module DecoderAgreement {
  import opened Bytes
  import opened HuffmanTable
  import opened Wrappers
  import opened WindowsDecompress
  import A = AndroidDecoder

  /** The width of the Windows look-ahead before it is shifted to the bit position. */
  const LOOK_AHEAD: nat := 32

  /** Every position leaves at least this many of its bits. */
  const ALWAYS_LEFT: nat := 25

  /** The tree bytes lie in the image at `key`. */
  ghost predicate TreeAt(tree: seq<byte>, mem: seq<byte>, key: nat) {
    key + |tree| <= |mem| <= MAX_IMAGE_SIZE && mem[key..key + |tree|] == tree
  }

  lemma TreeInImage(tree: seq<byte>, mem: seq<byte>, key: nat)
    requires TreeAt(tree, mem, key)
    ensures |mem| <= MAX_IMAGE_SIZE
  {
  }

  /** The Windows look-ahead is the window of the stream, cut off after 32 bits less the shift. */
  lemma WordIsWindow(src: seq<byte>, pos: nat)
    requires pos / 8 < |src|
    ensures Word(src, pos) == Low(A.Window(src, pos), LOOK_AHEAD - pos % 8)
  {
    hide Shr, Low, Val;
    var o, r := pos / 8, pos % 8;
    var padded := src + [0, 0, 0];
    assert padded == src + seq(3, _ => 0);
    ValZeroTail(src, 3);
    ValDrop(padded, o);
    assert padded[o..][..4] == padded[o..o + 4];
    ValTake(padded[o..], 4);
    ShrOfLow(Val(padded[o..]), r, 32);
    ShrShr(Val(src), 8 * o, r);
    assert 8 * o + r == pos;
  }

  lemma LookAheadAgrees(src: seq<byte>, pos: nat)
    requires pos / 8 < |src|
    ensures Low(Word(src, pos), LOOK_AHEAD - pos % 8) == Low(A.Window(src, pos), LOOK_AHEAD - pos % 8)
  {
    hide Shr, Low, Word, A.Window;
    WordIsWindow(src, pos);
    LowOfLow(A.Window(src, pos), LOOK_AHEAD - pos % 8, LOOK_AHEAD - pos % 8);
  }

  lemma WalkStep(tree: seq<byte>, w: nat, idx: nat, b: nat)
    requires b <= 255 && A.Walk(tree, w, idx, b).Found?
    ensures 3 * idx + 3 <= |tree|
    ensures var raw := U16(tree[3 * idx], tree[3 * idx + 1]);
            if raw >= LEAF then A.Walk(tree, w, idx, b) == A.Found(raw - LEAF, b)
            else b < 255 && A.Walk(tree, w, idx, b) == A.Walk(tree, w, raw + BitAt(w, b), b + 1)
  {
    hide BitAt;
  }

  /** The table `t` has the entries of the tree. */
  ghost predicate Mirrors(tree: seq<byte>, t: Table, mem: seq<byte>) {
    forall idx: nat :: 3 * idx + 3 <= |tree| ==> Raw(t, mem, idx) == Some(U16(tree[3 * idx], tree[3 * idx + 1]))
  }

  lemma ImageMirrors(tree: seq<byte>, mem: seq<byte>, key: nat)
    requires TreeAt(tree, mem, key)
    ensures Mirrors(tree, InPlace(key), mem)
  {
    hide Raw, EntryAt;
    forall idx: nat | 3 * idx + 3 <= |tree|
      ensures Raw(InPlace(key), mem, idx) == Some(U16(tree[3 * idx], tree[3 * idx + 1]))
    {
      EntriesAgree(tree, mem, key, idx);
    }
  }

  /** A code of at most 32 bits is found by the depth-limited walk as well. */
  lemma {:induction false} DescendFinds(tree: seq<byte>, mem: seq<byte>, t: Table, w: nat, idx: nat, b: nat,
                                        depth: nat, sym: nat, bits: nat)
    requires Mirrors(tree, t, mem) && depth <= b <= LOOK_AHEAD
    requires A.Walk(tree, w, idx, b) == A.Found(sym, bits) && bits <= LOOK_AHEAD
    ensures Descend(t, mem, w, idx, b, depth) == Code(sym, bits)
    decreases 255 - b
  {
    hide BitAt, Raw, Descend, A.Walk;
    WalkStep(tree, w, idx, b);
    var raw := U16(tree[3 * idx], tree[3 * idx + 1]);
    DescendStep(t, mem, w, idx, b, depth, raw);
    if raw < LEAF {
      A.WalkLonger(tree, w, raw + BitAt(w, b), b + 1);
      DescendFinds(tree, mem, t, w, raw + BitAt(w, b), b + 1, depth + 1, sym, bits);
    }
  }

  lemma ReadCodeFinds(tree: seq<byte>, mem: seq<byte>, key: nat, w: nat)
    requires TreeAt(tree, mem, key)
    requires var f := A.CodeOf(tree, w); f.Found? && f.bits <= LOOK_AHEAD
    ensures var f := A.CodeOf(tree, w); ReadCode(InPlace(key), mem, w) == Code(f.sym, f.bits)
  {
    hide BitAt, A.CodeOf, Raw, Width, A.Walk, Descend, EntryAt, Mirrors;
    A.RootCode(tree, w);
    var root := w % 256;
    EntriesAgree(tree, mem, key, root);
    ImageMirrors(tree, mem, key);
    var raw, width := U16(tree[3 * root], tree[3 * root + 1]), tree[3 * root + 2];
    if raw < LEAF && width < 32 {
      var f := A.CodeOf(tree, w);
      A.WalkLonger(tree, w, raw + BitAt(w, width), width + 1);
      DescendFinds(tree, mem, InPlace(key), w, raw + BitAt(w, width), width + 1, 0, f.sym, f.bits);
    }
  }

  /** A code that the reference reads inside the look-ahead is the one the Windows decompressor reads. */
  lemma SameCode(tree: seq<byte>, mem: seq<byte>, key: nat, src: seq<byte>, pos: nat)
    requires TreeAt(tree, mem, key) && pos / 8 < |src|
    requires A.RefCode(tree, src, pos).Found? && A.RefCode(tree, src, pos).bits <= LOOK_AHEAD - pos % 8
    ensures var f := A.RefCode(tree, src, pos); ReadCode(InPlace(key), mem, Word(src, pos)) == Code(f.sym, f.bits)
  {
    hide Low, Word, A.Window, A.CodeOf, A.RefCode, ReadCode, TreeAt;
    A.RefCodeIsWalk(tree, src, pos);
    LookAheadAgrees(src, pos);
    var window, word := A.Window(src, pos), Word(src, pos);
    A.FoundAgrees(tree, window, word, LOOK_AHEAD - pos % 8);
    ReadCodeFinds(tree, mem, key, word);
  }

  /** One symbol has the same effect on an output list and in the image. */
  lemma SameEmit(mem: seq<byte>, dest: nat, out: seq<byte>, prefix: nat, sym: nat, size: nat)
    requires |out| < size && dest + size <= |mem| && mem[dest..dest + |out|] == out
    ensures Agree(mem, dest, out, prefix, sym, size)
  {
    hide Emit, A.RefApply;
    if (sym / 256) % 4 == 2 {
      SameRun(mem, dest, out, prefix, sym, size);
    } else if (sym / 256) % 4 == 3 {
      SameReference(mem, dest, out, prefix, sym, size);
    } else {
      SameLiteral(mem, dest, out, prefix, sym, size);
    }
  }

  /** A symbol that the reference applies has the same effect in the image. */
  ghost predicate Agree(mem: seq<byte>, dest: nat, out: seq<byte>, prefix: nat, sym: nat, size: nat)
    requires |out| < size && dest + size <= |mem|
  {
    A.RefApply(out, prefix, sym, size).Some? ==>
      var next := A.RefApply(out, prefix, sym, size).value;
      var e := Emit(mem, dest + |out|, |out|, size, prefix, sym);
      && e.Emitted? && e.step == |next.0| - |out| && e.pending == next.1
      && |e.mem| == |mem| && e.mem[dest..dest + |next.0|] == next.0
  }

  lemma SameLiteral(mem: seq<byte>, dest: nat, out: seq<byte>, prefix: nat, sym: nat, size: nat)
    requires |out| < size && dest + size <= |mem| && mem[dest..dest + |out|] == out && (sym / 256) % 4 < 2
    ensures Agree(mem, dest, out, prefix, sym, size)
  {
    var v := sym % 256;
    assert mem[dest + |out| := v][dest..dest + |out| + 1] == out + [v];
  }

  lemma SameRun(mem: seq<byte>, dest: nat, out: seq<byte>, prefix: nat, sym: nat, size: nat)
    requires |out| < size && dest + size <= |mem| && mem[dest..dest + |out|] == out && (sym / 256) % 4 == 2
    ensures Agree(mem, dest, out, prefix, sym, size)
  {
    hide Filled, A.Repeated;
    if A.RefApply(out, prefix, sym, size).Some? {
      var v := sym % 256;
      SameFill(mem, dest, out, v, (if prefix == 0 then 1 else prefix) * v);
    }
  }

  lemma SameReference(mem: seq<byte>, dest: nat, out: seq<byte>, prefix: nat, sym: nat, size: nat)
    requires |out| < size && dest + size <= |mem| && mem[dest..dest + |out|] == out && (sym / 256) % 4 == 3
    ensures Agree(mem, dest, out, prefix, sym, size)
  {
    hide Copied;
    if A.RefApply(out, prefix, sym, size).Some? {
      var v := sym % 256;
      SameCopy(mem, dest, out, prefix + v, v);
    }
  }

  lemma SameFill(mem: seq<byte>, dest: nat, out: seq<byte>, v: nat, count: nat)
    requires 0 < v <= |out| && dest + |out| + count <= |mem| && mem[dest..dest + |out|] == out
    ensures Filled(mem, dest + |out|, v, count)[dest..dest + |out| + count] == out + A.Repeated(out, v, count)
  {
    var at := dest + |out|;
    var r, o := Filled(mem, at, v, count)[dest..at + count], out + A.Repeated(out, v, count);
    forall i | 0 <= i < |r|
      ensures r[i] == o[i]
    {
      if i >= |out| {
        var j := (i - |out|) % v;
        assert out[|out| - v + j] == mem[at - v + j];
      }
    }
  }

  lemma SameCopy(mem: seq<byte>, dest: nat, out: seq<byte>, back: nat, n: nat)
    requires n <= back <= |out| && dest + |out| + n <= |mem| && mem[dest..dest + |out|] == out
    ensures Copied(mem, dest + |out|, back, n)[dest..dest + |out| + n] == out + out[|out| - back..|out| - back + n]
  {
    var at := dest + |out|;
    var r, o := Copied(mem, at, back, n)[dest..at + n], out + out[|out| - back..|out| - back + n];
    forall i | 0 <= i < |r|
      ensures r[i] == o[i]
    {
      if i >= |out| {
        assert out[i - back] == mem[dest + i - back];
      }
    }
  }

  lemma WriteKeepsTree(tree: seq<byte>, mem: seq<byte>, mem': seq<byte>, key: nat, lo: nat, hi: nat)
    requires TreeAt(tree, mem, key) && |mem'| == |mem|
    requires hi <= key || key + |tree| <= lo
    requires forall i :: 0 <= i < |mem| && !(lo <= i < hi) ==> mem'[i] == mem[i]
    ensures TreeAt(tree, mem', key)
  {
    var end := key + |tree|;
    assert forall i :: key <= i < end ==> mem'[i] == mem[i];
    assert mem'[key..end] == mem[key..end];
  }

  /** Every code that the reference reads from bit `p` on lies inside the Windows look-ahead. */
  predicate RunVisible(tree: seq<byte>, src: seq<byte>, size: nat, p: nat, out: seq<byte>, prefix: nat)
    requires |out| <= size
    decreases 8 * |src| - p
  {
    var code := A.RefCode(tree, src, p);
    |out| < size && code.Found? && code.bits > 0 && p + code.bits <= 8 * |src| ==>
      && code.bits <= LOOK_AHEAD - p % 8
      && match A.RefApply(out, prefix, code.sym, size)
         case None => true
         case Some(next) => RunVisible(tree, src, size, p + code.bits, next.0, next.1)
  }

  /** What fits the Android bit buffer lies inside the Windows look-ahead. */
  lemma {:induction false} FittingIsVisible(tree: seq<byte>, src: seq<byte>, size: nat, p: nat, out: seq<byte>,
                                            prefix: nat)
    requires |out| <= size && A.RunFits(tree, src, size, p, out, prefix)
    ensures RunVisible(tree, src, size, p, out, prefix)
    decreases 8 * |src| - p
  {
    hide A.RefCode, A.RefApply;
    var code := A.RefCode(tree, src, p);
    if |out| < size && code.Found? && code.bits > 0 && p + code.bits <= 8 * |src| {
      var next := A.RefApply(out, prefix, code.sym, size);
      if next.Some? {
        FittingIsVisible(tree, src, size, p + code.bits, next.value.0, next.value.1);
      }
    }
  }

  /** Codes of at most 25 bits lie inside it everywhere. */
  lemma {:induction false} ShortIsVisible(tree: seq<byte>, src: seq<byte>, size: nat, p: nat, out: seq<byte>,
                                          prefix: nat)
    requires |out| <= size && A.CodesAtMost(tree, ALWAYS_LEFT)
    ensures RunVisible(tree, src, size, p, out, prefix)
    decreases 8 * |src| - p
  {
    hide A.RefCode, A.RefApply, A.CodeOf;
    var code := A.RefCode(tree, src, p);
    A.RefCodeIsWalk(tree, src, p);
    if |out| < size && code.Found? && code.bits > 0 && p + code.bits <= 8 * |src| {
      var next := A.RefApply(out, prefix, code.sym, size);
      if next.Some? {
        ShortIsVisible(tree, src, size, p + code.bits, next.value.0, next.value.1);
      }
    }
  }

  /** Symbol by symbol, the Windows run follows the reference run. */
  lemma {:induction false} RunFollows(tree: seq<byte>, key: nat, src: seq<byte>, dest: nat, size: nat, mem: seq<byte>,
                                      p: nat, out: seq<byte>, prefix: nat)
    requires TreeAt(tree, mem, key) && Apart(key, |tree|, dest, size)
    requires |out| <= size && dest + size <= |mem| && mem[dest..dest + |out|] == out
    requires A.RefRun(tree, src, size, p, out, prefix).Some? && RunVisible(tree, src, size, p, out, prefix)
    ensures var r := Run(InPlace(key), src, dest, size, mem, p, |out|, prefix);
            && r.outcome == Done && |r.mem| == |mem|
            && r.mem[dest..dest + size] == A.RefRun(tree, src, size, p, out, prefix).value.0
    decreases 8 * |src| - p
  {
    hide A.RefCode, A.RefApply, ReadCode, Emit, Word, TreeAt;
    if |out| < size {
      var f := A.RefCode(tree, src, p);
      assert f.Found? && f.bits > 0 && p / 8 < |src|;
      SameCode(tree, mem, key, src, p);
      SameEmit(mem, dest, out, prefix, f.sym, size);
      var next := A.RefApply(out, prefix, f.sym, size).value;
      var e := Emit(mem, dest + |out|, |out|, size, prefix, f.sym);
      WriteKeepsTree(tree, mem, e.mem, key, dest + |out|, dest + |out| + e.step);
      RunFollows(tree, key, src, dest, size, e.mem, p + f.bits, next.0, next.1);
    }
  }

  /**
   What the reference decodes through codes that the look-ahead shows, the
   Windows decompressor decodes, given the same table bytes outside the output
   region; it changes the image to exactly that output and nothing else.
   */
  lemma WindowsFollowsReference(tree: seq<byte>, mem: seq<byte>, key: nat, src: nat, dest: nat, sSize: nat, size: nat)
    requires TreeAt(tree, mem, key) && Apart(key, |tree|, dest, size)
    requires src + sSize <= |mem| && dest + size <= |mem|
    requires A.Reference(tree, mem[src..src + sSize], size).Some?
    requires RunVisible(tree, mem[src..src + sSize], size, 0, [], 0)
    ensures var out := A.Reference(tree, mem[src..src + sSize], size).value;
            Decompress(InPlace(key), mem, src, dest, sSize, size) == Ended(Splice(mem, dest, out), size, Done)
  {
    hide A.RefRun, Run, RunVisible, Unchanged, TreeAt;
    var source := mem[src..src + sSize];
    assert |mem| <= MAX_IMAGE_SIZE by {
      TreeInImage(tree, mem, key);
    }
    RunFollows(tree, key, source, dest, size, mem, 0, [], 0);
    RunFrame(InPlace(key), source, dest, size, mem, 0, 0, 0);
    var r := Run(InPlace(key), source, dest, size, mem, 0, 0, 0);
    var out := A.Reference(tree, source, size).value;
    SplicedOut(mem, r.mem, dest, out);
  }

  lemma SplicedOut(mem: seq<byte>, mem': seq<byte>, dest: nat, out: seq<byte>)
    requires Unchanged(mem, mem', dest, dest + |out|) && dest + |out| <= |mem| && mem'[dest..dest + |out|] == out
    ensures mem' == Splice(mem, dest, out)
  {
    forall i | 0 <= i < |mem|
      ensures mem'[i] == Splice(mem, dest, out)[i]
    {
      if dest <= i < dest + |out| {
        assert mem'[i] == mem'[dest..dest + |out|][i - dest];
      }
    }
  }

  /**
   Whatever the Android decoder accepts, with codes of any length, the Windows
   decompressor accepts, and both produce the same bytes. The hypothesis is the
   exact condition under which the Android decoder succeeds.
   */
  lemma WindowsFollowsAndroid(tree: seq<byte>, mem: seq<byte>, key: nat, src: nat, dest: nat, sSize: nat, size: nat)
    requires TreeAt(tree, mem, key) && Apart(key, |tree|, dest, size)
    requires src + sSize <= |mem| && dest + size <= |mem|
    requires A.Reference(tree, mem[src..src + sSize], size).Some?
    requires A.RunFits(tree, mem[src..src + sSize], size, 0, [], 0)
    ensures var out := A.Reference(tree, mem[src..src + sSize], size).value;
            Decompress(InPlace(key), mem, src, dest, sSize, size) == Ended(Splice(mem, dest, out), size, Done)
  {
    hide A.Reference, A.RunFits, RunVisible, Decompress;
    FittingIsVisible(tree, mem[src..src + sSize], size, 0, [], 0);
    WindowsFollowsReference(tree, mem, key, src, dest, sSize, size);
  }
}
