/**
 What a code is, apart from any walk: a path through the table that follows the
 bits of the stream from a root to a leaf.
 */
module CodePath {
  import opened Bytes
  import opened Wrappers
  import opened HuffmanTable
  import A = AndroidDecoder

  predicate Inner(t: Table, mem: seq<byte>, idx: nat) {
    Raw(t, mem, idx).Some? && Raw(t, mem, idx).value < LEAF
  }

  /** From inner entry `a` bit `x` leads to entry `b`: the left child or the one next to it. */
  predicate Leads(t: Table, mem: seq<byte>, a: nat, x: nat, b: nat) {
    Inner(t, mem, a) && b == Raw(t, mem, a).value + x
  }

  /** `path` goes from entry to entry as the bits from `b` on tell, and ends at the leaf of `sym`. */
  predicate IsPath(t: Table, mem: seq<byte>, bit: nat -> nat, b: nat, path: seq<nat>, sym: nat)
    decreases |path|
  {
    && path != []
    && if |path| == 1 then Raw(t, mem, path[0]) == Some(LEAF + sym)
       else Leads(t, mem, path[0], bit(b), path[1]) && IsPath(t, mem, bit, b + 1, path[1..], sym)
  }

  // ----- The Windows walk -----

  /** The code of `word`: from the root that its low byte selects, behind the root's width. */
  ghost predicate IsCode(t: Table, mem: seq<byte>, word: nat, sym: nat, bits: nat, path: seq<nat>) {
    var root := word % ROOTS;
    && Width(t, mem, root).Some? && path != [] && path[0] == root
    && IsPath(t, mem, (b: nat) => BitAt(word, b), Width(t, mem, root).value, path, sym)
    && bits == Width(t, mem, root).value + |path| - 1
    && (|path| > 1 ==> Width(t, mem, root).value < 32) && |path| - 2 <= MAX_DEPTH
  }

  lemma {:induction false} DescendHasPath(t: Table, mem: seq<byte>, word: nat, idx: nat, b: nat, depth: nat)
    requires depth <= MAX_DEPTH && Descend(t, mem, word, idx, b, depth).Code?
    ensures var c := Descend(t, mem, word, idx, b, depth);
            exists path :: && IsPath(t, mem, (x: nat) => BitAt(word, x), b, path, c.sym) && path[0] == idx
                           && c.bits == b + |path| - 1 && depth + |path| - 1 <= MAX_DEPTH
    decreases MAX_DEPTH - depth
  {
    hide Raw, BitAt;
    var bit := (x: nat) => BitAt(word, x);
    var raw := Raw(t, mem, idx).value;
    if raw >= LEAF {
      assert IsPath(t, mem, bit, b, [idx], raw - LEAF);
    } else {
      var child := raw + BitAt(word, b);
      DescendHasPath(t, mem, word, child, b + 1, depth + 1);
      var c := Descend(t, mem, word, child, b + 1, depth + 1);
      var tail :| && IsPath(t, mem, bit, b + 1, tail, c.sym) && tail[0] == child
                  && c.bits == b + 1 + |tail| - 1 && depth + 1 + |tail| - 1 <= MAX_DEPTH;
      var path := [idx] + tail;
      assert path[1..] == tail;
    }
  }

  lemma {:induction false} PathDescends(t: Table, mem: seq<byte>, word: nat, b: nat, depth: nat, path: seq<nat>,
                                        sym: nat)
    requires IsPath(t, mem, (x: nat) => BitAt(word, x), b, path, sym) && depth + |path| - 1 <= MAX_DEPTH
    ensures Descend(t, mem, word, path[0], b, depth) == Code(sym, b + |path| - 1)
    decreases |path|
  {
    hide Raw, BitAt;
    if |path| > 1 {
      PathDescends(t, mem, word, b + 1, depth + 1, path[1..], sym);
    }
  }

  /** A walk finds a code exactly when there is such a path, at most 64 entries below the first child. */
  lemma ReadCodeIs(t: Table, mem: seq<byte>, word: nat, sym: nat, bits: nat)
    ensures ReadCode(t, mem, word) == Code(sym, bits) <==> exists path :: IsCode(t, mem, word, sym, bits, path)
  {
    hide Raw, BitAt, Descend, Width;
    var bit := (x: nat) => BitAt(word, x);
    var root := word % ROOTS;
    if ReadCode(t, mem, word) == Code(sym, bits) {
      var raw, width := Raw(t, mem, root).value, Width(t, mem, root).value;
      if raw >= LEAF {
        assert IsCode(t, mem, word, sym, bits, [root]);
      } else {
        var child := raw + BitAt(word, width);
        DescendHasPath(t, mem, word, child, width + 1, 0);
        var tail :| && IsPath(t, mem, bit, width + 1, tail, sym) && tail[0] == child
                    && bits == width + 1 + |tail| - 1 && |tail| - 1 <= MAX_DEPTH;
        var path := [root] + tail;
        assert path[1..] == tail;
        assert IsCode(t, mem, word, sym, bits, path);
      }
    }
    forall path | IsCode(t, mem, word, sym, bits, path)
      ensures ReadCode(t, mem, word) == Code(sym, bits)
    {
      var width := Width(t, mem, root).value;
      if |path| > 1 {
        PathDescends(t, mem, word, width + 1, 0, path[1..], sym);
      }
    }
  }

  // ----- The Android walk -----

  /** The code at bit `p` of the stream, from the root that its first eight bits select. */
  ghost predicate IsStreamCode(tree: seq<byte>, src: seq<byte>, p: nat, sym: nat, bits: nat, path: seq<nat>) {
    var root, t := A.StreamBits(src, p, A.ROOT_BITS), Snapshot(tree);
    && Width(t, [], root).Some? && path != [] && path[0] == root
    && IsPath(t, [], (b: nat) => A.StreamBit(src, p + b), Width(t, [], root).value, path, sym)
    && bits == Width(t, [], root).value + |path| - 1
    && (|path| > 1 ==> Width(t, [], root).value < 64 && bits <= 255)
  }

  lemma {:induction false} StreamHasPath(tree: seq<byte>, src: seq<byte>, p: nat, idx: nat, b: nat)
    requires b <= 255 && A.RefDescend(tree, src, p, idx, b).Found?
    ensures var c := A.RefDescend(tree, src, p, idx, b);
            exists path :: && IsPath(Snapshot(tree), [], (x: nat) => A.StreamBit(src, p + x), b, path, c.sym)
                           && path[0] == idx && c.bits == b + |path| - 1 <= 255
    decreases 255 - b
  {
    hide A.StreamBit, U16;
    var t, bit := Snapshot(tree), (x: nat) => A.StreamBit(src, p + x);
    var raw := U16(tree[3 * idx], tree[3 * idx + 1]);
    if raw >= LEAF {
      assert IsPath(t, [], bit, b, [idx], raw - LEAF);
    } else {
      var child := raw + A.StreamBit(src, p + b);
      StreamHasPath(tree, src, p, child, b + 1);
      var c := A.RefDescend(tree, src, p, child, b + 1);
      var tail :| IsPath(t, [], bit, b + 1, tail, c.sym) && tail[0] == child && c.bits == b + 1 + |tail| - 1 <= 255;
      var path := [idx] + tail;
      assert path[1..] == tail;
    }
  }

  lemma {:induction false} PathInStream(tree: seq<byte>, src: seq<byte>, p: nat, b: nat, path: seq<nat>, sym: nat)
    requires IsPath(Snapshot(tree), [], (x: nat) => A.StreamBit(src, p + x), b, path, sym) && b + |path| - 1 <= 255
    ensures A.RefDescend(tree, src, p, path[0], b) == A.Found(sym, b + |path| - 1)
    decreases |path|
  {
    hide A.StreamBit;
    if |path| > 1 {
      PathInStream(tree, src, p, b + 1, path[1..], sym);
    }
  }

  lemma FoundHasPath(tree: seq<byte>, src: seq<byte>, p: nat, sym: nat, bits: nat)
    requires A.RefCode(tree, src, p) == A.Found(sym, bits)
    ensures exists path :: IsStreamCode(tree, src, p, sym, bits, path)
  {
    hide A.StreamBit, A.StreamBits, A.RefDescend;
    var t, bit := Snapshot(tree), (x: nat) => A.StreamBit(src, p + x);
    var root := A.StreamBits(src, p, A.ROOT_BITS);
    var raw, width := U16(tree[3 * root], tree[3 * root + 1]), tree[3 * root + 2];
    if raw >= LEAF {
      assert IsStreamCode(tree, src, p, sym, bits, [root]);
    } else {
      var child := raw + A.StreamBit(src, p + width);
      StreamHasPath(tree, src, p, child, width + 1);
      var tail :| IsPath(t, [], bit, width + 1, tail, sym) && tail[0] == child && bits == width + 1 + |tail| - 1 <= 255;
      var path := [root] + tail;
      assert path[1..] == tail;
      assert IsStreamCode(tree, src, p, sym, bits, path);
    }
  }

  lemma PathIsFound(tree: seq<byte>, src: seq<byte>, p: nat, sym: nat, bits: nat, path: seq<nat>)
    requires IsStreamCode(tree, src, p, sym, bits, path)
    ensures A.RefCode(tree, src, p) == A.Found(sym, bits)
  {
    hide A.StreamBit, A.StreamBits, A.RefDescend;
    var width := Width(Snapshot(tree), [], A.StreamBits(src, p, A.ROOT_BITS)).value;
    if |path| > 1 {
      PathInStream(tree, src, p, width + 1, path[1..], sym);
    }
  }

  /** The bit-at-a-time reference finds a code exactly when there is such a path. */
  lemma RefCodeIs(tree: seq<byte>, src: seq<byte>, p: nat, sym: nat, bits: nat)
    ensures A.RefCode(tree, src, p) == A.Found(sym, bits) <==>
              exists path :: IsStreamCode(tree, src, p, sym, bits, path)
  {
    hide A.RefCode, IsStreamCode;
    if A.RefCode(tree, src, p) == A.Found(sym, bits) {
      FoundHasPath(tree, src, p, sym, bits);
    }
    forall path | IsStreamCode(tree, src, p, sym, bits, path)
      ensures A.RefCode(tree, src, p) == A.Found(sym, bits)
    {
      PathIsFound(tree, src, p, sym, bits, path);
    }
  }
}
