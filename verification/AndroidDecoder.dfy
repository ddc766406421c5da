/**
 The Android writer decoder: a 16-bit lookup over a refilled bit buffer.

 The reference it is proved against reads the stream one bit at a time.
 */
module AndroidDecoder {
  import opened Bytes
  import opened HuffmanTable
  import opened Wrappers

  const MIN_TREE: nat := 256 * 3
  const LOOKUP: nat := 0x1_0000
  /** The refill loop keeps at least this many bits while the source lasts. */
  const REFILL: nat := 24
  /** The bits of a code that select its root. */
  const ROOT_BITS: nat := 8

  datatype Error = Invalid | Overflow

  // ----- The reference decoder over the plain bit list -----

  /** Bit `i` of the stream, least significant bit of each byte first, zero past the end. */
  function StreamBit(src: seq<byte>, i: nat): (r: nat)
    ensures r < 2
  {
    if i / 8 < |src| then BitAt(src[i / 8], i % 8) else 0
  }

  /** The number formed by the `n` stream bits from `p` on, first bit lowest. */
  function StreamBits(src: seq<byte>, p: nat, n: nat): nat
    decreases n
  {
    if n == 0 then 0 else StreamBit(src, p) + 2 * StreamBits(src, p + 1, n - 1)
  }

  /** A code found in the tree; `Stuck` when an entry is missing or no width fits in a byte. */
  datatype Found = Found(sym: nat, bits: nat) | Stuck(error: Error)

  /** Follow the stream from entry `idx`, `b` bits into the code that starts at bit `p`. */
  function RefDescend(tree: seq<byte>, src: seq<byte>, p: nat, idx: nat, b: nat): Found
    requires b <= 255
    decreases 255 - b
  {
    if 3 * idx + 3 > |tree| then Stuck(Invalid)
    else
      var raw := U16(tree[3 * idx], tree[3 * idx + 1]);
      if raw >= LEAF then Found(raw - LEAF, b)
      else if b == 255 then Stuck(Overflow)
      else RefDescend(tree, src, p, raw + StreamBit(src, p + b), b + 1)
  }

  /** The code at bit `p`: eight bits select a root, then one bit per level. */
  function RefCode(tree: seq<byte>, src: seq<byte>, p: nat): Found {
    var root := StreamBits(src, p, ROOT_BITS);
    if 3 * root + 3 > |tree| then Stuck(Invalid)
    else
      var raw, width := U16(tree[3 * root], tree[3 * root + 1]), tree[3 * root + 2];
      if raw >= LEAF then Found(raw - LEAF, width)
      else if width >= 64 then Stuck(Overflow)
      else RefDescend(tree, src, p, raw + StreamBit(src, p + width), width + 1)
  }

  /** `n` bytes repeating the last `w` bytes of `out`. */
  function Repeated(out: seq<byte>, w: nat, n: nat): (r: seq<byte>)
    requires 0 < w <= |out|
    ensures |r| == n
  {
    seq(n, i requires 0 <= i < n => out[|out| - w + i % w])
  }

  /** What one symbol appends, and the length prefix it leaves. */
  function RefApply(out: seq<byte>, prefix: nat, sym: nat, size: nat): (r: Option<(seq<byte>, nat)>)
    requires |out| < size
    ensures r.Some? ==> |out| <= |r.value.0| <= size
  {
    var v := sym % 256;
    match (sym / 256) % 4
    case 0 => Some((out + [v], prefix))
    case 1 => if prefix > 255 then None else Some((out, if prefix == 0 then v else 256 * prefix + v))
    case 2 =>
      var count := (if prefix == 0 then 1 else prefix) * v;
      if (v != 1 && v != 2 && v != 4) || v > |out| || |out| + count > size then None
      else Some((out + Repeated(out, v, count), 0))
    case _ =>
      var distance := prefix + v;
      if distance > |out| || |out| + v > size then None
      else Some((out + out[|out| - distance..|out| - distance + v], 0))
  }

  /** Decode from bit `p` until `size` bytes are out; gives them and the position reached. */
  function RefRun(tree: seq<byte>, src: seq<byte>, size: nat, p: nat, out: seq<byte>, prefix: nat)
    : (r: Option<(seq<byte>, nat)>)
    requires |out| <= size
    ensures r.Some? ==> |r.value.0| == size
    decreases 8 * |src| - p
  {
    if |out| == size then Some((out, p))
    else
      match RefCode(tree, src, p)
      case Stuck(_) => None
      case Found(sym, bits) =>
        if bits == 0 || p + bits > 8 * |src| then None
        else
          match RefApply(out, prefix, sym, size)
          case None => None
          case Some(next) => RefRun(tree, src, size, p + bits, next.0, next.1)
  }

  /** The reference result: `size` bytes, using up the source to within the last byte. */
  function Reference(tree: seq<byte>, src: seq<byte>, size: nat): Option<seq<byte>> {
    match RefRun(tree, src, size, 0, [], 0)
    case None => None
    case Some((out, p)) => if (p + 7) / 8 == |src| then Some(out) else None
  }

  // ----- Walks over a number instead of a stream -----

  function Walk(tree: seq<byte>, w: nat, idx: nat, b: nat): Found
    requires b <= 255
    decreases 255 - b
  {
    if 3 * idx + 3 > |tree| then Stuck(Invalid)
    else
      var raw := U16(tree[3 * idx], tree[3 * idx + 1]);
      if raw >= LEAF then Found(raw - LEAF, b)
      else if b == 255 then Stuck(Overflow)
      else Walk(tree, w, raw + BitAt(w, b), b + 1)
  }

  /** The code at the low end of `w`. */
  function CodeOf(tree: seq<byte>, w: nat): Found {
    var root := w % 256;
    if 3 * root + 3 > |tree| then Stuck(Invalid)
    else
      var raw, width := U16(tree[3 * root], tree[3 * root + 1]), tree[3 * root + 2];
      if raw >= LEAF then Found(raw - LEAF, width)
      else if width >= 64 then Stuck(Overflow)
      else Walk(tree, w, raw + BitAt(w, width), width + 1)
  }

  /** No code of the tree is longer than `n` bits, whatever the input. */
  ghost predicate CodesAtMost(tree: seq<byte>, n: nat) {
    forall w: nat :: CodeOf(tree, w).Found? ==> CodeOf(tree, w).bits <= n
  }

  /** A found code only depends on the bits it is long (and on the eight that select its root). */
  lemma {:induction false} WalkAgrees(tree: seq<byte>, x: nat, y: nat, k: nat, idx: nat, b: nat)
    requires b <= 255 && Low(x, k) == Low(y, k)
    ensures Walk(tree, x, idx, b).Found? ==> Walk(tree, x, idx, b).bits >= b
    ensures Walk(tree, x, idx, b).Found? && Walk(tree, x, idx, b).bits <= k ==>
            Walk(tree, y, idx, b) == Walk(tree, x, idx, b)
    decreases 255 - b
  {
    hide BitAt, Low;
    if 3 * idx + 3 <= |tree| {
      var raw := U16(tree[3 * idx], tree[3 * idx + 1]);
      if raw < LEAF && b < 255 {
        WalkAgrees(tree, x, y, k, raw + BitAt(x, b), b + 1);
        LowBitsAgree(x, y, k, b);
      }
    }
  }

  lemma {:induction false} WalkLonger(tree: seq<byte>, w: nat, idx: nat, b: nat)
    requires b <= 255
    ensures Walk(tree, w, idx, b).Found? ==> Walk(tree, w, idx, b).bits >= b
  {
    WalkAgrees(tree, w, w, 0, idx, b);
  }

  /** Below an inner entry reached after 31 bits or more there is only a longer code. */
  lemma WalkTooLong(tree: seq<byte>, w: nat, idx: nat, b: nat)
    requires 31 <= b < 255 && 3 * idx + 3 <= |tree| && U16(tree[3 * idx], tree[3 * idx + 1]) < LEAF
    ensures !Usable(Walk(tree, w, idx, b), 31)
  {
    hide BitAt;
    WalkLonger(tree, w, U16(tree[3 * idx], tree[3 * idx + 1]) + BitAt(w, b), b + 1);
  }

  /** How a code starts: at a leaf root, or one bit below an inner root. */
  lemma RootCode(tree: seq<byte>, w: nat)
    ensures var root := w % 256;
            if 3 * root + 3 > |tree| then CodeOf(tree, w) == Stuck(Invalid)
            else
              var raw, width := U16(tree[3 * root], tree[3 * root + 1]), tree[3 * root + 2];
              if raw >= LEAF then CodeOf(tree, w) == Found(raw - LEAF, width)
              else if width < 32 then CodeOf(tree, w) == Walk(tree, w, raw + BitAt(w, width), width + 1)
              else CodeOf(tree, w).Found? ==> CodeOf(tree, w).bits > 32
  {
    hide BitAt;
    var root := w % 256;
    if 3 * root + 3 <= |tree| {
      var raw, width := U16(tree[3 * root], tree[3 * root + 1]), tree[3 * root + 2];
      if raw < LEAF && 32 <= width < 64 {
        WalkLonger(tree, w, raw + BitAt(w, width), width + 1);
      }
    }
  }

  lemma SameLowByte(x: nat, y: nat, k: nat)
    requires k >= 8 && Low(x, k) == Low(y, k)
    ensures x % 256 == y % 256
  {
    hide Low;
    LowBitsAgree(x, y, k, 8);
    ByteShift(x);
    ByteShift(y);
  }

  /** Streams that agree on as many bits as a code takes give that code. */
  lemma FoundAgrees(tree: seq<byte>, x: nat, y: nat, k: nat)
    requires k >= 8 && Low(x, k) == Low(y, k)
    requires CodeOf(tree, x).Found? && CodeOf(tree, x).bits <= k
    ensures CodeOf(tree, y) == CodeOf(tree, x)
  {
    hide BitAt, Low, Walk;
    SameLowByte(x, y, k);
    var root := x % 256;
    var raw, width := U16(tree[3 * root], tree[3 * root + 1]), tree[3 * root + 2];
    if raw < LEAF && width < 64 {
      WalkAgrees(tree, x, y, k, raw + BitAt(x, width), width + 1);
      LowBitsAgree(x, y, k, width);
    }
  }

  // ----- The stream as one number -----

  /** All stream bits from `p` on, as a number. */
  function Window(src: seq<byte>, p: nat): nat {
    Shr(Val(src), p)
  }

  lemma WindowNext(src: seq<byte>, p: nat, n: nat)
    ensures Shr(Window(src, p), n) == Window(src, p + n)
  {
    ShrShr(Val(src), p, n);
  }

  /** The low bit of the window is the next stream bit. */
  lemma {:induction false} WindowBit(src: seq<byte>, p: nat)
    ensures Window(src, p) % 2 == StreamBit(src, p)
  {
    var o, r := p / 8, p % 8;
    assert p == 8 * o + r;
    if o < |src| {
      ValDrop(src, o);
      ShrShr(Val(src), 8 * o, r);
      ShrOfByte(src[o], Val(src[o..][1..]), r);
    } else {
      ValBound(src);
      Pow2Monotone(8 * |src|, p);
      ShrSmall(Val(src), p);
    }
  }

  lemma ShrOfByte(lo: byte, hi: nat, r: nat)
    requires r < 8
    ensures Shr(lo + 256 * hi, r) % 2 == BitAt(lo, r)
  {
    hide Shr;
    LowDigit(lo, hi, 0);
    LowDigit(lo, 0, 0);
    LowBitsAgree(lo + 256 * hi, lo, 8, r);
  }

  lemma WindowBitAt(src: seq<byte>, p: nat, b: nat)
    ensures BitAt(Window(src, p), b) == StreamBit(src, p + b)
  {
    WindowNext(src, p, b);
    WindowBit(src, p + b);
  }

  lemma {:induction false} WindowLow(src: seq<byte>, p: nat, n: nat)
    ensures Low(Window(src, p), n) == StreamBits(src, p, n)
    decreases n
  {
    if n > 0 {
      WindowBit(src, p);
      WindowNext(src, p, 1);
      WindowLow(src, p + 1, n - 1);
    }
  }

  lemma {:induction false} RefDescendIsWalk(tree: seq<byte>, src: seq<byte>, p: nat, idx: nat, b: nat)
    requires b <= 255
    ensures RefDescend(tree, src, p, idx, b) == Walk(tree, Window(src, p), idx, b)
    decreases 255 - b
  {
    hide StreamBit, BitAt, Window;
    if 3 * idx + 3 <= |tree| {
      var raw := U16(tree[3 * idx], tree[3 * idx + 1]);
      if raw < LEAF && b < 255 {
        WindowBitAt(src, p, b);
        RefDescendIsWalk(tree, src, p, raw + StreamBit(src, p + b), b + 1);
      }
    }
  }

  /** Reading the stream bit by bit is walking the tree with the window. */
  lemma RefCodeIsWalk(tree: seq<byte>, src: seq<byte>, p: nat)
    ensures RefCode(tree, src, p) == CodeOf(tree, Window(src, p))
  {
    hide Window, StreamBits, StreamBit, BitAt, U16;
    var w := Window(src, p);
    WindowLow(src, p, 8);
    ByteShift(w);
    var root := w % 256;
    if 3 * root + 3 <= |tree| {
      var raw, width := U16(tree[3 * root], tree[3 * root + 1]), tree[3 * root + 2];
      if raw < LEAF && width < 64 {
        WindowBitAt(src, p, width);
        RefDescendIsWalk(tree, src, p, raw + StreamBit(src, p + width), width + 1);
      }
    }
  }

  // ----- The bit buffer -----

  /** The buffer holds exactly the `available` bits after bit `consumed`, and `sourcePos` bytes have been taken. */
  ghost predicate Buffered(src: seq<byte>, sourcePos: nat, bitBuffer: nat, available: nat, consumed: nat) {
    && sourcePos <= |src|
    && 8 * sourcePos == consumed + available
    && bitBuffer == Low(Window(src, consumed), available)
  }

  /** The byte `b` put above the `available` bits of the buffer. */
  function WithByte(bitBuffer: nat, available: nat, b: byte): nat {
    bitBuffer + Pow2(available) * b
  }

  lemma RefillByte(src: seq<byte>, sourcePos: nat, bitBuffer: nat, available: nat, consumed: nat)
    requires Buffered(src, sourcePos, bitBuffer, available, consumed) && sourcePos < |src|
    ensures Buffered(src, sourcePos + 1, WithByte(bitBuffer, available, src[sourcePos]), available + 8, consumed)
  {
    hide Low, Shr, Pow2, Val, Window;
    LowSplit(Window(src, consumed), available, 8);
    WindowNext(src, consumed, available);
    WindowByte(src, sourcePos);
  }

  /** The low byte of the window at a byte boundary is the byte there. */
  lemma WindowByte(src: seq<byte>, at: nat)
    requires at < |src|
    ensures Low(Window(src, 8 * at), 8) == src[at]
  {
    hide Low, Shr;
    ValDrop(src, at);
    LowDigit(src[at], Val(src[at + 1..]), 0);
    assert src[at..][1..] == src[at + 1..];
    NoBits(Val(src[at + 1..]));
  }

  lemma NoBits(x: nat)
    ensures Low(x, 0) == 0
  {
  }

  lemma TakeBits(src: seq<byte>, sourcePos: nat, bitBuffer: nat, available: nat, consumed: nat, bits: nat)
    requires Buffered(src, sourcePos, bitBuffer, available, consumed) && bits <= available
    ensures Buffered(src, sourcePos, Shr(bitBuffer, bits), available - bits, consumed + bits)
  {
    hide Low, Shr;
    ShrOfLow(Window(src, consumed), bits, available);
    WindowNext(src, consumed, bits);
  }

  /** Once the source is exhausted the buffer is all that is left of the stream. */
  lemma BufferIsAll(src: seq<byte>, bitBuffer: nat, available: nat, consumed: nat)
    requires Buffered(src, |src|, bitBuffer, available, consumed)
    ensures bitBuffer == Window(src, consumed)
  {
    hide Low, Shr;
    ValBound(src);
    ShrSmall(Val(src), 8 * |src|);
    WindowNext(src, consumed, available);
    LowShr(Window(src, consumed), available);
  }

  /** Whether a code that was found ends inside the stream. */
  predicate Usable(f: Found, left: nat) {
    f.Found? && 0 < f.bits <= left
  }

  /** How many bits a refilled buffer holds at bit `p`: up to a byte boundary 24 to 31 bits on, or what is left. */
  function Room(src: seq<byte>, p: nat): nat {
    var full, left := REFILL + (8 - p % 8) % 8, 8 * |src| - p;
    if left < 0 then 0 else if full <= left then full else left
  }

  /**
   The code in a refilled buffer is the code in the stream, and one is usable
   within the buffer exactly when the other is.
   */
  lemma LookupIsReference(tree: seq<byte>, src: seq<byte>, sourcePos: nat, bitBuffer: nat, available: nat,
                          consumed: nat)
    requires Buffered(src, sourcePos, bitBuffer, available, consumed)
    requires available >= REFILL || sourcePos == |src|
    ensures Usable(CodeOf(tree, bitBuffer), available) <==> Usable(RefCode(tree, src, consumed), available)
    ensures Usable(CodeOf(tree, bitBuffer), available) ==> RefCode(tree, src, consumed) == CodeOf(tree, bitBuffer)
  {
    hide CodeOf, RefCode, Window, Low;
    var w := Window(src, consumed);
    RefCodeIsWalk(tree, src, consumed);
    if sourcePos == |src| {
      BufferIsAll(src, bitBuffer, available, consumed);
    } else {
      LowOfLow(w, available, available);
      if Usable(CodeOf(tree, bitBuffer), available) {
        FoundAgrees(tree, bitBuffer, w, available);
      }
      if Usable(CodeOf(tree, w), available) {
        FoundAgrees(tree, w, bitBuffer, available);
      }
    }
  }

  /** After the refill the buffer holds `Room` bits. */
  lemma RefilledRoom(src: seq<byte>, sourcePos: nat, bitBuffer: nat, available: nat, consumed: nat)
    requires Buffered(src, sourcePos, bitBuffer, available, consumed) && available < 32
    requires available >= REFILL || sourcePos == |src|
    ensures available == Room(src, consumed)
  {
    hide Window, Low;
  }

  // ----- Which streams the decoder accepts -----

  /** No code that the reference reads from bit `p` on is longer than the buffer has room for. */
  predicate RunFits(tree: seq<byte>, src: seq<byte>, size: nat, p: nat, out: seq<byte>, prefix: nat)
    requires |out| <= size
    decreases 8 * |src| - p
  {
    |out| < size && RefCode(tree, src, p).Found? && RefCode(tree, src, p).bits > 0 ==>
      var code := RefCode(tree, src, p);
      && code.bits <= Room(src, p)
      && match RefApply(out, prefix, code.sym, size)
         case None => true
         case Some(next) => RunFits(tree, src, size, p + code.bits, next.0, next.1)
  }

  /** One turn of the reference and of its fit. */
  lemma RunStep(tree: seq<byte>, src: seq<byte>, size: nat, p: nat, out: seq<byte>, prefix: nat)
    requires |out| < size
    ensures !Usable(RefCode(tree, src, p), Room(src, p)) ==>
              RefRun(tree, src, size, p, out, prefix).None? || !RunFits(tree, src, size, p, out, prefix)
    ensures Usable(RefCode(tree, src, p), Room(src, p)) ==>
              var code := RefCode(tree, src, p);
              match RefApply(out, prefix, code.sym, size)
              case None => RefRun(tree, src, size, p, out, prefix).None?
              case Some(next) =>
                && RefRun(tree, src, size, p, out, prefix) == RefRun(tree, src, size, p + code.bits, next.0, next.1)
                && (RunFits(tree, src, size, p, out, prefix) <==>
                    RunFits(tree, src, size, p + code.bits, next.0, next.1))
  {
    hide RefCode, RefApply;
  }

  lemma ShortCode(tree: seq<byte>, src: seq<byte>, p: nat)
    requires CodesAtMost(tree, REFILL) && RefCode(tree, src, p).Found?
    ensures RefCode(tree, src, p).bits <= REFILL
  {
    hide CodeOf, RefCode, Window;
    RefCodeIsWalk(tree, src, p);
  }

  /** Codes of at most 24 bits fit everywhere. */
  lemma {:induction false} ShortCodesFit(tree: seq<byte>, src: seq<byte>, size: nat, p: nat, out: seq<byte>,
                                         prefix: nat)
    requires |out| <= size && CodesAtMost(tree, REFILL) && RefRun(tree, src, size, p, out, prefix).Some?
    ensures RunFits(tree, src, size, p, out, prefix)
    decreases 8 * |src| - p
  {
    hide CodeOf, RefCode, RefApply, CodesAtMost;
    if |out| < size {
      var code := RefCode(tree, src, p);
      ShortCode(tree, src, p);
      var next := RefApply(out, prefix, code.sym, size);
      ShortCodesFit(tree, src, size, p + code.bits, next.value.0, next.value.1);
    }
  }

  /** The first code of the stream is longer than the first refill. */
  predicate StartsLong(tree: seq<byte>, src: seq<byte>) {
    RefCode(tree, src, 0).Found? && RefCode(tree, src, 0).bits > REFILL
  }

  lemma LongStartDoesNotFit(tree: seq<byte>, src: seq<byte>, size: nat)
    requires size > 0 && StartsLong(tree, src)
    ensures !RunFits(tree, src, size, 0, [], 0)
  {
    hide RefCode;
  }

  // ----- The decoder -----

  class HuffmanLzDecoder {
    const tree: seq<byte>
    const lookupSymbols: array<nat>
    const lookupBits: array<byte>

    /** A lookup entry in use (nonzero width) is the code of its 16 bits. */
    ghost predicate Valid()
      reads lookupSymbols, lookupBits
    {
      && lookupSymbols.Length == LOOKUP && lookupBits.Length == LOOKUP
      && forall key :: 0 <= key < LOOKUP && lookupBits[key] != 0 ==>
           lookupBits[key] <= 16 && CodeOf(tree, key) == Found(lookupSymbols[key], lookupBits[key])
    }

    /** Every 16-bit word that starts with a code of 1 to 16 bits has its entry, and no other has. */
    ghost predicate Complete()
      requires Valid()
      reads lookupSymbols, lookupBits
    {
      forall key :: 0 <= key < LOOKUP ==> (lookupBits[key] != 0 <==> Usable(CodeOf(tree, key), 16))
    }

    constructor (tree: seq<byte>)
      ensures this.tree == tree && fresh(lookupSymbols) && fresh(lookupBits) && Valid()
      ensures forall key :: 0 <= key < LOOKUP ==> lookupBits[key] == 0
      ensures lookupSymbols as object != lookupBits
    {
      this.tree := tree;
      lookupSymbols := new nat[LOOKUP](_ => 0);
      lookupBits := new byte[LOOKUP](_ => 0);
    }

    /** Fill the lookup; fails on a misshapen tree or when some 16-bit word has no code of 1 to 31 bits. */
    static method New(tree: seq<byte>) returns (r: Result<HuffmanLzDecoder, Error>)
      ensures r.Ok? ==> fresh(r.value) && r.value.tree == tree && r.value.Valid() && r.value.Complete()
      ensures r.Ok? ==> |tree| >= MIN_TREE && |tree| % 3 == 0
      ensures r.Err? ==>
                || |tree| < MIN_TREE || |tree| % 3 != 0
                || exists word: nat :: word < LOOKUP && !Usable(CodeOf(tree, word), 31)
    {
      hide CodeOf;
      if |tree| < MIN_TREE || |tree| % 3 != 0 {
        return Err(Invalid);
      }
      var decoder := new HuffmanLzDecoder(tree);
      for word := 0 to LOOKUP
        invariant decoder.Valid() && fresh(decoder.lookupSymbols) && fresh(decoder.lookupBits)
        invariant forall key :: 0 <= key < word ==> (decoder.lookupBits[key] != 0 <==> Usable(CodeOf(tree, key), 16))
        invariant forall key :: word <= key < LOOKUP ==> decoder.lookupBits[key] == 0
      {
        var found := DecodeSymbol(tree, word);
        if found.Err? {
          return Err(found.error);
        }
        var (symbol, bits) := found.value;
        if bits <= 16 {
          decoder.lookupSymbols[word] := symbol;
          decoder.lookupBits[word] := bits;
        }
      }
      return Ok(decoder);
    }

    /**
     The walk used to fill the lookup. The first mask is shifted by the width
     byte modulo 32, so only codes of at most 32 bits are the ones the tree means.
     */
    static method DecodeSymbol(tree: seq<byte>, word: nat) returns (r: Result<(nat, nat), Error>)
      requires word < TWO_32
      ensures r.Ok? ==> r.value.1 > 0
      ensures r.Ok? && r.value.1 <= 32 ==> CodeOf(tree, word) == Found(r.value.0, r.value.1)
      ensures r.Ok? && r.value.1 > 32 ==> !Usable(CodeOf(tree, word), 31)
      ensures r.Err? ==> !Usable(CodeOf(tree, word), 31)
    {
      hide BitAt, CodeOf;
      RootCode(tree, word);
      var root := word % 256;
      if 3 * root + 3 > |tree| {
        return Err(Invalid);
      }
      var raw, extra := U16(tree[3 * root], tree[3 * root + 1]), tree[3 * root + 2];
      if raw >= LEAF {
        if extra == 0 {
          return Err(Invalid);
        }
        return Ok((raw - LEAF, extra));
      }
      if extra == 255 {
        return Err(Invalid);
      }
      r := FollowChildren(tree, word, raw + BitAt(word, extra % 32), extra % 32, extra + 1);
    }

    /** The loop below the root: `mask` is the bit just tested, `bits` the bits used so far. */
    static method FollowChildren(tree: seq<byte>, word: nat, first: nat, firstMask: nat, firstBits: nat)
      returns (r: Result<(nat, nat), Error>)
      requires 0 < firstBits <= 255 && (firstBits <= 32 ==> firstMask + 1 == firstBits)
      ensures r.Ok? ==> r.value.1 >= firstBits && (firstBits > 32 || r.value.1 <= 32)
      ensures firstBits <= 32 && r.Ok? ==> Walk(tree, word, first, firstBits) == Found(r.value.0, r.value.1)
      ensures firstBits <= 32 && r.Err? ==> !Usable(Walk(tree, word, first, firstBits), 31)
    {
      hide BitAt;
      var idx: nat, mask: nat, bits: nat := first, firstMask, firstBits;
      ghost var all := Walk(tree, word, first, firstBits);
      while true
        invariant firstBits <= bits <= 255
        invariant firstBits <= 32 ==> mask + 1 == bits && bits <= 32 && all == Walk(tree, word, idx, bits)
        invariant firstBits > 32 ==> bits == firstBits
        decreases 255 - bits
      {
        if 3 * idx + 3 > |tree| {
          return Err(Invalid);
        }
        var next := U16(tree[3 * idx], tree[3 * idx + 1]);
        if next >= LEAF {
          return Ok((next - LEAF, bits));
        }
        mask := mask + 1;
        if bits == 255 {
          return Err(Invalid);
        }
        bits := bits + 1;
        if bits > 31 {
          WalkTooLong(tree, word, idx, bits - 1);
          return Err(Invalid);
        }
        idx := next + BitAt(word, mask);
      }
    }

    /** The walk for codes the lookup does not hold; a shift or width that does not fit panics (`Overflow`). */
    method SlowSymbol(bitBuffer: nat) returns (f: Found)
      ensures f == CodeOf(tree, bitBuffer)
    {
      hide BitAt;
      var root := bitBuffer % 256;
      if 3 * root + 3 > |tree| {
        return Stuck(Invalid);
      }
      var raw: nat, extra := U16(tree[3 * root], tree[3 * root + 1]), tree[3 * root + 2];
      if raw >= LEAF {
        return Found(raw - LEAF, extra);
      }
      if extra >= 64 {
        return Stuck(Overflow);
      }
      var mask: nat, bits: nat := extra, extra + 1;
      ghost var all := CodeOf(tree, bitBuffer);
      while true
        invariant bits == mask + 1 && bits <= 255 && raw < LEAF
        invariant all == Walk(tree, bitBuffer, raw + BitAt(bitBuffer, mask), bits)
        decreases 255 - bits
      {
        var idx: nat := raw + BitAt(bitBuffer, mask);
        if 3 * idx + 3 > |tree| {
          return Stuck(Invalid);
        }
        raw := U16(tree[3 * idx], tree[3 * idx + 1]);
        if raw >= LEAF {
          return Found(raw - LEAF, bits);
        }
        if bits == 255 {
          return Stuck(Overflow);
        }
        mask, bits := mask + 1, bits + 1;
      }
    }

    /** The next code: the lookup entry of the low 16 bits if there is one, else the slow walk. */
    method Symbol(bitBuffer: nat) returns (f: Found)
      requires Valid()
      ensures f == CodeOf(tree, bitBuffer)
    {
      hide CodeOf;
      var key := bitBuffer % LOOKUP;
      var bits := lookupBits[key];
      if bits != 0 {
        LowWord(bitBuffer);
        FoundAgrees(tree, key, bitBuffer, 16);
        return Found(lookupSymbols[key], bits);
      }
      f := SlowSymbol(bitBuffer);
    }

    /** Take bytes while fewer than 24 bits are buffered. */
    static method Refill(src: seq<byte>, sourcePos: nat, bitBuffer: nat, available: nat, ghost consumed: nat)
      returns (sourcePos': nat, bitBuffer': nat, available': nat)
      requires Buffered(src, sourcePos, bitBuffer, available, consumed) && available < 32
      ensures Buffered(src, sourcePos', bitBuffer', available', consumed) && available' < 32
      ensures available' >= REFILL || sourcePos' == |src|
      ensures available' % 8 == available % 8
    {
      hide Buffered, WithByte;
      BufferedLeft(src, sourcePos, bitBuffer, available, consumed);
      sourcePos', bitBuffer', available' := sourcePos, bitBuffer, available;
      while available' < REFILL && sourcePos' < |src|
        invariant Buffered(src, sourcePos', bitBuffer', available', consumed) && available' < 32
        invariant sourcePos' <= |src| && available' % 8 == available % 8
      {
        RefillByte(src, sourcePos', bitBuffer', available', consumed);
        bitBuffer' := WithByte(bitBuffer', available', src[sourcePos']);
        sourcePos' := sourcePos' + 1;
        available' := available' + 8;
      }
    }

    /** Act on one symbol at `pos` of the output. */
    static method Emit(output: array<byte>, pos: nat, prefix: nat, symbol: nat) returns (r: Option<(nat, nat)>)
      requires pos < output.Length
      modifies output
      ensures var e := RefApply(old(output[..pos]), prefix, symbol, output.Length);
              if e.None? then r.None?
              else r.Some? && r.value.0 == |e.value.0| && output[..r.value.0] == e.value.0 && r.value.1 == e.value.1
    {
      hide Repeated;
      var kind, value := (symbol / 256) % 4, symbol % 256;
      ghost var was := output[..pos];
      if kind == 0 {
        output[pos] := value;
        assert output[..pos + 1] == was + [value];
        return Some((pos + 1, prefix));
      } else if kind == 1 {
        if prefix > 0xff {
          return None;
        }
        return Some((pos, if prefix == 0 then value else 256 * prefix + value));
      } else if kind == 2 {
        var count := (if prefix == 0 then 1 else prefix) * value;
        if (value != 1 && value != 2 && value != 4) || value > pos || pos + count > output.Length {
          return None;
        }
        Fill(output, pos, value, count);
        return Some((pos + count, 0));
      } else {
        var distance := prefix + value;
        if distance > pos || pos + value > output.Length {
          return None;
        }
        CopyWithin(output, pos, pos - distance, value);
        return Some((pos + value, 0));
      }
    }

    static method Fill(output: array<byte>, pos: nat, width: nat, count: nat)
      requires 0 < width <= pos && pos + count <= output.Length
      modifies output
      ensures output[..pos + count] == old(output[..pos]) + Repeated(old(output[..pos]), width, count)
    {
      ghost var was := output[..pos];
      var pattern := output[pos - width..pos];
      forall i | 0 <= i < count {
        output[pos + i] := pattern[i % width];
      }
      assert output[..pos + count] == was + Repeated(was, width, count);
    }

    static method CopyWithin(output: array<byte>, pos: nat, start: nat, n: nat)
      requires start + n <= pos && pos + n <= output.Length
      modifies output
      ensures output[..pos + n] == old(output[..pos]) + old(output[..pos])[start..start + n]
    {
      ghost var was := output[..pos];
      forall i | 0 <= i < n {
        output[pos + i] := output[start + i];
      }
      assert output[..pos + n] == was + was[start..start + n];
    }

    /**
     Decode `src` to exactly `size` bytes. It succeeds exactly when the
     bit-at-a-time reference does, within the limit, and every code that the
     reference reads fits the buffer; then the bytes are the reference's.
     */
    method DecodeLimited(src: seq<byte>, size: nat, limit: Option<nat>) returns (r: Result<seq<byte>, Error>)
      requires Valid()
      ensures r.Ok? ==> Reference(tree, src, size) == Some(r.value)
      ensures r.Ok? <==>
                && (limit.Some? ==> size <= limit.value)
                && Reference(tree, src, size).Some? && RunFits(tree, src, size, 0, [], 0)
    {
      hide CodeOf, RefCode, RefApply, Buffered, Usable, RefRun, RunFits;
      if limit.Some? && size > limit.value {
        return Err(Invalid);
      }
      var output := new byte[size](_ => 0);
      var sourcePos: nat, bitBuffer: nat, available: nat, consumed: nat := 0, 0, 0, 0;
      var outputPos: nat, prefix: nat := 0, 0;
      StartBuffer(src);
      ghost var all := RefRun(tree, src, size, 0, [], 0);
      ghost var fits := RunFits(tree, src, size, 0, [], 0);
      while outputPos < size
        invariant Buffered(src, sourcePos, bitBuffer, available, consumed) && available < 32
        invariant outputPos <= size
        invariant Valid()
        invariant all == RefRun(tree, src, size, consumed, output[..outputPos], prefix)
        invariant fits == RunFits(tree, src, size, consumed, output[..outputPos], prefix)
        decreases 8 * |src| - consumed
      {
        sourcePos, bitBuffer, available := Refill(src, sourcePos, bitBuffer, available, consumed);
        var f := Symbol(bitBuffer);
        LookupIsReference(tree, src, sourcePos, bitBuffer, available, consumed);
        RefilledRoom(src, sourcePos, bitBuffer, available, consumed);
        BufferedLeft(src, sourcePos, bitBuffer, available, consumed);
        RunStep(tree, src, size, consumed, output[..outputPos], prefix);
        UsableIs(f, available);
        if f.Stuck? {
          return Err(f.error);
        }
        if f.bits == 0 || f.bits > available {
          return Err(Invalid);
        }
        TakeBits(src, sourcePos, bitBuffer, available, consumed, f.bits);
        bitBuffer := Shr(bitBuffer, f.bits);
        available := available - f.bits;
        consumed := consumed + f.bits;
        var next := Emit(output, outputPos, prefix, f.sym);
        if next.None? {
          return Err(Invalid);
        }
        outputPos, prefix := next.value.0, next.value.1;
      }
      assert output[..outputPos] == output[..];
      RunEnds(tree, src, size, consumed, output[..], prefix);
      if (consumed + 7) / 8 != |src| {
        return Err(Invalid);
      }
      return Ok(output[..]);
    }
  }

  lemma UsableIs(f: Found, left: nat)
    ensures Usable(f, left) <==> f.Found? && 0 < f.bits <= left
  {
  }

  lemma RunEnds(tree: seq<byte>, src: seq<byte>, size: nat, p: nat, out: seq<byte>, prefix: nat)
    requires |out| == size
    ensures RefRun(tree, src, size, p, out, prefix) == Some((out, p)) && RunFits(tree, src, size, p, out, prefix)
  {
  }

  lemma LowWord(x: nat)
    ensures Low(x % LOOKUP, 16) == Low(x, 16) && x % LOOKUP < LOOKUP
  {
    hide Low, Shr, Pow2;
    Pow2Words();
    LowBound(x, 16);
    LowShr(x, 16);
    assert x % LOOKUP == Low(x, 16);
    LowOfLow(x, 16, 16);
  }

  lemma StartBuffer(src: seq<byte>)
    ensures Buffered(src, 0, 0, 0, 0)
  {
  }

  lemma BufferedLeft(src: seq<byte>, sourcePos: nat, bitBuffer: nat, available: nat, consumed: nat)
    requires Buffered(src, sourcePos, bitBuffer, available, consumed)
    ensures consumed + available == 8 * sourcePos && sourcePos <= |src|
  {
  }

  // ----- A code of 25 bits: refused at the start of a byte, accepted behind one bit -----

  /** Root 0 is inner, of width 24, above the leaves 256 and 257; every other root is a leaf of width 1. */
  function LongTreeByte(i: nat): byte {
    if i == 0 then 0 else if i == 1 then 1 else if i == 2 then 24
    else if i % 3 == 0 then (if i < 768 then 65 else 66)
    else if i % 3 == 1 then 0x80
    else 1
  }

  function LongTree(): (tree: seq<byte>)
    ensures |tree| == 774
  {
    seq(774, i requires 0 <= i < 774 => LongTreeByte(i))
  }

  lemma LongTreeEntries(i: nat)
    requires i < 258
    ensures var tree := LongTree();
            var raw, width := U16(tree[3 * i], tree[3 * i + 1]), tree[3 * i + 2];
            if i == 0 then raw == 256 && width == 24
            else raw == LEAF + (if i < 256 then 65 else 66) && width == 1
  {
    hide U16;
    var tree := LongTree();
    U16Is(tree[3 * i], tree[3 * i + 1]);
  }

  /** The decoder can be built from this tree: every 16-bit word has a code of at most 31 bits. */
  lemma LongTreeIsGood(word: nat)
    requires word < LOOKUP
    ensures |LongTree()| >= MIN_TREE && |LongTree()| % 3 == 0 && Usable(CodeOf(LongTree(), word), 31)
  {
    hide LongTree, BitAt;
    LongTreeEntries(word % 256);
    LongTreeEntries(256 + BitAt(word, 24));
  }

  lemma ZeroStream(src: seq<byte>, p: nat, n: nat)
    requires forall i: nat :: p <= i ==> StreamBit(src, i) == 0
    ensures StreamBits(src, p, n) == 0
    decreases n
  {
    hide StreamBit;
    if n > 0 {
      ZeroStream(src, p + 1, n - 1);
    }
  }

  /** In front of zero bits the tree has a code of 25 bits. */
  lemma LongCodeAt(src: seq<byte>, p: nat)
    requires forall i: nat :: p <= i ==> StreamBit(src, i) == 0
    ensures RefCode(LongTree(), src, p) == Found(66, 25)
  {
    hide LongTree, StreamBit;
    ZeroStream(src, p, 8);
    LongTreeEntries(0);
    LongTreeEntries(256);
    assert StreamBit(src, p + 24) == 0;
  }

  lemma ZeroByte(k: nat)
    ensures BitAt(0, k) == 0 && (k > 0 ==> BitAt(1, k) == 0) && BitAt(1, 0) == 1
  {
    ShrAtMost(0, k);
    if k > 0 {
      ShrAtMost(0, k - 1);
      assert Shr(1, k) == Shr(0, k - 1);
    }
  }

  lemma ZerosFrom(src: seq<byte>, p: nat)
    requires (src == [0, 0, 0, 0]) || (src == [1, 0, 0, 0] && p > 0)
    ensures forall i: nat :: p <= i ==> StreamBit(src, i) == 0
  {
    hide BitAt;
    forall i: nat | p <= i
      ensures StreamBit(src, i) == 0
    {
      ZeroByte(i % 8);
    }
  }

  /** Here the reference decodes, and the decoder refuses: a code of 25 bits at bit 0 does not fit 24. */
  lemma LongCodeRefused()
    ensures Reference(LongTree(), [0, 0, 0, 0], 1) == Some([66])
    ensures !RunFits(LongTree(), [0, 0, 0, 0], 1, 0, [], 0)
  {
    hide LongTree, RefCode, RefRun, RunFits, RefApply;
    var src: seq<byte> := [0, 0, 0, 0];
    ZerosFrom(src, 0);
    LongCodeAt(src, 0);
    LongStartDoesNotFit(LongTree(), src, 1);
    LiteralApplies([], 66, 1);
    assert [] + [66] == [66];
    RunTurn(LongTree(), src, 1, 0, [], 0);
    RunEnds(LongTree(), src, 1, 25, [66], 0);
  }

  lemma RunTurn(tree: seq<byte>, src: seq<byte>, size: nat, p: nat, out: seq<byte>, prefix: nat)
    requires |out| < size && RefCode(tree, src, p).Found?
    requires RefCode(tree, src, p).bits > 0 && p + RefCode(tree, src, p).bits <= 8 * |src|
    requires RefApply(out, prefix, RefCode(tree, src, p).sym, size).Some?
    ensures var code := RefCode(tree, src, p); var next := RefApply(out, prefix, code.sym, size).value;
            RefRun(tree, src, size, p, out, prefix) == RefRun(tree, src, size, p + code.bits, next.0, next.1)
  {
    hide RefCode, RefApply;
  }

  /** Here the same code is read at bit 1, where the buffer holds 31 bits, and both decode. */
  lemma LongCodeAccepted()
    ensures Reference(LongTree(), [1, 0, 0, 0], 2) == Some([65, 66])
    ensures RunFits(LongTree(), [1, 0, 0, 0], 2, 0, [], 0)
  {
    hide LongTree, RefCode, RefRun, RunFits, RefApply;
    var src: seq<byte> := [1, 0, 0, 0];
    ShortCodeFirst(src);
    ZerosFrom(src, 1);
    LongCodeAt(src, 1);
    LiteralApplies([], 65, 2);
    LiteralApplies([65], 66, 2);
    assert [] + [65] == [65] && [65] + [66] == [65, 66];
    RunStep(LongTree(), src, 2, 0, [], 0);
    RunStep(LongTree(), src, 2, 1, [65], 0);
    RunEnds(LongTree(), src, 2, 26, [65, 66], 0);
  }

  lemma LiteralApplies(out: seq<byte>, v: byte, size: nat)
    requires |out| < size
    ensures RefApply(out, 0, v, size) == Some((out + [v], 0))
  {
  }

  lemma ShortCodeFirst(src: seq<byte>)
    requires src == [1, 0, 0, 0]
    ensures RefCode(LongTree(), src, 0) == Found(65, 1)
  {
    hide LongTree, BitAt, StreamBit;
    ZerosFrom(src, 1);
    ZeroStream(src, 1, 7);
    FirstBit(src);
    LongTreeEntries(1);
  }

  lemma FirstBit(src: seq<byte>)
    requires src == [1, 0, 0, 0]
    ensures StreamBit(src, 0) == 1
  {
    hide BitAt;
    ZeroByte(0);
  }
}
