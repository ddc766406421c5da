/**
 Restoring the method tokens of an il2cpp `global-metadata.dat` (version 31):
 methods are grouped by type and types by image, and a method's token row is
 its position in its image's methods.
 */
module MetadataTokens {
  import opened Bytes
  import opened Wrappers

  const MAGIC: nat := 0xFAB1_1BAF
  const VERSION: nat := 31
  const HDR_METHODS: nat := 0x30
  const HDR_TYPES: nat := 0xA0
  const HDR_IMAGES: nat := 0xA8
  const METHOD_STRIDE: nat := 0x24
  const METHOD_TOKEN: nat := 0x18
  const TYPE_STRIDE: nat := 0x58
  const TYPE_METHOD_START: nat := 0x24
  const TYPE_METHOD_COUNT: nat := 0x40
  const IMAGE_STRIDE: nat := 0x28
  const IMAGE_TYPE_START: nat := 0x08
  const IMAGE_TYPE_COUNT: nat := 0x0C
  const TOKEN_TABLE: nat := 0x0600_0000
  const ROWS: nat := 0x100_0000
  /** The largest 32-bit value: "no methods", and "no owner yet". */
  const NONE: nat := 0xFFFF_FFFF

  datatype Error = NotMetadata | UnsupportedVersion(version: nat) | Malformed

  datatype Report = Report(version: nat, methods: nat, remapped: nat, modules: nat)

  /** The three tables, by offset and number of records. */
  datatype Tables = Tables(mOff: nat, methods: nat, tOff: nat, types: nat, iOff: nat, images: nat)

  /** One type's methods `from..to`, in image `img`. */
  datatype Claim = Claim(img: nat, from: nat, to: nat)

  // ----- Reading -----

  function ReadU32(d: seq<byte>, o: nat): (r: Option<nat>)
    ensures r.Some? <==> o + 4 <= |d|
    ensures r.Some? ==> r.value < TWO_32
  {
    if o + 4 <= |d| then
      ValBound(d[o..o + 4]);
      Pow2Words();
      Some(Val(d[o..o + 4]))
    else None
  }

  function ReadU16(d: seq<byte>, o: nat): (r: Option<nat>)
    ensures r.Some? <==> o + 2 <= |d|
    ensures r.Some? ==> r.value < 0x1_0000
  {
    if o + 2 <= |d| then
      ValBound(d[o..o + 2]);
      Pow2Words();
      Some(Val(d[o..o + 2]))
    else None
  }

  /** The 32-bit sum, saturating at the largest value. */
  function SatAdd(a: nat, b: nat): nat {
    if a + b < NONE then a + b else NONE
  }

  /** The tables of a supported file whose records fit the file exactly. */
  function Header(d: seq<byte>): (r: Result<Tables, Error>)
    ensures r.Ok? ==> var l := r.value;
              && l.mOff + l.methods * METHOD_STRIDE <= |d|
              && l.tOff + l.types * TYPE_STRIDE <= |d|
              && l.iOff + l.images * IMAGE_STRIDE <= |d|
              && l.methods < NONE && l.images < NONE
  {
    if ReadU32(d, 0) != Some(MAGIC) then Err(NotMetadata)
    else if ReadU32(d, 4).None? then Err(Malformed)
    else if ReadU32(d, 4).value != VERSION then Err(UnsupportedVersion(ReadU32(d, 4).value))
    else if |d| < HDR_IMAGES + 8 then Err(Malformed)
    else
      var mOff, mSize := ReadU32(d, HDR_METHODS).value, ReadU32(d, HDR_METHODS + 4).value;
      var tOff, tSize := ReadU32(d, HDR_TYPES).value, ReadU32(d, HDR_TYPES + 4).value;
      var iOff, iSize := ReadU32(d, HDR_IMAGES).value, ReadU32(d, HDR_IMAGES + 4).value;
      if mSize % METHOD_STRIDE != 0 || tSize % TYPE_STRIDE != 0 || iSize % IMAGE_STRIDE != 0 then Err(Malformed)
      else if mOff + mSize > |d| || tOff + tSize > |d| || iOff + iSize > |d| then Err(Malformed)
      else Ok(Tables(mOff, mSize / METHOD_STRIDE, tOff, tSize / TYPE_STRIDE, iOff, iSize / IMAGE_STRIDE))
  }

  ghost predicate Fits(d: seq<byte>, l: Tables) {
    && l.mOff + l.methods * METHOD_STRIDE <= |d|
    && l.tOff + l.types * TYPE_STRIDE <= |d|
    && l.iOff + l.images * IMAGE_STRIDE <= |d|
  }

  /** The types of image `img`, as a half-open range. */
  function TypeRange(d: seq<byte>, l: Tables, img: nat): (nat, nat)
    requires Fits(d, l) && img < l.images
  {
    var at := l.iOff + img * IMAGE_STRIDE;
    var start := ReadU32(d, at + IMAGE_TYPE_START).value;
    (start, SatAdd(start, ReadU32(d, at + IMAGE_TYPE_COUNT).value))
  }

  /** The methods of type `t` as a half-open range, if it has any. */
  function MethodRange(d: seq<byte>, l: Tables, t: nat): (r: Option<(nat, nat)>)
    requires Fits(d, l) && t < l.types
    ensures r.Some? ==> r.value.0 < NONE
  {
    var at := l.tOff + t * TYPE_STRIDE;
    var start, count := ReadU32(d, at + TYPE_METHOD_START).value, ReadU16(d, at + TYPE_METHOD_COUNT).value;
    if start == NONE || count == 0 then None else Some((start, SatAdd(start, count)))
  }

  // ----- Who owns which method -----

  /** The claims of the types `t..to` of `img`, after `acc`; none if a type does not exist. */
  function ImageClaims(d: seq<byte>, l: Tables, img: nat, t: nat, to: nat, acc: seq<Claim>): Option<seq<Claim>>
    requires Fits(d, l)
    decreases if t < to then to - t else 0
  {
    if t >= to then Some(acc)
    else if t >= l.types then None
    else
      match MethodRange(d, l, t)
      case None => ImageClaims(d, l, img, t + 1, to, acc)
      case Some((from, end)) => ImageClaims(d, l, img, t + 1, to, acc + [Claim(img, from, end)])
  }

  /** The claims of the images `img..`, after `acc`. */
  function AllClaims(d: seq<byte>, l: Tables, img: nat, acc: seq<Claim>): Option<seq<Claim>>
    requires Fits(d, l) && img <= l.images
    decreases l.images - img
  {
    if img == l.images then Some(acc)
    else
      var (start, end) := TypeRange(d, l, img);
      match ImageClaims(d, l, img, start, end, acc)
      case None => None
      case Some(acc') => AllClaims(d, l, img + 1, acc')
  }

  predicate Covers(c: Claim, m: nat) {
    c.from <= m < c.to
  }

  /** No method is claimed twice, and none that does not exist. */
  ghost predicate Disjoint(claims: seq<Claim>, methods: nat) {
    && (forall i, j, m: nat :: 0 <= i < j < |claims| && Covers(claims[i], m) ==> !Covers(claims[j], m))
    && (forall i, m: nat :: 0 <= i < |claims| && Covers(claims[i], m) ==> m < methods)
  }

  /** The image of the claim that covers `m`, or `NONE`. */
  function Owner(claims: seq<Claim>, m: nat): nat {
    if claims == [] then NONE
    else if Covers(claims[|claims| - 1], m) then claims[|claims| - 1].img
    else Owner(claims[..|claims| - 1], m)
  }

  /** The first method of an image, or `NONE`. */
  function First(claims: seq<Claim>, img: nat): nat {
    if claims == [] then NONE
    else
      var c, rest := claims[|claims| - 1], First(claims[..|claims| - 1], img);
      if c.img == img && c.from < rest then c.from else rest
  }

  lemma {:induction false} OwnerIs(claims: seq<Claim>, m: nat)
    requires forall c :: c in claims ==> c.img < NONE
    ensures Owner(claims, m) == NONE <==> forall c :: c in claims ==> !Covers(c, m)
    ensures Owner(claims, m) != NONE ==> exists c :: c in claims && Covers(c, m) && c.img == Owner(claims, m)
  {
    if claims != [] {
      var init := claims[..|claims| - 1];
      assert claims == init + [claims[|claims| - 1]];
      OwnerIs(init, m);
    }
  }

  lemma {:induction false} FirstIs(claims: seq<Claim>, img: nat)
    requires forall c :: c in claims ==> c.from < NONE
    ensures forall c :: c in claims && c.img == img ==> First(claims, img) <= c.from
    ensures First(claims, img) != NONE ==> exists c :: c in claims && c.img == img && c.from == First(claims, img)
    ensures First(claims, img) <= NONE
  {
    if claims != [] {
      var init := claims[..|claims| - 1];
      assert claims == init + [claims[|claims| - 1]];
      FirstIs(init, img);
    }
  }

  /** Claims come from existing images, and a claimed range starts below `NONE`. */
  ghost predicate Sane(claims: seq<Claim>, images: nat) {
    forall c :: c in claims ==> c.img < images && c.from < NONE
  }

  lemma {:induction false} ImageClaimsSane(d: seq<byte>, l: Tables, img: nat, t: nat, to: nat, acc: seq<Claim>)
    requires Fits(d, l) && Sane(acc, img + 1)
    ensures var r := ImageClaims(d, l, img, t, to, acc); (r.Some? ==> Sane(r.value, img + 1) && acc <= r.value)
    decreases if t < to then to - t else 0
  {
    if t < to && t < l.types {
      match MethodRange(d, l, t)
      case None => ImageClaimsSane(d, l, img, t + 1, to, acc);
      case Some((from, end)) => ImageClaimsSane(d, l, img, t + 1, to, acc + [Claim(img, from, end)]);
    }
  }

  lemma {:induction false} AllClaimsSane(d: seq<byte>, l: Tables, img: nat, acc: seq<Claim>)
    requires Fits(d, l) && img <= l.images && Sane(acc, img)
    ensures var r := AllClaims(d, l, img, acc); (r.Some? ==> Sane(r.value, l.images) && acc <= r.value)
    decreases l.images - img
  {
    if img < l.images {
      var (start, end) := TypeRange(d, l, img);
      ImageClaimsSane(d, l, img, start, end, acc);
      var r := ImageClaims(d, l, img, start, end, acc);
      if r.Some? {
        AllClaimsSane(d, l, img + 1, r.value);
      }
    }
  }

  // ----- The tokens -----

  /** The claims of a well-formed file: they exist, are disjoint, and cover every method. */
  ghost predicate Owned(d: seq<byte>, l: Tables, claims: seq<Claim>) {
    && Fits(d, l) && l.images < NONE
    && AllClaims(d, l, 0, []) == Some(claims)
    && Disjoint(claims, l.methods)
    && forall m :: 0 <= m < l.methods ==> Owner(claims, m) != NONE
  }

  /** A method is never below the first method of its image. */
  lemma LocalIndex(d: seq<byte>, l: Tables, claims: seq<Claim>, m: nat)
    requires Owned(d, l, claims) && m < l.methods
    ensures First(claims, Owner(claims, m)) <= m && Owner(claims, m) < l.images
  {
    AllClaimsSane(d, l, 0, []);
    OwnerIs(claims, m);
    FirstIs(claims, Owner(claims, m));
  }

  /** Row 1 is the first method of the image; rows are 24 bits wide. */
  function Token(claims: seq<Claim>, m: nat): (t: nat)
    requires First(claims, Owner(claims, m)) <= m
    ensures TOKEN_TABLE <= t < TOKEN_TABLE + ROWS
  {
    TOKEN_TABLE + (m - First(claims, Owner(claims, m)) + 1) % ROWS
  }

  function TokenAt(l: Tables, m: nat): nat {
    l.mOff + m * METHOD_STRIDE + METHOD_TOKEN
  }

  /** The file with the tokens of the first `n` methods rewritten. */
  function Patched(d: seq<byte>, l: Tables, claims: seq<Claim>, n: nat): (out: seq<byte>)
    requires Fits(d, l) && n <= l.methods
    requires forall m :: 0 <= m < n ==> First(claims, Owner(claims, m)) <= m
    ensures |out| == |d|
  {
    if n == 0 then d
    else Splice(Patched(d, l, claims, n - 1), TokenAt(l, n - 1), Le(Token(claims, n - 1), 4))
  }

  /** How many of the first `n` tokens differ from the file's. */
  function Remapped(d: seq<byte>, l: Tables, claims: seq<Claim>, n: nat): nat
    requires Fits(d, l) && n <= l.methods
    requires forall m :: 0 <= m < n ==> First(claims, Owner(claims, m)) <= m
  {
    if n == 0 then 0
    else
      Remapped(d, l, claims, n - 1)
      + if d[TokenAt(l, n - 1)..TokenAt(l, n - 1) + 4] != Le(Token(claims, n - 1), 4) then 1 else 0
  }

  /** How many of the first `n` images own a method. */
  function Modules(claims: seq<Claim>, n: nat): nat {
    if n == 0 then 0 else Modules(claims, n - 1) + if First(claims, n - 1) != NONE then 1 else 0
  }

  lemma {:induction false} PatchedTokens(d: seq<byte>, l: Tables, claims: seq<Claim>, n: nat)
    requires Fits(d, l) && n <= l.methods
    requires forall m :: 0 <= m < n ==> First(claims, Owner(claims, m)) <= m
    ensures var out := Patched(d, l, claims, n);
            && (forall m :: 0 <= m < n ==> out[TokenAt(l, m)..TokenAt(l, m) + 4] == Le(Token(claims, m), 4))
            && (forall k :: 0 <= k < |d| && (forall m :: 0 <= m < n ==> !(TokenAt(l, m) <= k < TokenAt(l, m) + 4)) ==>
                out[k] == d[k])
  {
    hide Token, Le, Owner, First;
    if n > 0 {
      PatchedTokens(d, l, claims, n - 1);
      var prev, out := Patched(d, l, claims, n - 1), Patched(d, l, claims, n);
      forall m | 0 <= m < n
        ensures out[TokenAt(l, m)..TokenAt(l, m) + 4] == Le(Token(claims, m), 4)
      {
        if m < n - 1 {
          assert out[TokenAt(l, m)..TokenAt(l, m) + 4] == prev[TokenAt(l, m)..TokenAt(l, m) + 4];
        }
      }
    }
  }

  /** The token of a method whose turn has not come is the file's. */
  lemma NotYetPatched(d: seq<byte>, l: Tables, claims: seq<Claim>, n: nat)
    requires Fits(d, l) && n < l.methods
    requires forall m :: 0 <= m < n ==> First(claims, Owner(claims, m)) <= m
    ensures TokenAt(l, n) + 4 <= |d|
    ensures Patched(d, l, claims, n)[TokenAt(l, n)..TokenAt(l, n) + 4] == d[TokenAt(l, n)..TokenAt(l, n) + 4]
  {
    hide Token, Le, Owner, First, Patched;
    PatchedTokens(d, l, claims, n);
  }

  /** The effect of one more method. */
  lemma PatchedNext(d: seq<byte>, l: Tables, claims: seq<Claim>, n: nat)
    requires Fits(d, l) && n < l.methods
    requires forall m :: 0 <= m <= n ==> First(claims, Owner(claims, m)) <= m
    ensures TokenAt(l, n) + 4 <= |d|
    ensures Patched(d, l, claims, n + 1) == Splice(Patched(d, l, claims, n), TokenAt(l, n), Le(Token(claims, n), 4))
    ensures Remapped(d, l, claims, n + 1)
         == Remapped(d, l, claims, n) + if d[TokenAt(l, n)..TokenAt(l, n) + 4] != Le(Token(claims, n), 4) then 1 else 0
  {
    hide Token, Le, Owner, First;
  }

  // ----- The whole restoration -----

  lemma LocalIndices(d: seq<byte>, l: Tables, claims: seq<Claim>)
    requires Owned(d, l, claims)
    ensures forall m: nat :: m < l.methods ==> First(claims, Owner(claims, m)) <= m && Owner(claims, m) < l.images
  {
    forall m: nat | m < l.methods
      ensures First(claims, Owner(claims, m)) <= m && Owner(claims, m) < l.images
    {
      LocalIndex(d, l, claims, m);
    }
  }

  /** What restoring a file gives: the patched bytes and the counts, or the reason why not. */
  ghost function Restored(d: seq<byte>): Result<(seq<byte>, Report), Error> {
    match Header(d)
    case Err(e) => Err(e)
    case Ok(l) =>
      match AllClaims(d, l, 0, [])
      case None => Err(Malformed)
      case Some(claims) =>
        if !Owned(d, l, claims) then Err(Malformed)
        else
          LocalIndices(d, l, claims);
          Ok((Patched(d, l, claims, l.methods),
              Report(VERSION, l.methods, Remapped(d, l, claims, l.methods), Modules(claims, l.images))))
  }

  /** `moduleOf` records the owners after the claims so far. */
  ghost predicate Tracked(moduleOf: seq<nat>, claims: seq<Claim>) {
    Disjoint(claims, |moduleOf|) && forall m: nat :: m < |moduleOf| ==> moduleOf[m] == Owner(claims, m)
  }

  lemma ClashStays(claims: seq<Claim>, all: seq<Claim>, methods: nat)
    requires claims <= all && !Disjoint(claims, methods)
    ensures !Disjoint(all, methods)
  {
    forall i | 0 <= i < |claims| ensures all[i] == claims[i] {
    }
  }

  /** Mark one type's methods; fails when one does not exist or already has an owner. */
  method FillRange(moduleOf: array<nat>, c: Claim, ghost claims: seq<Claim>) returns (ok: bool)
    requires Tracked(moduleOf[..], claims) && c.img < NONE && Sane(claims, NONE)
    modifies moduleOf
    ensures ok ==> Tracked(moduleOf[..], claims + [c])
    ensures !ok ==> !Disjoint(claims + [c], moduleOf.Length)
  {
    ghost var all := claims + [c];
    ghost var was := moduleOf[..];
    assert all[|claims|] == c;
    var m := c.from;
    while m < c.to
      invariant c.from <= m && (if c.from <= c.to then m <= c.to else m == c.from)
                && (m > c.from ==> m <= moduleOf.Length)
      invariant forall i: nat :: i < moduleOf.Length ==> moduleOf[i] == if c.from <= i < m then c.img else was[i]
      invariant forall i: nat :: c.from <= i < m ==> Owner(claims, i) == NONE
    {
      if m >= moduleOf.Length {
        assert Covers(all[|claims|], m);
        return false;
      }
      if moduleOf[m] != NONE {
        OwnerIs(claims, m);
        ghost var k :| 0 <= k < |claims| && Covers(claims[k], m);
        assert all[k] == claims[k] && Covers(all[|claims|], m);
        return false;
      }
      moduleOf[m] := c.img;
      m := m + 1;
    }
    assert forall i: nat :: i < |was| ==> moduleOf[..][i] == moduleOf[i];
    FilledTracked(was, moduleOf[..], claims, c);
    return true;
  }

  lemma FilledTracked(was: seq<nat>, now: seq<nat>, claims: seq<Claim>, c: Claim)
    requires Tracked(was, claims) && Sane(claims, NONE) && (c.from < c.to ==> c.to <= |was|)
    requires Marked(was, now, c) && Unclaimed(claims, c)
    ensures Tracked(now, claims + [c])
  {
    hide Owner, Covers;
    StillDisjoint(claims, c, |was|);
    forall m: nat | m < |now|
      ensures now[m] == Owner(claims + [c], m)
    {
      OwnerNext(claims, c, m);
      CoversIs(c, m);
    }
  }

  /** `now` is `was` with the methods of `c` given to its image. */
  predicate Marked(was: seq<nat>, now: seq<nat>, c: Claim) {
    |now| == |was| && forall i: nat :: i < |was| ==> now[i] == if c.from <= i < c.to then c.img else was[i]
  }

  ghost predicate Unclaimed(claims: seq<Claim>, c: Claim) {
    forall i: nat :: c.from <= i < c.to ==> Owner(claims, i) == NONE
  }

  lemma CoversIs(c: Claim, m: nat)
    ensures Covers(c, m) <==> c.from <= m < c.to
  {
  }

  /** A claim to methods without an owner overlaps no earlier claim. */
  lemma StillDisjoint(claims: seq<Claim>, c: Claim, methods: nat)
    requires Disjoint(claims, methods) && Sane(claims, NONE) && Unclaimed(claims, c)
             && (c.from < c.to ==> c.to <= methods)
    ensures Disjoint(claims + [c], methods)
  {
    hide Owner;
    var all := claims + [c];
    forall i, j, m: nat | 0 <= i < j < |all| && Covers(all[i], m)
      ensures !Covers(all[j], m)
    {
      if j == |claims| {
        OwnerIs(claims, m);
        assert claims[i] in claims;
      }
    }
  }

  lemma OwnerNext(claims: seq<Claim>, c: Claim, m: nat)
    ensures Owner(claims + [c], m) == if Covers(c, m) then c.img else Owner(claims, m)
  {
    assert (claims + [c])[..|claims|] == claims;
  }

  lemma FirstNext(claims: seq<Claim>, c: Claim, img: nat)
    ensures First(claims + [c], img)
            == if c.img == img && c.from < First(claims, img) then c.from else First(claims, img)
  {
    assert (claims + [c])[..|claims|] == claims;
  }

  /** One image: claim the methods of its types, and note the lowest. */
  method MapImage(d: seq<byte>, l: Tables, img: nat, moduleOf: array<nat>, ghost claims: seq<Claim>)
    returns (ok: bool, first: nat, ghost claims': seq<Claim>)
    requires Fits(d, l) && img < l.images < NONE && moduleOf.Length == l.methods
    requires Tracked(moduleOf[..], claims) && Sane(claims, img) && First(claims, img) == NONE
    modifies moduleOf
    ensures var (start, end) := TypeRange(d, l, img); var r := ImageClaims(d, l, img, start, end, claims);
            if ok then r == Some(claims') && Tracked(moduleOf[..], claims') && first == First(claims', img)
            else r.None? || !Disjoint(r.value, l.methods)
  {
    hide First, Disjoint, Tracked, MethodRange;
    claims' := claims;
    first := NONE;
    var (start, end) := TypeRange(d, l, img);
    ghost var all := ImageClaims(d, l, img, start, end, claims);
    var t := start;
    while t < end
      invariant Tracked(moduleOf[..], claims') && Sane(claims', img + 1) && first == First(claims', img)
      invariant all == ImageClaims(d, l, img, t, end, claims')
    {
      if t >= l.types {
        return false, first, claims';
      }
      var range := MethodRange(d, l, t);
      if range.Some? {
        var c := Claim(img, range.value.0, range.value.1);
        first := if c.from < first then c.from else first;
        FirstNext(claims', c, img);
        ghost var next := claims' + [c];
        assert all == ImageClaims(d, l, img, t + 1, end, next);
        var filled := FillRange(moduleOf, c, claims');
        if !filled {
          ImageClaimsSane(d, l, img, t + 1, end, next);
          if all.Some? {
            ClashStays(next, all.value, l.methods);
          }
          return false, first, claims';
        }
        claims' := next;
      }
      t := t + 1;
    }
    ok := true;
  }

  lemma {:induction false} NoClaimsYet(claims: seq<Claim>, img: nat)
    requires Sane(claims, img)
    ensures First(claims, img) == NONE
  {
    if claims != [] {
      var init := claims[..|claims| - 1];
      assert claims == init + [claims[|claims| - 1]];
      NoClaimsYet(init, img);
    }
  }

  /** Another image's claims do not change an image's first method. */
  lemma {:induction false} FirstKept(d: seq<byte>, l: Tables, img: nat, t: nat, to: nat, claims: seq<Claim>, other: nat)
    requires Fits(d, l) && other != img && ImageClaims(d, l, img, t, to, claims).Some?
    ensures First(ImageClaims(d, l, img, t, to, claims).value, other) == First(claims, other)
    decreases if t < to then to - t else 0
  {
    hide MethodRange;
    if t < to && t < l.types {
      match MethodRange(d, l, t)
      case None => FirstKept(d, l, img, t + 1, to, claims, other);
      case Some((from, end)) =>
        FirstNext(claims, Claim(img, from, end), other);
        FirstKept(d, l, img, t + 1, to, claims + [Claim(img, from, end)], other);
    }
  }

  /** All images: the owner of every method and the first method of every image. */
  method MapMethods(d: seq<byte>, l: Tables)
    returns (ok: bool, moduleOf: array<nat>, moduleFirst: array<nat>, ghost claims: seq<Claim>)
    requires Fits(d, l) && l.images < NONE
    ensures fresh(moduleOf) && fresh(moduleFirst) && moduleOf.Length == l.methods && moduleFirst.Length == l.images
    ensures var r := AllClaims(d, l, 0, []);
            if ok then
              r == Some(claims) && Tracked(moduleOf[..], claims)
              && forall i: nat :: i < l.images ==> moduleFirst[i] == First(claims, i)
            else r.None? || !Disjoint(r.value, l.methods)
  {
    hide First, Disjoint, Tracked, TypeRange;
    moduleOf := new nat[l.methods](_ => NONE);
    moduleFirst := new nat[l.images](_ => NONE);
    claims := [];
    NothingTracked(moduleOf[..]);
    ghost var all := AllClaims(d, l, 0, []);
    for img := 0 to l.images
      invariant Tracked(moduleOf[..], claims) && Sane(claims, img)
      invariant all == AllClaims(d, l, img, claims)
      invariant forall i: nat :: i < img ==> moduleFirst[i] == First(claims, i)
    {
      NoClaimsYet(claims, img);
      ghost var (start, end) := TypeRange(d, l, img);
      ghost var next := ImageClaims(d, l, img, start, end, claims);
      ImageClaimsSane(d, l, img, start, end, claims);
      ghost var claims';
      var first;
      ok, first, claims' := MapImage(d, l, img, moduleOf, claims);
      if !ok {
        if next.Some? {
          AllClaimsSane(d, l, img + 1, next.value);
          if all.Some? {
            ClashStays(next.value, all.value, l.methods);
          }
        }
        return;
      }
      moduleFirst[img] := first;
      forall i: nat | i < img
        ensures First(claims', i) == First(claims, i)
      {
        FirstKept(d, l, img, start, end, claims, i);
      }
      claims := claims';
    }
    ok := true;
  }

  lemma NothingTracked(moduleOf: seq<nat>)
    requires forall m :: 0 <= m < |moduleOf| ==> moduleOf[m] == NONE
    ensures Tracked(moduleOf, [])
  {
  }

  /** Rewrite the tokens of a copy of the file; refuse a method without an owner. */
  method Deobfuscate(data: seq<byte>) returns (r: Result<(seq<byte>, Report), Error>)
    ensures r == Restored(data)
  {
    hide Owned, Patched, Remapped, AllClaims, Header, Modules;
    var header := Header(data);
    if header.Err? {
      return Err(header.error);
    }
    var l := header.value;
    HeaderFits(data);
    var ok, moduleOf, moduleFirst, claims := MapMethods(data, l);
    if !ok {
      NotOwned(data, l);
      return Err(Malformed);
    }
    var out := new byte[|data|](i requires 0 <= i < |data| => data[i]);
    var remapped;
    ok, remapped := Rewrite(data, l, claims, moduleOf, moduleFirst, out);
    if !ok {
      return Err(Malformed);
    }
    var restored := out[..];
    var modules: nat := 0;
    ModulesNext(claims, 0);
    for i := 0 to l.images
      invariant modules == Modules(claims, i)
      invariant forall k: nat :: k < l.images ==> moduleFirst[k] == First(claims, k)
    {
      ModulesNext(claims, i);
      if moduleFirst[i] != NONE {
        modules := modules + 1;
      }
    }
    return Ok((restored, Report(VERSION, l.methods, remapped, modules)));
  }

  lemma ModulesNext(claims: seq<Claim>, n: nat)
    ensures Modules(claims, 0) == 0
    ensures Modules(claims, n + 1) == Modules(claims, n) + if First(claims, n) != NONE then 1 else 0
  {
  }

  lemma HeaderFits(d: seq<byte>)
    requires Header(d).Ok?
    ensures Fits(d, Header(d).value) && Header(d).value.images < NONE
  {
  }

  lemma NotOwned(d: seq<byte>, l: Tables)
    requires Fits(d, l)
    requires AllClaims(d, l, 0, []).None? || !Disjoint(AllClaims(d, l, 0, []).value, l.methods)
    ensures AllClaims(d, l, 0, []).None? || !Owned(d, l, AllClaims(d, l, 0, []).value)
  {
  }

  method Rewrite(data: seq<byte>, l: Tables, ghost claims: seq<Claim>, moduleOf: array<nat>, moduleFirst: array<nat>,
                 out: array<byte>)
    returns (ok: bool, remapped: nat)
    requires Fits(data, l) && l.images < NONE && AllClaims(data, l, 0, []) == Some(claims)
    requires moduleOf.Length == l.methods && Tracked(moduleOf[..], claims)
    requires moduleFirst.Length == l.images && forall i: nat :: i < l.images ==> moduleFirst[i] == First(claims, i)
    requires out[..] == data
    modifies out
    ensures ok <==> Owned(data, l, claims)
    ensures ok ==> (forall m: nat :: m < l.methods ==> First(claims, Owner(claims, m)) <= m)
    ensures ok ==> out[..] == Patched(data, l, claims, l.methods) && remapped == Remapped(data, l, claims, l.methods)
  {
    hide Owner, First, AllClaims, Patched, Remapped;
    remapped := 0;
    NonePatched(data, l, claims);
    for m := 0 to l.methods
      invariant forall i: nat :: i < m ==> Owner(claims, i) != NONE && First(claims, Owner(claims, i)) <= i
      invariant out[..] == Patched(data, l, claims, m)
      invariant remapped == Remapped(data, l, claims, m)
    {
      if moduleOf[m] == NONE {
        return false, remapped;
      }
      OwnerExists(data, l, claims, m);
      var local := m - moduleFirst[moduleOf[m]];
      var changed := RewriteToken(data, l, claims, m, local, out);
      if changed {
        remapped := remapped + 1;
      }
    }
    ok := true;
  }

  /** Write one token unless it is there already. */
  method RewriteToken(data: seq<byte>, l: Tables, ghost claims: seq<Claim>, m: nat, local: nat, out: array<byte>)
    returns (changed: bool)
    requires Fits(data, l) && m < l.methods
    requires forall i: nat :: i <= m ==> First(claims, Owner(claims, i)) <= i
    requires local == m - First(claims, Owner(claims, m)) && out[..] == Patched(data, l, claims, m)
    modifies out
    ensures out[..] == Patched(data, l, claims, m + 1)
    ensures Remapped(data, l, claims, m + 1) == Remapped(data, l, claims, m) + if changed then 1 else 0
  {
    hide Owner, First, Le, Patched, Remapped, Splice;
    var token := TOKEN_TABLE + (local + 1) % ROWS;
    var off := TokenAt(l, m);
    NotYetPatched(data, l, claims, m);
    PatchedNext(data, l, claims, m);
    assert out[..][off..off + 4] == out[off..off + 4];
    changed := out[off..off + 4] != Le(token, 4);
    if changed {
      WriteToken(out, off, token);
    } else {
      SpliceSame(out[..], off, Le(token, 4));
    }
  }

  lemma SpliceSame(d: seq<byte>, off: nat, bytes: seq<byte>)
    requires off + |bytes| <= |d| && d[off..off + |bytes|] == bytes
    ensures Splice(d, off, bytes) == d
  {
  }

  method WriteToken(out: array<byte>, off: nat, token: nat)
    requires off + 4 <= out.Length
    modifies out
    ensures out[..] == Splice(old(out[..]), off, Le(token, 4))
  {
    var bytes := Le(token, 4);
    forall i | 0 <= i < 4 {
      out[off + i] := bytes[i];
    }
  }

  lemma OwnerExists(d: seq<byte>, l: Tables, claims: seq<Claim>, m: nat)
    requires Fits(d, l) && AllClaims(d, l, 0, []) == Some(claims) && Owner(claims, m) != NONE && l.images < NONE
    ensures Owner(claims, m) < l.images && First(claims, Owner(claims, m)) <= m
  {
    AllClaimsSane(d, l, 0, []);
    OwnerIs(claims, m);
    FirstIs(claims, Owner(claims, m));
  }

  // ----- Main results -----

  /** The two methods belong to the same image. */
  predicate SameImage(claims: seq<Claim>, a: nat, b: nat) {
    Owner(claims, a) == Owner(claims, b)
  }

  /** On success every method has exactly one claiming type, and lies at or above its image's first method. */
  lemma OwnedExactlyOnce(d: seq<byte>, l: Tables, claims: seq<Claim>, m: nat)
    requires Owned(d, l, claims) && m < l.methods
    ensures exists i :: 0 <= i < |claims| && Covers(claims[i], m) && claims[i].img == Owner(claims, m)
    ensures forall i, j :: 0 <= i < |claims| && 0 <= j < |claims| && Covers(claims[i], m) && Covers(claims[j], m) ==>
            i == j
    ensures Owner(claims, m) < l.images && First(claims, Owner(claims, m)) <= m
  {
    LocalIndex(d, l, claims, m);
    AllClaimsSane(d, l, 0, []);
    OwnerIs(claims, m);
    var c :| c in claims && Covers(c, m) && c.img == Owner(claims, m);
    var i :| 0 <= i < |claims| && claims[i] == c;
    assert Covers(claims[i], m);
  }

  /** Below 2^24 methods, two methods of one image never get the same token. */
  lemma TokensDistinct(d: seq<byte>, l: Tables, claims: seq<Claim>, a: nat, b: nat)
    requires Owned(d, l, claims) && a < b < l.methods < ROWS && SameImage(claims, a, b)
    ensures First(claims, Owner(claims, a)) <= a && First(claims, Owner(claims, b)) <= b
    ensures Token(claims, a) != Token(claims, b)
  {
    hide Owner, First, Owned;
    LocalIndex(d, l, claims, a);
    LocalIndex(d, l, claims, b);
  }

  /** When an image's methods are the `k` methods from its first on, their tokens are the rows 1 to `k`. */
  lemma TokensContiguous(d: seq<byte>, l: Tables, claims: seq<Claim>, img: nat, k: nat, m: nat)
    requires Owned(d, l, claims) && m < l.methods && k < ROWS
    requires forall j: nat :: j < l.methods ==>
             (Owner(claims, j) == img <==> First(claims, img) <= j < First(claims, img) + k)
    requires Owner(claims, m) == img
    ensures First(claims, img) <= m && Token(claims, m) == TOKEN_TABLE + (m - First(claims, img)) + 1
    ensures 1 <= Token(claims, m) - TOKEN_TABLE <= k
  {
    hide Owner, First, Owned;
    LocalIndex(d, l, claims, m);
  }

  /** Byte `k` belongs to some method's token. */
  predicate InToken(l: Tables, k: nat) {
    exists m :: 0 <= m < l.methods && TokenAt(l, m) <= k < TokenAt(l, m) + 4
  }

  lemma {:induction false} NothingRemapped(d: seq<byte>, l: Tables, claims: seq<Claim>, n: nat)
    requires Fits(d, l) && n <= l.methods && forall m :: 0 <= m < n ==> First(claims, Owner(claims, m)) <= m
    ensures Remapped(d, l, claims, n) == 0 <==> Patched(d, l, claims, n) == d
  {
    hide Owner, First, Le, Patched, Remapped, Splice, Token;
    if n == 0 {
      NonePatched(d, l, claims);
    } else {
      NothingRemapped(d, l, claims, n - 1);
      var at, prev := TokenAt(l, n - 1), Patched(d, l, claims, n - 1);
      NotYetPatched(d, l, claims, n - 1);
      PatchedNext(d, l, claims, n - 1);
      SpliceIsIdentity(d, prev, at, Le(Token(claims, n - 1), 4));
    }
  }

  lemma NonePatched(d: seq<byte>, l: Tables, claims: seq<Claim>)
    requires Fits(d, l)
    ensures Patched(d, l, claims, 0) == d && Remapped(d, l, claims, 0) == 0
  {
  }

  lemma SpliceIsIdentity(d: seq<byte>, prev: seq<byte>, at: nat, bytes: seq<byte>)
    requires |prev| == |d| && |bytes| == 4 && at + 4 <= |d| && prev[at..at + 4] == d[at..at + 4]
    ensures Splice(prev, at, bytes) == d <==> prev == d && d[at..at + 4] == bytes
  {
    var out := Splice(prev, at, bytes);
    assert out[at..at + 4] == bytes;
    if out == d {
      forall k | 0 <= k < |d|
        ensures prev[k] == d[k]
      {
        if at <= k < at + 4 {
          assert prev[k] == prev[at..at + 4][k - at];
          assert d[k] == d[at..at + 4][k - at];
        } else {
          assert out[k] == prev[k];
        }
      }
    }
    if prev == d && d[at..at + 4] == bytes {
      assert out == d;
    }
  }

  /** A successful run changes token bytes only, writes every token, and reports 0 exactly when nothing changes. */
  lemma RestoredBytes(d: seq<byte>)
    requires Restored(d).Ok?
    ensures var l := Header(d).value; var claims := AllClaims(d, l, 0, []).value;
            var (out, report) := Restored(d).value;
            && Owned(d, l, claims) && |out| == |d|
            && (forall k :: 0 <= k < |d| && !InToken(l, k) ==> out[k] == d[k])
            && (forall m: nat :: m < l.methods ==> First(claims, Owner(claims, m)) <= m)
            && (forall m: nat :: m < l.methods ==> out[TokenAt(l, m)..TokenAt(l, m) + 4] == Le(Token(claims, m), 4))
            && (report.remapped == 0 <==> out == d)
  {
    hide Owned, Patched, Remapped, AllClaims, Header, Modules, Le, Owner, First;
    var l := Header(d).value;
    var claims := AllClaims(d, l, 0, []).value;
    HeaderFits(d);
    LocalIndices(d, l, claims);
    PatchedTokens(d, l, claims, l.methods);
    NothingRemapped(d, l, claims, l.methods);
  }

  // ----- Running it twice -----

  /** No token lies in a field that the run reads. */
  ghost predicate TokensClear(l: Tables) {
    && (forall k :: 0 <= k < 8 || HDR_METHODS <= k < HDR_METHODS + 8 || HDR_TYPES <= k < HDR_IMAGES + 8 ==>
        !InToken(l, k))
    && (forall t, k :: 0 <= t < l.types && InType(l, t, k) ==> !InToken(l, k))
    && (forall i, k :: 0 <= i < l.images && InImage(l, i, k) ==> !InToken(l, k))
  }

  predicate InType(l: Tables, t: nat, k: nat) {
    var at := l.tOff + t * TYPE_STRIDE;
    at + TYPE_METHOD_START <= k < at + TYPE_METHOD_START + 4 || at + TYPE_METHOD_COUNT <= k < at + TYPE_METHOD_COUNT + 2
  }

  predicate InImage(l: Tables, i: nat, k: nat) {
    var at := l.iOff + i * IMAGE_STRIDE;
    at + IMAGE_TYPE_START <= k < at + IMAGE_TYPE_COUNT + 4
  }

  predicate InHeader(k: nat) {
    k < 8 || HDR_METHODS <= k < HDR_METHODS + 8 || HDR_TYPES <= k < HDR_IMAGES + 8
  }

  /** Every field that the run reads has the same bytes in both files. */
  ghost predicate FieldsKept(d: seq<byte>, out: seq<byte>, l: Tables) {
    && |out| == |d|
    && (forall k: nat :: k < |d| && InHeader(k) ==> out[k] == d[k])
    && (forall t: nat, k: nat :: t < l.types && InType(l, t, k) && k < |d| ==> out[k] == d[k])
    && (forall i: nat, k: nat :: i < l.images && InImage(l, i, k) && k < |d| ==> out[k] == d[k])
  }

  /** Without tokens over the fields they are kept, as a run changes tokens only. */
  lemma ClearKeepsFields(d: seq<byte>)
    requires Restored(d).Ok? && TokensClear(Header(d).value)
    ensures FieldsKept(d, Restored(d).value.0, Header(d).value)
  {
    hide Owned, Patched, Remapped, AllClaims, Header, Modules, Le, Owner, First, InToken, InType, InImage, Restored;
    RestoredBytes(d);
  }

  lemma SameHeader(d: seq<byte>, out: seq<byte>, l: Tables)
    requires Header(d) == Ok(l) && FieldsKept(d, out, l)
    ensures Header(out) == Ok(l)
  {
    hide ReadU32;
    SameRead(d, out, 0);
    SameRead(d, out, 4);
    SameRead(d, out, HDR_METHODS);
    SameRead(d, out, HDR_METHODS + 4);
    SameRead(d, out, HDR_TYPES);
    SameRead(d, out, HDR_TYPES + 4);
    SameRead(d, out, HDR_IMAGES);
    SameRead(d, out, HDR_IMAGES + 4);
  }

  lemma SameRead(d: seq<byte>, out: seq<byte>, o: nat)
    requires |out| == |d| && forall k :: o <= k < o + 4 && k < |d| ==> out[k] == d[k]
    ensures ReadU32(out, o) == ReadU32(d, o)
  {
    if o + 4 <= |d| {
      assert out[o..o + 4] == d[o..o + 4];
    }
  }

  lemma SameRead16(d: seq<byte>, out: seq<byte>, o: nat)
    requires |out| == |d| && forall k :: o <= k < o + 2 && k < |d| ==> out[k] == d[k]
    ensures ReadU16(out, o) == ReadU16(d, o)
  {
    if o + 2 <= |d| {
      assert out[o..o + 2] == d[o..o + 2];
    }
  }

  lemma SameRanges(d: seq<byte>, out: seq<byte>, l: Tables)
    requires Fits(d, l) && FieldsKept(d, out, l)
    ensures Fits(out, l)
    ensures forall i: nat :: i < l.images ==> TypeRange(out, l, i) == TypeRange(d, l, i)
    ensures forall t: nat :: t < l.types ==> MethodRange(out, l, t) == MethodRange(d, l, t)
  {
    hide ReadU32, ReadU16;
    forall i: nat | i < l.images
      ensures TypeRange(out, l, i) == TypeRange(d, l, i)
    {
      assert forall k: nat :: InImage(l, i, k) && k < |d| ==> out[k] == d[k];
      SameRead(d, out, l.iOff + i * IMAGE_STRIDE + IMAGE_TYPE_START);
      SameRead(d, out, l.iOff + i * IMAGE_STRIDE + IMAGE_TYPE_COUNT);
    }
    forall t: nat | t < l.types
      ensures MethodRange(out, l, t) == MethodRange(d, l, t)
    {
      assert forall k: nat :: InType(l, t, k) && k < |d| ==> out[k] == d[k];
      SameRead(d, out, l.tOff + t * TYPE_STRIDE + TYPE_METHOD_START);
      SameRead16(d, out, l.tOff + t * TYPE_STRIDE + TYPE_METHOD_COUNT);
    }
  }

  lemma {:induction false} SameImageClaims(d: seq<byte>, out: seq<byte>, l: Tables, img: nat, t: nat, to: nat,
                                           acc: seq<Claim>)
    requires Fits(d, l) && Fits(out, l)
    requires forall t: nat :: t < l.types ==> MethodRange(out, l, t) == MethodRange(d, l, t)
    ensures ImageClaims(out, l, img, t, to, acc) == ImageClaims(d, l, img, t, to, acc)
    decreases if t < to then to - t else 0
  {
    hide MethodRange;
    if t < to && t < l.types {
      match MethodRange(d, l, t)
      case None => SameImageClaims(d, out, l, img, t + 1, to, acc);
      case Some((from, end)) => SameImageClaims(d, out, l, img, t + 1, to, acc + [Claim(img, from, end)]);
    }
  }

  lemma {:induction false} SameClaims(d: seq<byte>, out: seq<byte>, l: Tables, img: nat, acc: seq<Claim>)
    requires Fits(d, l) && Fits(out, l) && img <= l.images
    requires forall i: nat :: i < l.images ==> TypeRange(out, l, i) == TypeRange(d, l, i)
    requires forall t: nat :: t < l.types ==> MethodRange(out, l, t) == MethodRange(d, l, t)
    ensures AllClaims(out, l, img, acc) == AllClaims(d, l, img, acc)
    decreases l.images - img
  {
    hide MethodRange, TypeRange, ImageClaims;
    if img < l.images {
      var (start, end) := TypeRange(d, l, img);
      SameImageClaims(d, out, l, img, start, end, acc);
      var r := ImageClaims(d, l, img, start, end, acc);
      if r.Some? {
        SameClaims(d, out, l, img + 1, r.value);
      }
    }
  }

  lemma {:induction false} PatchedAgain(d: seq<byte>, l: Tables, claims: seq<Claim>, n: nat)
    requires Fits(d, l) && n <= l.methods && forall m :: 0 <= m < n ==> First(claims, Owner(claims, m)) <= m
    requires forall m: nat :: m < n ==> d[TokenAt(l, m)..TokenAt(l, m) + 4] == Le(Token(claims, m), 4)
    ensures Patched(d, l, claims, n) == d && Remapped(d, l, claims, n) == 0
  {
    hide Owner, First, Le;
    if n > 0 {
      PatchedAgain(d, l, claims, n - 1);
      var at := TokenAt(l, n - 1);
      assert Splice(d, at, d[at..at + 4]) == d;
    }
  }

  /**
   A second run finds nothing to do if the first one kept the bytes of every
   field that it reads; no token over such a field is enough for that.
   */
  lemma SecondRunIsIdentity(d: seq<byte>)
    requires Restored(d).Ok?
    requires TokensClear(Header(d).value) || FieldsKept(d, Restored(d).value.0, Header(d).value)
    ensures var (out, report) := Restored(d).value;
            Restored(out) == Ok((out, report.(remapped := 0)))
  {
    hide Owned, Patched, Remapped, AllClaims, Header, Modules, Le, Owner, First, TokensClear, FieldsKept, TypeRange,
         MethodRange, InToken;
    var l := Header(d).value;
    var claims := AllClaims(d, l, 0, []).value;
    var (out, report) := Restored(d).value;
    if TokensClear(l) {
      ClearKeepsFields(d);
    }
    HeaderFits(d);
    RestoredBytes(d);
    SameHeader(d, out, l);
    SameRanges(d, out, l);
    SameClaims(d, out, l, 0, []);
    StillOwned(d, out, l, claims);
    PatchedAgain(out, l, claims, l.methods);
  }

  /** The file is restored already: it is well formed, and every method has the token it is due. */
  ghost predicate Clean(d: seq<byte>) {
    Header(d).Ok? &&
    var l := Header(d).value;
    AllClaims(d, l, 0, []).Some? &&
    var claims := AllClaims(d, l, 0, []).value;
    && Owned(d, l, claims)
    && forall m: nat :: m < l.methods ==>
         First(claims, Owner(claims, m)) <= m && TokenAt(l, m) + 4 <= |d|
         && d[TokenAt(l, m)..TokenAt(l, m) + 4] == Le(Token(claims, m), 4)
  }

  /** A file is left as it is exactly when it is restored already, so a second run is the identity on those only. */
  lemma FixedIffClean(d: seq<byte>)
    ensures Clean(d) <==> Restored(d).Ok? && Restored(d).value.0 == d
    ensures Clean(d) ==> Restored(d).value.1.remapped == 0
  {
    hide Owned, Patched, Remapped, AllClaims, Header, Modules, Le, Owner, First, Token;
    if Clean(d) {
      var l := Header(d).value;
      HeaderFits(d);
      PatchedAgain(d, l, AllClaims(d, l, 0, []).value, l.methods);
    }
    if Restored(d).Ok? && Restored(d).value.0 == d {
      RestoredBytes(d);
      TokensInFile(d);
      OwnedHasClaims(d);
    }
  }

  /** The types of `out` own its methods so that every method is due the token that `claims` gives it. */
  ghost predicate SameTokens(out: seq<byte>, l: Tables, claims: seq<Claim>)
    requires forall m: nat :: m < l.methods ==> First(claims, Owner(claims, m)) <= m
  {
    Fits(out, l) && AllClaims(out, l, 0, []).Some? &&
    var again := AllClaims(out, l, 0, []).value;
    && Owned(out, l, again)
    && forall m: nat :: m < l.methods ==>
         First(again, Owner(again, m)) <= m && Le(Token(again, m), 4) == Le(Token(claims, m), 4)
  }

  /**
   If no token spoils the header, the second run is the identity exactly when
   the ownership it reads from the first one's output gives the same tokens.
   */
  lemma SecondRunExactly(d: seq<byte>)
    requires Restored(d).Ok? && Header(Restored(d).value.0) == Header(d)
    ensures var out := Restored(d).value.0; var l := Header(d).value; var claims := AllClaims(d, l, 0, []).value;
            && (forall m: nat :: m < l.methods ==> First(claims, Owner(claims, m)) <= m)
            && (Restored(out).Ok? && Restored(out).value.0 == out <==> SameTokens(out, l, claims))
  {
    hide Owned, Patched, Remapped, AllClaims, Header, Modules, Le, Owner, First, Token, Restored;
    var out := Restored(d).value.0;
    FixedIffClean(out);
    RestoredBytes(d);
    OwnedHasClaims(d);
    TokensInFile(out);
  }

  lemma TokensInFile(d: seq<byte>)
    requires Header(d).Ok?
    ensures forall m: nat :: m < Header(d).value.methods ==> TokenAt(Header(d).value, m) + 4 <= |d|
  {
    hide Header;
    HeaderFits(d);
  }

  lemma OwnedHasClaims(d: seq<byte>)
    requires Restored(d).Ok?
    ensures Header(d).Ok? && AllClaims(d, Header(d).value, 0, []).Some?
  {
    hide Header, AllClaims, Owned, Patched, Remapped, Modules;
  }

  lemma StillOwned(d: seq<byte>, out: seq<byte>, l: Tables, claims: seq<Claim>)
    requires Owned(d, l, claims) && Fits(out, l) && AllClaims(out, l, 0, []) == AllClaims(d, l, 0, [])
    ensures Owned(out, l, claims)
  {
  }

  // ----- Two files whose token lies over a field -----

  /** The tables of a file with one image, one type and one method. */
  function OneOfEach(mOff: nat): Tables {
    Tables(mOff, 1, 0xE8, 1, 0xC0, 1)
  }

  /** The header of such a file, and the fields of its image and type. */
  predicate OneOfEachBytes(d: seq<byte>, mOff: nat) {
    && |d| == 0x140 && mOff + METHOD_STRIDE <= 0x140
    && ReadU32(d, 0) == Some(MAGIC) && ReadU32(d, 4) == Some(VERSION)
    && ReadU32(d, HDR_METHODS) == Some(mOff) && ReadU32(d, HDR_METHODS + 4) == Some(METHOD_STRIDE)
    && ReadU32(d, HDR_TYPES) == Some(0xE8) && ReadU32(d, HDR_TYPES + 4) == Some(TYPE_STRIDE)
    && ReadU32(d, HDR_IMAGES) == Some(0xC0) && ReadU32(d, HDR_IMAGES + 4) == Some(IMAGE_STRIDE)
    && ReadU32(d, 0xC8) == Some(0) && ReadU32(d, 0x10C) == Some(0) && ReadU16(d, 0x128) == Some(1)
  }

  lemma OneHeader(d: seq<byte>, mOff: nat)
    requires OneOfEachBytes(d, mOff)
    ensures Header(d) == Ok(OneOfEach(mOff))
  {
    hide ReadU32, ReadU16;
  }

  lemma OneClaim(d: seq<byte>, mOff: nat, count: nat)
    requires OneOfEachBytes(d, mOff) && ReadU32(d, 0xCC) == Some(count) && count < NONE
    ensures count == 1 ==> AllClaims(d, OneOfEach(mOff), 0, []) == Some([Claim(0, 0, 1)])
    ensures count > 1 ==> AllClaims(d, OneOfEach(mOff), 0, []) == None
  {
    hide ReadU32, ReadU16;
    var l := OneOfEach(mOff);
    assert TypeRange(d, l, 0) == (0, count);
    assert MethodRange(d, l, 0) == Some((0, 1));
    var one := [] + [Claim(0, 0, 1)];
    assert one == [Claim(0, 0, 1)];
    assert ImageClaims(d, l, 0, 0, count, []) == if count == 0 then Some([]) else ImageClaims(d, l, 0, 1, count, one);
    assert count > 1 ==> ImageClaims(d, l, 0, 1, count, one) == None;
  }

  lemma OneOwned(d: seq<byte>, mOff: nat)
    requires |d| == 0x140 && mOff + METHOD_STRIDE <= 0x140
    requires AllClaims(d, OneOfEach(mOff), 0, []) == Some([Claim(0, 0, 1)])
    ensures Owned(d, OneOfEach(mOff), [Claim(0, 0, 1)])
    ensures Patched(d, OneOfEach(mOff), [Claim(0, 0, 1)], 1) == Splice(d, mOff + METHOD_TOKEN, [1, 0, 0, 6])
  {
    hide AllClaims, Le;
    var claims := [Claim(0, 0, 1)];
    assert claims[..0] == [];
    assert First([], 0) == NONE && First(claims, 0) == 0;
    assert Owner(claims, 0) == 0;
    assert Token(claims, 0) == TOKEN_TABLE + 1;
    TokenBytes();
  }

  lemma TokenBytes()
    ensures Le(TOKEN_TABLE + 1, 4) == [1, 0, 0, 6]
  {
    assert Le(0x06, 1) == [6] + Le(0, 0);
    assert Le(0x0600, 2) == [0] + Le(6, 1);
    assert Le(0x06_0000, 3) == [0] + Le(0x0600, 2);
  }

  /** The first run on a file of this kind. */
  lemma OneRestored(d: seq<byte>, mOff: nat)
    requires OneOfEachBytes(d, mOff) && ReadU32(d, 0xCC) == Some(1)
    ensures Header(d) == Ok(OneOfEach(mOff)) && Restored(d).Ok?
    ensures Restored(d).value.0 == Splice(d, mOff + METHOD_TOKEN, [1, 0, 0, 6])
  {
    hide AllClaims, Owned, Patched, Remapped, Modules, Header, ReadU32, OneOfEachBytes;
    OneHeader(d, mOff);
    OneClaim(d, mOff, 1);
    OneBounds(d, mOff);
    OneOwned(d, mOff);
  }

  lemma OneBounds(d: seq<byte>, mOff: nat)
    requires OneOfEachBytes(d, mOff)
    ensures |d| == 0x140 && mOff + METHOD_STRIDE <= 0x140
  {
  }

  lemma ReadIs(d: seq<byte>, o: nat, value: nat)
    requires o + 4 <= |d|
    requires value == d[o] as int + 0x100 * d[o + 1] as int + 0x1_0000 * d[o + 2] as int + 0x100_0000 * d[o + 3] as int
    ensures ReadU32(d, o) == Some(value)
  {
    ValOfFour(d[o..o + 4]);
  }

  lemma ReadIs16(d: seq<byte>, o: nat, value: nat)
    requires o + 2 <= |d| && value == d[o] as int + 0x100 * d[o + 1] as int
    ensures ReadU16(d, o) == Some(value)
  {
    ValOfTwo(d[o..o + 2]);
  }

  /** The byte at `k` of a file of this kind, without the place of its methods, which comes in at 0x30. */
  function OneByte(k: nat): byte {
    match k
    case 0x00 => 0xAF case 0x01 => 0x1B case 0x02 => 0xB1 case 0x03 => 0xFA
    case 0x04 => 31
    case 0x34 => 0x24
    case 0xA0 => 0xE8 case 0xA4 => 0x58
    case 0xA8 => 0xC0 case 0xAC => 0x28
    case 0xCC => 1
    case 0x128 => 1
    case _ => 0
  }

  function OneFile(mOff: nat): (d: seq<byte>)
    requires mOff < 0x1_0000
    ensures |d| == 0x140
    ensures forall k {:trigger d[k]} :: 0 <= k < 0x140 ==>
              d[k] == if k == 0x30 then mOff % 0x100 else if k == 0x31 then mOff / 0x100 else OneByte(k)
  {
    seq(0x140, k requires 0 <= k < 0x140 =>
      if k == 0x30 then mOff % 0x100 else if k == 0x31 then mOff / 0x100 else OneByte(k))
  }

  /** Files that agree with the above except for four bytes behind the header. */
  lemma OneFileBytes(d: seq<byte>, mOff: nat, at: nat)
    requires |d| == 0x140 && mOff + METHOD_STRIDE <= 0x140
    requires at == 0xCC || (at == 0x128 && d[0x128] == 1 && d[0x129] == 0)
    requires forall k {:trigger d[k]} :: 0 <= k < 0x140 && !(at <= k < at + 4) ==> d[k] == OneFile(mOff)[k]
    ensures OneOfEachBytes(d, mOff)
  {
    hide ReadU32, ReadU16, OneFile;
    ReadIs16(d, 0x128, 1);
    ReadIs(d, 0, MAGIC);
    ReadIs(d, 4, VERSION);
    ReadIs(d, HDR_METHODS, mOff);
    ReadIs(d, HDR_METHODS + 4, 0x24);
    ReadIs(d, HDR_TYPES, 0xE8);
    ReadIs(d, HDR_TYPES + 4, 0x58);
    ReadIs(d, HDR_IMAGES, 0xC0);
    ReadIs(d, HDR_IMAGES + 4, 0x28);
    ReadIs(d, 0xC8, 0);
    ReadIs(d, 0x10C, 0);
  }

  /** The token lies over the image's type count. */
  function Overlapping(): seq<byte> {
    OneFile(0xB4)
  }

  /** Some condition is needed: here the first run succeeds, and the second refuses its output. */
  lemma SecondRunMayFail(d: seq<byte>)
    requires d == Overlapping()
    ensures Restored(d).Ok?
    ensures Restored(Restored(d).value.0) == Err(Malformed)
  {
    hide AllClaims, Owned, Patched, Remapped, Modules, Header, ReadU32, OneFile, OneByte, OneOfEachBytes;
    OneFileBytes(d, 0xB4, 0xCC);
    CountBytes();
    ReadIs(d, 0xCC, 1);
    OneRestored(d, 0xB4);
    var out := Splice(d, 0xCC, [1, 0, 0, 6]);
    OneFileBytes(out, 0xB4, 0xCC);
    ReadIs(out, 0xCC, TOKEN_TABLE + 1);
    OneHeader(out, 0xB4);
    OneClaim(out, 0xB4, TOKEN_TABLE + 1);
  }

  lemma CountBytes()
    ensures OneByte(0xCC) == 1 && OneByte(0xCD) == OneByte(0xCE) == OneByte(0xCF) == 0
    ensures OneByte(0x128) == 1 && OneByte(0x129) == OneByte(0x12A) == OneByte(0x12B) == 0
  {
  }

  /** The token lies over the type's method count. */
  function Harmless(): seq<byte> {
    OneFile(0x110)
  }

  /** Overlap alone does no harm: here a token covers a field that is read, and the second run is the identity. */
  lemma SecondRunMaySucceed(d: seq<byte>)
    requires d == Harmless()
    ensures Restored(d).Ok? && !TokensClear(Header(d).value)
    ensures var (out, report) := Restored(d).value;
            out != d && Restored(out) == Ok((out, report.(remapped := 0)))
  {
    hide AllClaims, Owned, Patched, Remapped, Modules, Header, ReadU32, OneFile, OneByte, OneOfEachBytes, Restored;
    CountBytes();
    OneFileBytes(d, 0x110, 0x128);
    ReadIs(d, 0xCC, 1);
    OneRestored(d, 0x110);
    var out := Splice(d, 0x128, [1, 0, 0, 6]);
    assert out[0x12B] == 6 && d[0x12B] == 0;
    var l := OneOfEach(0x110);
    assert InToken(l, 0x128) by {
      assert TokenAt(l, 0) == 0x128;
    }
    assert InType(l, 0, 0x128);
    HarmlessKeeps(d, out);
    SecondRunIsIdentity(d);
  }

  lemma HarmlessKeeps(d: seq<byte>, out: seq<byte>)
    requires |d| == 0x140 && d[0x128] == 1 && d[0x129] == 0 && out == Splice(d, 0x128, [1, 0, 0, 6])
    ensures FieldsKept(d, out, OneOfEach(0x110))
  {
  }
}
