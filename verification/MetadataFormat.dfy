/**
 Which metadata files are restored, and to what, in terms of the records alone:
 images list types, types list methods, and every method must be listed once.
 */
module MetadataFormat {
  import opened Bytes
  import opened Wrappers
  import opened MetadataTokens

  // ----- The records -----

  /** The header of `d` names the tables `l`: whole records, inside the file. */
  ghost predicate IsLayout(d: seq<byte>, l: Tables) {
    && |d| >= HDR_IMAGES + 8 && ReadU32(d, 0) == Some(MAGIC) && ReadU32(d, 4) == Some(VERSION)
    && ReadU32(d, HDR_METHODS) == Some(l.mOff) && ReadU32(d, HDR_METHODS + 4) == Some(METHOD_STRIDE * l.methods)
    && ReadU32(d, HDR_TYPES) == Some(l.tOff) && ReadU32(d, HDR_TYPES + 4) == Some(TYPE_STRIDE * l.types)
    && ReadU32(d, HDR_IMAGES) == Some(l.iOff) && ReadU32(d, HDR_IMAGES + 4) == Some(IMAGE_STRIDE * l.images)
    && Fits(d, l)
  }

  /** First type and number of types of an image. */
  function TypesOf(d: seq<byte>, l: Tables, img: nat): (nat, nat)
    requires Fits(d, l) && img < l.images
  {
    var at := l.iOff + img * IMAGE_STRIDE;
    (ReadU32(d, at + IMAGE_TYPE_START).value, ReadU32(d, at + IMAGE_TYPE_COUNT).value)
  }

  /** First method and number of methods of a type. */
  function MethodsOf(d: seq<byte>, l: Tables, t: nat): (nat, nat)
    requires Fits(d, l) && t < l.types
  {
    var at := l.tOff + t * TYPE_STRIDE;
    (ReadU32(d, at + TYPE_METHOD_START).value, ReadU16(d, at + TYPE_METHOD_COUNT).value)
  }

  /** Image `img` lists type `t`. A list that starts at the largest 32-bit value is empty. */
  ghost predicate Lists(d: seq<byte>, l: Tables, img: nat, t: nat)
    requires Fits(d, l)
  {
    img < l.images && var (start, count) := TypesOf(d, l, img); start != NONE && start <= t < start + count
  }

  /** Type `t` lists method `m`; the same holds of its list. */
  ghost predicate Contains(d: seq<byte>, l: Tables, t: nat, m: nat)
    requires Fits(d, l)
  {
    t < l.types && var (start, count) := MethodsOf(d, l, t); start != NONE && start <= m < start + count
  }

  /** Method `m` belongs to image `img` through type `t`. */
  ghost predicate Owns(d: seq<byte>, l: Tables, img: nat, t: nat, m: nat)
    requires Fits(d, l)
  {
    Lists(d, l, img, t) && Contains(d, l, t, m)
  }

  /** Every listed type and method exists, and every method belongs to one image through one type. */
  ghost predicate Grouped(d: seq<byte>, l: Tables)
    requires Fits(d, l)
  {
    && (forall img: nat, t: nat :: Lists(d, l, img, t) ==> t < l.types)
    && (forall img: nat, t: nat, m: nat :: Owns(d, l, img, t, m) ==> m < l.methods)
    && (forall m: nat :: m < l.methods ==> HasOwner(d, l, m))
    && OneOwner(d, l)
  }

  /** No method belongs to two types, or to two images. */
  ghost predicate OneOwner(d: seq<byte>, l: Tables)
    requires Fits(d, l)
  {
    forall img: nat, t: nat, img': nat, t': nat, m: nat :: Owns(d, l, img, t, m) && Owns(d, l, img', t', m) ==>
      img == img' && t == t'
  }

  ghost predicate HasOwner(d: seq<byte>, l: Tables, m: nat)
    requires Fits(d, l)
  {
    exists img: nat, t: nat :: Owns(d, l, img, t, m)
  }

  lemma HeaderIs(d: seq<byte>, l: Tables)
    ensures Header(d) == Ok(l) <==> IsLayout(d, l)
  {
    hide ReadU32;
    if |d| >= HDR_IMAGES + 8 {
      Whole(ReadU32(d, HDR_METHODS + 4).value, l.methods);
      Whole(ReadU32(d, HDR_TYPES + 4).value, l.types);
      Whole(ReadU32(d, HDR_IMAGES + 4).value, l.images);
    }
  }

  lemma Whole(size: nat, n: nat)
    ensures size == METHOD_STRIDE * n <==> size % METHOD_STRIDE == 0 && size / METHOD_STRIDE == n
    ensures size == TYPE_STRIDE * n <==> size % TYPE_STRIDE == 0 && size / TYPE_STRIDE == n
    ensures size == IMAGE_STRIDE * n <==> size % IMAGE_STRIDE == 0 && size / IMAGE_STRIDE == n
  {
  }

  // ----- From the loops to the records -----

  /** The types `t..to`, all of which exist, that have methods, each with the image that lists it. */
  function Pairs(d: seq<byte>, l: Tables, img: nat, t: nat, to: nat): seq<(nat, nat)>
    requires Fits(d, l) && to <= l.types
    decreases if t < to then to - t else 0
  {
    if t >= to then []
    else (if MethodRange(d, l, t).Some? then [(img, t)] else []) + Pairs(d, l, img, t + 1, to)
  }

  ghost predicate TypesExist(d: seq<byte>, l: Tables, img: nat)
    requires Fits(d, l) && img < l.images
  {
    var (start, end) := TypeRange(d, l, img); start < end ==> end <= l.types
  }

  function AllPairs(d: seq<byte>, l: Tables, img: nat): seq<(nat, nat)>
    requires Fits(d, l) && img <= l.images && forall i :: img <= i < l.images ==> TypesExist(d, l, i)
    decreases l.images - img
  {
    if img == l.images then []
    else
      var (start, end) := TypeRange(d, l, img);
      assert TypesExist(d, l, img);
      (if start < end then Pairs(d, l, img, start, end) else []) + AllPairs(d, l, img + 1)
  }

  ghost predicate WithMethods(d: seq<byte>, l: Tables, pairs: seq<(nat, nat)>)
    requires Fits(d, l)
  {
    forall k :: 0 <= k < |pairs| ==> pairs[k].1 < l.types && MethodRange(d, l, pairs[k].1).Some?
  }

  function ClaimOf(d: seq<byte>, l: Tables, p: (nat, nat)): Claim
    requires Fits(d, l) && p.1 < l.types && MethodRange(d, l, p.1).Some?
  {
    Claim(p.0, MethodRange(d, l, p.1).value.0, MethodRange(d, l, p.1).value.1)
  }

  /** `claims` are those of the pairs, in order. */
  ghost predicate ClaimsOf(d: seq<byte>, l: Tables, pairs: seq<(nat, nat)>, claims: seq<Claim>)
    requires Fits(d, l)
  {
    && WithMethods(d, l, pairs) && |claims| == |pairs|
    && forall k :: 0 <= k < |pairs| ==> claims[k] == ClaimOf(d, l, pairs[k])
  }

  lemma {:induction false} PairsAre(d: seq<byte>, l: Tables, img: nat, t: nat, to: nat)
    requires Fits(d, l) && to <= l.types
    ensures var p := Pairs(d, l, img, t, to);
            && WithMethods(d, l, p)
            && (forall k :: 0 <= k < |p| ==> p[k].0 == img && t <= p[k].1 < to)
            && (forall j, k :: 0 <= j < k < |p| ==> p[j].1 < p[k].1)
            && (forall u: nat :: t <= u < to && MethodRange(d, l, u).Some? ==> (img, u) in p)
    decreases if t < to then to - t else 0
  {
    hide MethodRange;
    if t < to {
      PairsAre(d, l, img, t + 1, to);
    }
  }

  lemma {:induction false} ImageClaimsAre(d: seq<byte>, l: Tables, img: nat, t: nat, to: nat, acc: seq<Claim>)
    requires Fits(d, l)
    ensures var r := ImageClaims(d, l, img, t, to, acc);
            && (r.Some? <==> (t < to ==> to <= l.types))
            && (r.Some? && to <= l.types ==>
                  acc <= r.value && ClaimsOf(d, l, Pairs(d, l, img, t, to), r.value[|acc|..]))
            && (r.Some? && t >= to ==> r.value == acc)
    decreases if t < to then to - t else 0
  {
    hide MethodRange;
    if t < to && t < l.types {
      match MethodRange(d, l, t)
      case None =>
        ImageClaimsAre(d, l, img, t + 1, to, acc);
      case Some((from, end)) =>
        var c := Claim(img, from, end);
        ImageClaimsAre(d, l, img, t + 1, to, acc + [c]);
        var r := ImageClaims(d, l, img, t + 1, to, acc + [c]);
        if r.Some? {
          assert r.value[|acc|..] == [c] + r.value[|acc| + 1..];
        }
    }
  }

  /** The pairs are those of the images from `img` on: with methods, listed, none twice, and none missing. */
  ghost predicate PairsFrom(d: seq<byte>, l: Tables, img: nat, p: seq<(nat, nat)>)
    requires Fits(d, l)
  {
    && WithMethods(d, l, p)
    && (forall k :: 0 <= k < |p| ==> img <= p[k].0 < l.images && InRange(TypeRange(d, l, p[k].0), p[k].1))
    && (forall j, k :: 0 <= j < k < |p| ==> p[j] != p[k])
    && (forall i: nat, u: nat ::
          img <= i < l.images && u < l.types && InRange(TypeRange(d, l, i), u) && MethodRange(d, l, u).Some? ==>
            (i, u) in p)
  }

  lemma {:induction false} AllPairsAre(d: seq<byte>, l: Tables, img: nat)
    requires Fits(d, l) && img <= l.images && forall i :: img <= i < l.images ==> TypesExist(d, l, i)
    ensures PairsFrom(d, l, img, AllPairs(d, l, img))
    decreases l.images - img
  {
    hide PairsFrom, OfImage, TypeRange, MethodRange, Pairs, TypesExist;
    if img == l.images {
      NoPairs(d, l);
    } else {
      assert TypesExist(d, l, img);
      AllPairsAre(d, l, img + 1);
      var (start, end) := TypeRange(d, l, img);
      ImagePairsAre(d, l, img);
      JoinPairs(d, l, img, if start < end then Pairs(d, l, img, start, end) else [], AllPairs(d, l, img + 1));
    }
  }

  lemma NoPairs(d: seq<byte>, l: Tables)
    requires Fits(d, l)
    ensures PairsFrom(d, l, l.images, [])
  {
  }

  lemma ImagePairsAre(d: seq<byte>, l: Tables, img: nat)
    requires Fits(d, l) && img < l.images && TypesExist(d, l, img)
    ensures var (start, end) := TypeRange(d, l, img);
            (start < end ==> end <= l.types)
            && OfImage(d, l, img, if start < end then Pairs(d, l, img, start, end) else [])
  {
    hide MethodRange, TypeRange, Pairs;
    var (start, end) := TypeRange(d, l, img);
    if start < end {
      PairsAre(d, l, img, start, end);
    }
  }

  /** The same for the pairs of one image. */
  ghost predicate OfImage(d: seq<byte>, l: Tables, img: nat, p: seq<(nat, nat)>)
    requires Fits(d, l) && img < l.images
  {
    && WithMethods(d, l, p)
    && (forall k :: 0 <= k < |p| ==> p[k].0 == img && InRange(TypeRange(d, l, img), p[k].1))
    && (forall j, k :: 0 <= j < k < |p| ==> p[j] != p[k])
    && (forall u: nat :: u < l.types && InRange(TypeRange(d, l, img), u) && MethodRange(d, l, u).Some? ==>
        (img, u) in p)
  }

  lemma JoinPairs(d: seq<byte>, l: Tables, img: nat, a: seq<(nat, nat)>, b: seq<(nat, nat)>)
    requires Fits(d, l) && img < l.images && OfImage(d, l, img, a) && PairsFrom(d, l, img + 1, b)
    ensures PairsFrom(d, l, img, a + b)
  {
    hide TypeRange, MethodRange, InRange;
  }

  predicate InRange(r: (nat, nat), k: nat) {
    r.0 <= k < r.1
  }

  lemma {:induction false} AllClaimsAre(d: seq<byte>, l: Tables, img: nat, acc: seq<Claim>)
    requires Fits(d, l) && img <= l.images
    ensures var r := AllClaims(d, l, img, acc);
            && (r.Some? <==> forall i :: img <= i < l.images ==> TypesExist(d, l, i))
            && (r.Some? ==> acc <= r.value && ClaimsOf(d, l, AllPairs(d, l, img), r.value[|acc|..]))
    decreases l.images - img
  {
    hide MethodRange, TypeRange, ImageClaims, Pairs;
    if img < l.images {
      var (start, end) := TypeRange(d, l, img);
      ImageClaimsAre(d, l, img, start, end, acc);
      var r := ImageClaims(d, l, img, start, end, acc);
      assert r.Some? <==> TypesExist(d, l, img);
      if r.Some? {
        AllClaimsAre(d, l, img + 1, r.value);
        var all := AllClaims(d, l, img + 1, r.value);
        if all.Some? {
          assert all.value[|acc|..] == r.value[|acc|..] + all.value[|r.value|..];
        }
      }
    }
  }

  /** The counts of a file below 4 GB are below the largest 32-bit value. */
  ghost predicate Small(l: Tables) {
    l.methods < NONE && l.types < NONE && l.images < NONE
  }

  lemma LayoutIsSmall(d: seq<byte>, l: Tables)
    requires IsLayout(d, l)
    ensures Small(l)
  {
  }

  lemma ListsIs(d: seq<byte>, l: Tables, img: nat)
    requires Fits(d, l) && Small(l) && img < l.images
    ensures TypesExist(d, l, img) <==> forall t: nat :: Lists(d, l, img, t) ==> t < l.types
    ensures TypesExist(d, l, img) ==> forall t: nat :: Lists(d, l, img, t) <==> InRange(TypeRange(d, l, img), t)
  {
    hide ReadU32;
    var (start, count) := TypesOf(d, l, img);
    if start != NONE && count > 0 {
      assert Lists(d, l, img, start + count - 1);
    }
  }

  lemma ContainsIs(d: seq<byte>, l: Tables, t: nat)
    requires Fits(d, l) && Small(l) && t < l.types
    ensures forall m: nat :: Contains(d, l, t, m) ==> MethodRange(d, l, t).Some?
    ensures MethodRange(d, l, t).Some? ==>
              forall m: nat :: m < NONE ==> (Contains(d, l, t, m) <==> InRange(MethodRange(d, l, t).value, m))
    ensures MethodRange(d, l, t).Some? && (exists m: nat :: Contains(d, l, t, m) && m >= NONE) ==>
              InRange(MethodRange(d, l, t).value, NONE - 1)
  {
    hide ReadU32, ReadU16;
  }

  /** The claims of a file are those of its records. */
  ghost predicate Matches(d: seq<byte>, l: Tables, pairs: seq<(nat, nat)>, claims: seq<Claim>)
    requires Fits(d, l)
  {
    && ClaimsOf(d, l, pairs, claims) && Sane(claims, l.images)
    && (forall j, k :: 0 <= j < k < |pairs| ==> pairs[j] != pairs[k])
    && (forall k :: 0 <= k < |pairs| ==> Lists(d, l, pairs[k].0, pairs[k].1))
    && (forall img: nat, t: nat, m: nat :: Owns(d, l, img, t, m) ==> (img, t) in pairs)
  }

  lemma TypesExistIs(d: seq<byte>, l: Tables)
    requires Fits(d, l) && Small(l)
    ensures (forall i :: 0 <= i < l.images ==> TypesExist(d, l, i))
       <==> forall img: nat, t: nat :: Lists(d, l, img, t) ==> t < l.types
  {
    hide TypesExist, Lists;
    ListsInside(d, l);
    if forall i :: 0 <= i < l.images ==> TypesExist(d, l, i) {
      forall img: nat, t: nat | Lists(d, l, img, t)
        ensures t < l.types
      {
        ListsIs(d, l, img);
      }
    }
    if forall img: nat, t: nat :: Lists(d, l, img, t) ==> t < l.types {
      forall i | 0 <= i < l.images
        ensures TypesExist(d, l, i)
      {
        ListsIs(d, l, i);
      }
    }
  }

  lemma ClaimsMatch(d: seq<byte>, l: Tables)
    requires Fits(d, l) && Small(l)
    ensures AllClaims(d, l, 0, []).Some? <==> forall img: nat, t: nat :: Lists(d, l, img, t) ==> t < l.types
    ensures AllClaims(d, l, 0, []).Some? ==>
              exists pairs :: Matches(d, l, pairs, AllClaims(d, l, 0, []).value)
  {
    hide AllClaims, AllPairs, TypeRange, MethodRange, TypesExist, Contains, Lists;
    AllClaimsAre(d, l, 0, []);
    TypesExistIs(d, l);
    ListsInside(d, l);
    if AllClaims(d, l, 0, []).Some? {
      forall img: nat, t: nat | img < l.images
        ensures Lists(d, l, img, t) <==> InRange(TypeRange(d, l, img), t)
      {
        ListsIs(d, l, img);
      }
      var claims, pairs := AllClaims(d, l, 0, []).value, AllPairs(d, l, 0);
      assert claims[0..] == claims;
      AllClaimsSane(d, l, 0, []);
      AllPairsAre(d, l, 0);
      forall img: nat, t: nat, m: nat | Owns(d, l, img, t, m)
        ensures (img, t) in pairs
      {
        ContainsIs(d, l, t);
      }
      assert Matches(d, l, pairs, claims);
    }
  }

  lemma ListsInside(d: seq<byte>, l: Tables)
    requires Fits(d, l)
    ensures forall img: nat, t: nat :: Lists(d, l, img, t) ==> img < l.images
    ensures forall t: nat, m: nat :: Contains(d, l, t, m) ==> t < l.types
  {
  }

  // ----- From the records to the ownership -----

  /** Pair `k` owns `m` exactly when its claim covers `m`, but for numbers no method has. */
  lemma PairOwns(d: seq<byte>, l: Tables, pairs: seq<(nat, nat)>, claims: seq<Claim>, k: nat)
    requires Fits(d, l) && Small(l) && Matches(d, l, pairs, claims) && k < |pairs|
    ensures forall m: nat :: m < NONE ==> (Owns(d, l, pairs[k].0, pairs[k].1, m) <==> Covers(claims[k], m))
    ensures (exists m: nat :: Owns(d, l, pairs[k].0, pairs[k].1, m) && m >= NONE) ==> Covers(claims[k], NONE - 1)
  {
    hide MethodRange, Contains, Lists;
    ContainsIs(d, l, pairs[k].1);
    assert claims[k] == ClaimOf(d, l, pairs[k]);
  }

  lemma OwnersInside(d: seq<byte>, l: Tables, pairs: seq<(nat, nat)>, claims: seq<Claim>)
    requires Fits(d, l) && Small(l) && Matches(d, l, pairs, claims)
    ensures (forall i, m: nat :: 0 <= i < |claims| && Covers(claims[i], m) ==> m < l.methods)
       <==> forall img: nat, t: nat, m: nat :: Owns(d, l, img, t, m) ==> m < l.methods
  {
    hide Owns;
    if forall i, m: nat :: 0 <= i < |claims| && Covers(claims[i], m) ==> m < l.methods {
      forall img: nat, t: nat, m: nat | Owns(d, l, img, t, m)
        ensures m < l.methods
      {
        var k :| 0 <= k < |pairs| && pairs[k] == (img, t);
        PairOwns(d, l, pairs, claims, k);
        if m >= NONE {
          assert false;
        } else {
          assert Covers(claims[k], m);
        }
      }
    }
    if forall img: nat, t: nat, m: nat :: Owns(d, l, img, t, m) ==> m < l.methods {
      forall i, m: nat | 0 <= i < |claims| && Covers(claims[i], m)
        ensures m < l.methods
      {
        PairOwns(d, l, pairs, claims, i);
        if m >= NONE {
          assert false;
        } else {
          assert Owns(d, l, pairs[i].0, pairs[i].1, m);
        }
      }
    }
  }

  lemma ApartOwners(d: seq<byte>, l: Tables, pairs: seq<(nat, nat)>, claims: seq<Claim>, i: nat, j: nat, m: nat)
    requires Fits(d, l) && Small(l) && Matches(d, l, pairs, claims) && OneOwner(d, l) && m < NONE
    requires i < j < |claims| && Covers(claims[i], m)
    ensures !Covers(claims[j], m)
  {
    hide Owns;
    PairOwns(d, l, pairs, claims, i);
    PairOwns(d, l, pairs, claims, j);
    assert Owns(d, l, pairs[i].0, pairs[i].1, m);
  }

  lemma OwnerApart(d: seq<byte>, l: Tables, pairs: seq<(nat, nat)>, claims: seq<Claim>, p: (nat, nat), q: (nat, nat),
                   m: nat)
    requires Fits(d, l) && Small(l) && Matches(d, l, pairs, claims) && m < NONE
    requires forall i, j :: 0 <= i < j < |claims| && Covers(claims[i], m) ==> !Covers(claims[j], m)
    requires Owns(d, l, p.0, p.1, m) && Owns(d, l, q.0, q.1, m)
    ensures p == q
  {
    hide Owns;
    assert (p.0, p.1) == p && (q.0, q.1) == q;
    var i :| 0 <= i < |pairs| && pairs[i] == p;
    var j :| 0 <= j < |pairs| && pairs[j] == q;
    PairOwns(d, l, pairs, claims, i);
    PairOwns(d, l, pairs, claims, j);
    assert Covers(claims[i], m) && Covers(claims[j], m);
  }

  lemma OwnersApart(d: seq<byte>, l: Tables, pairs: seq<(nat, nat)>, claims: seq<Claim>)
    requires Fits(d, l) && Small(l) && Matches(d, l, pairs, claims)
    requires forall i, m: nat :: 0 <= i < |claims| && Covers(claims[i], m) ==> m < l.methods
    ensures (forall i, j, m: nat :: 0 <= i < j < |claims| && Covers(claims[i], m) ==> !Covers(claims[j], m))
       <==> OneOwner(d, l)
  {
    OwnersInside(d, l, pairs, claims);
    hide Owns, Matches;
    if OneOwner(d, l) {
      forall i, j, m: nat | 0 <= i < j < |claims| && Covers(claims[i], m)
        ensures !Covers(claims[j], m)
      {
        ApartOwners(d, l, pairs, claims, i, j, m);
      }
    }
    if forall i, j, m: nat :: 0 <= i < j < |claims| && Covers(claims[i], m) ==> !Covers(claims[j], m) {
      forall img: nat, t: nat, img': nat, t': nat, m: nat | Owns(d, l, img, t, m) && Owns(d, l, img', t', m)
        ensures img == img' && t == t'
      {
        OwnerApart(d, l, pairs, claims, (img, t), (img', t'), m);
      }
    }
  }

  lemma OwnersExist(d: seq<byte>, l: Tables, pairs: seq<(nat, nat)>, claims: seq<Claim>, m: nat)
    requires Fits(d, l) && Small(l) && Matches(d, l, pairs, claims) && m < l.methods
    ensures Owner(claims, m) != NONE <==> HasOwner(d, l, m)
    ensures Owner(claims, m) != NONE ==> exists t: nat :: Owns(d, l, Owner(claims, m), t, m)
  {
    hide Owns, Owner;
    OwnerIs(claims, m);
    if Owner(claims, m) != NONE {
      var c :| c in claims && Covers(c, m) && c.img == Owner(claims, m);
      var k :| 0 <= k < |claims| && claims[k] == c;
      PairOwns(d, l, pairs, claims, k);
      assert claims[k] == ClaimOf(d, l, pairs[k]);
      assert Owns(d, l, Owner(claims, m), pairs[k].1, m);
    }
    if HasOwner(d, l, m) {
      var img: nat, t: nat :| Owns(d, l, img, t, m);
      var k :| 0 <= k < |pairs| && pairs[k] == (img, t);
      PairOwns(d, l, pairs, claims, k);
      assert claims[k] in claims && Covers(claims[k], m);
    }
  }

  /** The ownership that the loops compute is complete exactly when the records group the methods. */
  lemma OwnedIs(d: seq<byte>, l: Tables)
    requires Fits(d, l) && Small(l)
    ensures AllClaims(d, l, 0, []).Some? && Owned(d, l, AllClaims(d, l, 0, []).value) <==> Grouped(d, l)
  {
    hide AllClaims, Owns, Lists, Owner;
    ClaimsMatch(d, l);
    if AllClaims(d, l, 0, []).Some? {
      var claims := AllClaims(d, l, 0, []).value;
      var pairs :| Matches(d, l, pairs, claims);
      OwnersInside(d, l, pairs, claims);
      if forall i, m: nat :: 0 <= i < |claims| && Covers(claims[i], m) ==> m < l.methods {
        OwnersApart(d, l, pairs, claims);
      }
      forall m: nat | m < l.methods
        ensures Owner(claims, m) != NONE <==> HasOwner(d, l, m)
      {
        OwnersExist(d, l, pairs, claims, m);
      }
    }
  }

  // ----- Main results -----

  /** `f` is the least method of image `img`. */
  ghost predicate IsFirst(d: seq<byte>, l: Tables, img: nat, f: nat)
    requires Fits(d, l)
  {
    && (exists t: nat :: Owns(d, l, img, t, f))
    && forall t: nat, m: nat :: Owns(d, l, img, t, m) ==> f <= m
  }

  lemma FirstIsLeast(d: seq<byte>, l: Tables, pairs: seq<(nat, nat)>, claims: seq<Claim>, img: nat, f: nat)
    requires Fits(d, l) && Small(l) && Matches(d, l, pairs, claims) && Grouped(d, l) && IsFirst(d, l, img, f)
    ensures First(claims, img) == f
  {
    hide Owns, First, OneOwner;
    FirstIs(claims, img);
    var t: nat :| Owns(d, l, img, t, f);
    var k :| 0 <= k < |pairs| && pairs[k] == (img, t);
    PairOwns(d, l, pairs, claims, k);
    assert claims[k] in claims && Covers(claims[k], f) && claims[k].img == img;
    if First(claims, img) < f {
      var c :| c in claims && c.img == img && c.from == First(claims, img);
      var i :| 0 <= i < |claims| && claims[i] == c;
      PairOwns(d, l, pairs, claims, i);
      NotEmpty(d, l, pairs[i]);
      assert false;
    }
  }

  lemma NotEmpty(d: seq<byte>, l: Tables, p: (nat, nat))
    requires Fits(d, l) && p.1 < l.types && MethodRange(d, l, p.1).Some?
    ensures Covers(ClaimOf(d, l, p), ClaimOf(d, l, p).from)
  {
    hide ReadU32, ReadU16;
  }

  /** A file is restored exactly when it has a layout whose records group the methods. */
  lemma RestoredIs(d: seq<byte>)
    ensures Restored(d).Ok? <==> exists l :: IsLayout(d, l) && Grouped(d, l)
    ensures Restored(d) == Err(NotMetadata) <==> ReadU32(d, 0) != Some(MAGIC)
    ensures forall v :: Restored(d) == Err(UnsupportedVersion(v)) <==>
                          ReadU32(d, 0) == Some(MAGIC) && ReadU32(d, 4) == Some(v) && v != VERSION
  {
    hide ReadU32, Patched, Remapped, Modules, AllClaims, Owned, Grouped, IsLayout;
    forall l | IsLayout(d, l)
      ensures Header(d) == Ok(l)
    {
      HeaderIs(d, l);
    }
    if Header(d).Ok? {
      var l := Header(d).value;
      HeaderIs(d, l);
      LayoutIsSmall(d, l);
      OwnedIs(d, l);
    }
  }

  /**
   What is written: the token of method `m`, whose image starts at method `f`,
   is its place in the image, counted from 1 and cut to 24 bits.
   */
  lemma RestoredToken(d: seq<byte>, l: Tables, img: nat, t: nat, m: nat, f: nat)
    requires IsLayout(d, l) && Grouped(d, l) && Owns(d, l, img, t, m) && IsFirst(d, l, img, f)
    ensures Restored(d).Ok? && f <= m < l.methods
    ensures var (out, report) := Restored(d).value;
            |out| == |d| && TokenAt(l, m) + 4 <= |d|
            && out[TokenAt(l, m)..TokenAt(l, m) + 4] == Le(TOKEN_TABLE + (m - f + 1) % ROWS, 4)
  {
    hide ReadU32, Patched, Remapped, Modules, AllClaims, Owned, Grouped, Owns, Header, Owner, First, Le, Restored,
         IsLayout, IsFirst, InToken;
    RestoredIs(d);
    HeaderIs(d, l);
    RestoredBytes(d);
    TokensInFile(d);
    OwnerAndFirst(d, l, img, t, m, f);
  }

  lemma OwnerAndFirst(d: seq<byte>, l: Tables, img: nat, t: nat, m: nat, f: nat)
    requires IsLayout(d, l) && Grouped(d, l) && Owns(d, l, img, t, m) && IsFirst(d, l, img, f)
    ensures f <= m < l.methods && AllClaims(d, l, 0, []).Some?
    ensures var claims := AllClaims(d, l, 0, []).value; Owner(claims, m) == img && First(claims, img) == f
  {
    hide ReadU32, AllClaims, OneOwner, Owns, Owner, First, Matches, Lists;
    LayoutIsSmall(d, l);
    OwnedIs(d, l);
    ClaimsMatch(d, l);
    var claims := AllClaims(d, l, 0, []).value;
    var pairs :| Matches(d, l, pairs, claims);
    FirstIsLeast(d, l, pairs, claims, img, f);
    OwnersExist(d, l, pairs, claims, m);
    assert HasOwner(d, l, m);
    var t': nat :| Owns(d, l, Owner(claims, m), t', m);
    SameOwner(d, l, img, t, Owner(claims, m), t', m);
  }

  lemma SameOwner(d: seq<byte>, l: Tables, img: nat, t: nat, img': nat, t': nat, m: nat)
    requires Fits(d, l) && Grouped(d, l) && Owns(d, l, img, t, m) && Owns(d, l, img', t', m)
    ensures img == img'
  {
    hide Owns;
  }

  // ----- The counts -----

  ghost predicate OwnsSome(d: seq<byte>, l: Tables, img: nat)
    requires Fits(d, l)
  {
    exists t: nat, m: nat :: Owns(d, l, img, t, m)
  }

  /** The images that own a method. */
  ghost function Owning(d: seq<byte>, l: Tables): set<nat>
    requires Fits(d, l)
  {
    set img: nat | img < l.images && OwnsSome(d, l, img)
  }

  /** The methods whose token changes. */
  function Changed(d: seq<byte>, out: seq<byte>, l: Tables): set<nat>
    requires Fits(d, l) && |out| == |d|
  {
    set m: nat | m < l.methods && out[TokenAt(l, m)..TokenAt(l, m) + 4] != d[TokenAt(l, m)..TokenAt(l, m) + 4]
  }

  function WithFirst(claims: seq<Claim>, n: nat): set<nat> {
    set i: nat | i < n && First(claims, i) != NONE
  }

  lemma {:induction false} ModulesCount(claims: seq<Claim>, n: nat)
    ensures Modules(claims, n) == |WithFirst(claims, n)|
  {
    hide First;
    if n > 0 {
      ModulesCount(claims, n - 1);
      if First(claims, n - 1) != NONE {
        assert n - 1 !in WithFirst(claims, n - 1);
        assert WithFirst(claims, n) == WithFirst(claims, n - 1) + {n - 1};
      } else {
        assert WithFirst(claims, n) == WithFirst(claims, n - 1);
      }
    }
  }

  /** Method `m` does not have its token yet. */
  predicate IsStale(d: seq<byte>, l: Tables, claims: seq<Claim>, m: nat)
    requires Fits(d, l) && m < l.methods && First(claims, Owner(claims, m)) <= m
  {
    d[TokenAt(l, m)..TokenAt(l, m) + 4] != Le(Token(claims, m), 4)
  }

  function Stale(d: seq<byte>, l: Tables, claims: seq<Claim>, n: nat): set<nat>
    requires Fits(d, l) && n <= l.methods
    requires forall m :: 0 <= m < l.methods ==> First(claims, Owner(claims, m)) <= m
  {
    set m: nat | m < n && IsStale(d, l, claims, m)
  }

  lemma RemappedStep(d: seq<byte>, l: Tables, claims: seq<Claim>, n: nat)
    requires Fits(d, l) && 0 < n <= l.methods
    requires forall m :: 0 <= m < l.methods ==> First(claims, Owner(claims, m)) <= m
    ensures Remapped(d, l, claims, n)
         == Remapped(d, l, claims, n - 1) + if IsStale(d, l, claims, n - 1) then 1 else 0
  {
    hide First, Owner, Token, Le;
  }

  lemma {:induction false} RemappedCount(d: seq<byte>, l: Tables, claims: seq<Claim>, n: nat)
    requires Fits(d, l) && n <= l.methods
    requires forall m :: 0 <= m < l.methods ==> First(claims, Owner(claims, m)) <= m
    ensures Remapped(d, l, claims, n) == |Stale(d, l, claims, n)|
  {
    hide First, Owner, IsStale;
    if n > 0 {
      RemappedCount(d, l, claims, n - 1);
      RemappedStep(d, l, claims, n);
      if IsStale(d, l, claims, n - 1) {
        assert Stale(d, l, claims, n) == Stale(d, l, claims, n - 1) + {n - 1};
      } else {
        assert Stale(d, l, claims, n) == Stale(d, l, claims, n - 1);
      }
    }
  }

  lemma OwningIs(d: seq<byte>, l: Tables)
    requires IsLayout(d, l) && Grouped(d, l)
    ensures AllClaims(d, l, 0, []).Some?
    ensures Owning(d, l) == WithFirst(AllClaims(d, l, 0, []).value, l.images)
  {
    hide ReadU32, AllClaims, OneOwner, Owns, OwnsSome, First, Lists, Matches;
    LayoutIsSmall(d, l);
    OwnedIs(d, l);
    ClaimsMatch(d, l);
    var claims := AllClaims(d, l, 0, []).value;
    var pairs: seq<(nat, nat)> :| Matches(d, l, pairs, claims);
    forall img: nat | img < l.images
      ensures OwnsSome(d, l, img) <==> First(claims, img) != NONE
    {
      FirstExists(d, l, pairs, claims, img);
    }
  }

  lemma FirstExists(d: seq<byte>, l: Tables, pairs: seq<(nat, nat)>, claims: seq<Claim>, img: nat)
    requires Fits(d, l) && Small(l) && Matches(d, l, pairs, claims) && Grouped(d, l)
    ensures OwnsSome(d, l, img) <==> First(claims, img) != NONE
  {
    hide Owns, First, OneOwner;
    FirstIs(claims, img);
    if OwnsSome(d, l, img) {
      var t: nat, m: nat :| Owns(d, l, img, t, m);
      var k :| 0 <= k < |pairs| && pairs[k] == (img, t);
      PairOwns(d, l, pairs, claims, k);
      assert claims[k] == ClaimOf(d, l, pairs[k]) && claims[k] in claims;
    }
    if First(claims, img) != NONE {
      var c :| c in claims && c.img == img && c.from == First(claims, img);
      var i :| 0 <= i < |claims| && claims[i] == c;
      PairOwns(d, l, pairs, claims, i);
      NotEmpty(d, l, pairs[i]);
      assert Owns(d, l, img, pairs[i].1, c.from);
    }
  }

  /** The report counts the methods, the tokens that changed and the images that own methods. */
  lemma RestoredReport(d: seq<byte>, l: Tables)
    requires IsLayout(d, l) && Grouped(d, l)
    ensures Restored(d).Ok? && |Restored(d).value.0| == |d|
    ensures var (out, report) := Restored(d).value;
            report == Report(VERSION, l.methods, |Changed(d, out, l)|, |Owning(d, l)|)
  {
    hide ReadU32, Patched, Remapped, Modules, AllClaims, Owned, Grouped, Owns, Header, Owner, First, Le, IsLayout,
         InToken, Token, Owning;
    RestoredIs(d);
    HeaderIs(d, l);
    HeaderFits(d);
    RestoredBytes(d);
    OwningIs(d, l);
    var claims := AllClaims(d, l, 0, []).value;
    var out := Restored(d).value.0;
    ModulesCount(claims, l.images);
    RemappedCount(d, l, claims, l.methods);
    assert Changed(d, out, l) == Stale(d, l, claims, l.methods);
  }
}
