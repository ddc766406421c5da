/**
 The cipher for zero-terminated strings: nibble swap and a rolling key that
 never lets a zero byte appear inside the string.
 */
module StringCipher {

  function Swap(b: bv8): bv8 {
    (b << 4) | (b >> 4)
  }

  /** The key at position `i`. */
  function Key(key: bv8, i: nat): bv8 {
    if i == 0 then key else Key(key, i - 1) + 67
  }

  function Plus(a: bv8, b: bv8): bv8 {
    a + b
  }

  function Minus(a: bv8, b: bv8): bv8 {
    a - b
  }

  function DecodeByte(b: bv8, key: bv8): bv8 {
    if Minus(Swap(b), key) == 0 then Minus(0, key) else Minus(Swap(b), key)
  }

  function EncodeByte(c: bv8, key: bv8): bv8 {
    if c == Minus(0, key) then Swap(key) else Swap(Plus(c, key))
  }

  /** The parts in arithmetic: the digits of a byte change places, and the key grows by 67 at every byte. */
  lemma PartsAre(b: bv8, key: bv8, i: nat)
    ensures Swap(b) == 16 * (b % 16) + b / 16
    ensures Key(key, 0) == key && Key(key, i + 1) == Key(key, i) + 67
  {
    hide Key;
    KeyGrows(key, i);
  }

  lemma KeyGrows(key: bv8, i: nat)
    ensures Key(key, 0) == key && Key(key, i + 1) == Key(key, i) + 67
  {
  }

  lemma DecodeExample()
    ensures DecodeByte(0x41, 0x5A) == 0xBA && DecodeByte(0xA5, 0x5A) == 0xA6
  {
  }

  /** On nonzero bytes the two are inverse bijections onto the nonzero bytes, for every key. */
  lemma ByteInverts(b: bv8, key: bv8)
    requires b != 0
    ensures DecodeByte(b, key) != 0 && EncodeByte(b, key) != 0
    ensures EncodeByte(DecodeByte(b, key), key) == b
    ensures DecodeByte(EncodeByte(b, key), key) == b
  {
    hide Swap, Plus, Minus;
    SwapFacts(b);
    SwapFacts(key);
    MinusFacts(Swap(b), key);
    MinusFacts(b, key);
    MinusFacts(key, key);
    SwapFacts(Plus(b, key));
  }

  lemma SwapFacts(b: bv8)
    ensures Swap(Swap(b)) == b && (Swap(b) == 0 <==> b == 0)
  {
  }

  lemma MinusFacts(b: bv8, key: bv8)
    ensures Plus(Minus(b, key), key) == b && Minus(Plus(b, key), key) == b
    ensures Minus(b, key) == 0 <==> b == key
    ensures Plus(b, key) == 0 <==> b == Minus(0, key)
    ensures Minus(b, key) == Minus(0, key) <==> b == 0
    ensures Minus(0, key) == 0 <==> key == 0
  {
  }

  // ----- Strings -----

  /** The bytes before the first zero. */
  function Length(s: seq<bv8>): (n: nat)
    ensures n <= |s|
    ensures forall i :: 0 <= i < n ==> s[i] != 0
    ensures n < |s| ==> s[n] == 0
  {
    if s == [] || s[0] == 0 then 0 else 1 + Length(s[1..])
  }

  lemma {:induction false} LengthIs(s: seq<bv8>, n: nat)
    requires n < |s| && s[n] == 0 && forall i :: 0 <= i < n ==> s[i] != 0
    ensures Length(s) == n
  {
    if n > 0 {
      LengthIs(s[1..], n - 1);
    }
  }

  /** The string at `pos` decoded up to its terminator; `key` is the key of its first byte. */
  function Decoded(d: seq<bv8>, pos: nat, key: bv8): (r: seq<bv8>)
    requires pos <= |d|
    ensures |r| == |d|
  {
    var n := Length(d[pos..]);
    seq(|d|, i requires 0 <= i < |d| => if pos <= i < pos + n then DecodeByte(d[i], Key(key, i - pos)) else d[i])
  }

  function Encoded(d: seq<bv8>, pos: nat, key: bv8): (r: seq<bv8>)
    requires pos <= |d|
    ensures |r| == |d|
  {
    var n := Length(d[pos..]);
    seq(|d|, i requires 0 <= i < |d| => if pos <= i < pos + n then EncodeByte(d[i], Key(key, i - pos)) else d[i])
  }

  /** A terminator lies at or after `pos`. */
  predicate Terminated(d: seq<bv8>, pos: nat) {
    pos <= |d| && Length(d[pos..]) < |d| - pos
  }

  /** Coding keeps the terminator where it is and makes no earlier one. */
  lemma LengthKept(d: seq<bv8>, pos: nat, key: bv8)
    requires Terminated(d, pos)
    ensures Length(Decoded(d, pos, key)[pos..]) == Length(d[pos..])
    ensures Length(Encoded(d, pos, key)[pos..]) == Length(d[pos..])
  {
    hide DecodeByte, EncodeByte, Length, Key;
    var n := Length(d[pos..]);
    var r, e := Decoded(d, pos, key), Encoded(d, pos, key);
    forall i | 0 <= i < n
      ensures r[pos..][i] != 0 && e[pos..][i] != 0
    {
      assert d[pos..][i] == d[pos + i];
      ByteInverts(d[pos + i], Key(key, i));
    }
    assert d[pos..][n] == d[pos + n];
    LengthIs(r[pos..], n);
    LengthIs(e[pos..], n);
  }

  /** The cipher is a bijection on terminated strings, for every key, and touches nothing else. */
  lemma StringRoundTrip(d: seq<bv8>, pos: nat, key: bv8)
    requires Terminated(d, pos)
    ensures Encoded(Decoded(d, pos, key), pos, key) == d && Decoded(Encoded(d, pos, key), pos, key) == d
    ensures forall i :: 0 <= i < |d| && !(pos <= i < pos + Length(d[pos..])) ==> Decoded(d, pos, key)[i] == d[i]
  {
    hide DecodeByte, EncodeByte, Length, Key;
    LengthKept(d, pos, key);
    var n := Length(d[pos..]);
    forall i | 0 <= i < |d|
      ensures Encoded(Decoded(d, pos, key), pos, key)[i] == d[i] && Decoded(Encoded(d, pos, key), pos, key)[i] == d[i]
    {
      if pos <= i < pos + n {
        assert d[pos..][i - pos] == d[i];
        ByteInverts(d[i], Key(key, i - pos));
      }
    }
  }

  method DecryptData7(d: array<bv8>, pos: nat, key0: bv8)
    requires Terminated(d[..], pos)
    modifies d
    ensures d[..] == Decoded(old(d[..]), pos, key0)
  {
    hide DecodeByte, Length, Key, Minus, Swap;
    ghost var before := d[..];
    ghost var n := Length(before[pos..]);
    assert before[pos..][n] == before[pos + n];
    var key := key0;
    FirstKey(key0);
    var i := 0;
    while d[pos + i] != 0
      invariant i <= n && key == Key(key0, i)
      invariant forall j :: 0 <= j < d.Length ==>
                  d[j] == if pos <= j < pos + i then DecodeByte(before[j], Key(key0, j - pos)) else before[j]
      decreases n - i
    {
      assert i < n;
      var b := d[pos + i];
      var c := Minus(Swap(b), key);
      if c == 0 {
        c := Minus(0, key);
      }
      DecodeIs(b, key, c);
      d[pos + i] := c;
      NextKey(key0, i);
      key := key + 67;
      i := i + 1;
    }
  }

  lemma FirstKey(key: bv8)
    ensures Key(key, 0) == key
  {
  }

  lemma NextKey(key: bv8, i: nat)
    ensures Key(key, i + 1) == Key(key, i) + 67
  {
  }

  lemma DecodeIs(b: bv8, key: bv8, c: bv8)
    requires c == if Minus(Swap(b), key) == 0 then Minus(0, key) else Minus(Swap(b), key)
    ensures c == DecodeByte(b, key)
  {
    hide Swap, Minus;
  }
}
