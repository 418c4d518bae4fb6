/**
 Capping a stored text field without breaking a character: UTF-8 as in sections 3 and 4 of RFC 3629.
 */
module Utf8Cap {
  import opened Basics

  predicate IsTail(b: byte) {
    128 <= b < 192
  }

  /** The octets of the character that `s` begins with, or 0 if it begins with none. */
  function CharLen(s: seq<byte>): (n: nat)
    ensures n <= 4 && n <= |s|
  {
    if s == [] then 0
    else
      var a := s[0];
      if a < 128 then 1
      else if 194 <= a < 224 && |s| >= 2 && IsTail(s[1]) then 2
      else if 224 <= a < 240 && |s| >= 3 && SecondOfThree(a, s[1]) && IsTail(s[2]) then 3
      else if 240 <= a < 245 && |s| >= 4 && SecondOfFour(a, s[1]) && IsTail(s[2]) && IsTail(s[3]) then 4
      else 0
  }

  /** No overlong forms and no surrogates. */
  predicate SecondOfThree(a: byte, b: byte) {
    if a == 224 then 160 <= b < 192 else if a == 237 then 128 <= b < 160 else IsTail(b)
  }

  /** No overlong forms and nothing above the last code point. */
  predicate SecondOfFour(a: byte, b: byte) {
    if a == 240 then 144 <= b < 192 else if a == 244 then 128 <= b < 144 else IsTail(b)
  }

  /** A sequence of whole characters. */
  predicate IsUtf8(s: seq<byte>) {
    s == [] || (CharLen(s) > 0 && IsUtf8(s[CharLen(s)..]))
  }

  /** Where a character begins, judged by one octet. */
  predicate IsCharBoundary(s: seq<byte>, i: nat) {
    i == 0 || i == |s| || (i < |s| && !IsTail(s[i]))
  }

  /** More octets behind a character do not change it, and a part of a character is none. */
  lemma CharOfPrefix(s: seq<byte>, i: nat)
    requires CharLen(s) > 0 && i <= |s|
    ensures CharLen(s[..i]) == if i < CharLen(s) then 0 else CharLen(s)
  {
  }

  lemma OnlyTailsInside(s: seq<byte>, i: nat)
    requires 0 < i < CharLen(s)
    ensures IsTail(s[i])
  {
  }

  lemma LeadIsNoTail(s: seq<byte>)
    requires CharLen(s) > 0
    ensures !IsTail(s[0])
  {
  }

  /** In a valid text, cutting leaves whole characters exactly at the positions that are no continuation octets. */
  lemma {:induction false} BoundaryIff(s: seq<byte>, i: nat)
    requires IsUtf8(s) && i <= |s|
    ensures IsUtf8(s[..i]) <==> IsCharBoundary(s, i)
    decreases |s|
  {
    if s == [] {
    } else {
      var n := CharLen(s);
      CharOfPrefix(s, i);
      if 0 < i < n {
        OnlyTailsInside(s, i);
      } else if i >= n {
        BoundaryIff(s[n..], i - n);
        assert s[..i][n..] == s[n..][..i - n];
        LeadOrEnd(s[n..]);
      }
    }
  }

  lemma LeadOrEnd(s: seq<byte>)
    requires IsUtf8(s)
    ensures s != [] ==> !IsTail(s[0])
  {
    if s != [] {
      LeadIsNoTail(s);
    }
  }

  lemma DropTwice<T>(s: seq<T>, n: nat, i: nat)
    requires n <= i <= |s|
    ensures s[n..][i - n..] == s[i..]
  {
  }

  lemma BoundaryInRest(s: seq<byte>, n: nat, i: nat)
    requires n <= i <= |s| && IsCharBoundary(s, i)
    ensures IsCharBoundary(s[n..], i - n)
  {
  }

  /** What is cut off is whole characters too. */
  lemma {:induction false} RestIsWhole(s: seq<byte>, i: nat)
    requires IsUtf8(s) && i <= |s| && IsCharBoundary(s, i)
    ensures IsUtf8(s[i..])
    decreases |s|
  {
    if i > 0 {
      var n := CharLen(s);
      if i < n {
        OnlyTailsInside(s, i);
      } else {
        BoundaryInRest(s, n, i);
        RestIsWhole(s[n..], i - n);
        DropTwice(s, n, i);
      }
    }
  }

  /** A boundary is never more than three octets back. */
  lemma {:induction false} BoundaryIsNear(s: seq<byte>, i: nat)
    requires IsUtf8(s) && 3 <= i <= |s|
    ensures IsCharBoundary(s, i) || IsCharBoundary(s, i - 1) || IsCharBoundary(s, i - 2) || IsCharBoundary(s, i - 3)
    decreases |s|
  {
    var n := CharLen(s);
    if i >= n + 3 {
      BoundaryIsNear(s[n..], i - n);
      LeadOrEnd(s[n..]);
    } else if i >= n {
      LeadOrEnd(s[n..]);
      assert IsCharBoundary(s, n) by {
        assert n < |s| ==> s[n] == s[n..][0];
      }
    }
  }

  lemma CharWithMore(s: seq<byte>, more: seq<byte>)
    requires CharLen(s) > 0
    ensures CharLen(s + more) == CharLen(s)
  {
  }

  lemma {:induction false} TextsJoin(a: seq<byte>, b: seq<byte>)
    requires IsUtf8(a) && IsUtf8(b)
    ensures IsUtf8(a + b)
    decreases |a|
  {
    if a == [] {
      assert a + b == b;
    } else {
      var n := CharLen(a);
      TextsJoin(a[n..], b);
      CharWithMore(a, b);
      SlicesOfLonger(a, b, n, n);
      OneMoreChar(a + b, n);
    }
  }

  lemma OneMoreChar(s: seq<byte>, n: nat)
    requires 0 < n == CharLen(s) && IsUtf8(s[n..])
    ensures IsUtf8(s)
  {
  }

  // ---------------------------------------------------------------------------
  // What the octets stand for
  // ---------------------------------------------------------------------------

  /** A code point that is no surrogate. */
  predicate IsScalar(c: nat) {
    c < 0xD800 || 0xE000 <= c < 0x11_0000
  }

  /** Six bits go into each octet but the first. */
  function CharOf(c: nat): seq<byte>
    requires IsScalar(c)
  {
    if c < 0x80 then [c]
    else if c < 0x800 then [0xC0 + c / 0x40, 0x80 + c % 0x40]
    else if c < 0x1_0000 then [0xE0 + c / 0x1000, 0x80 + c / 0x40 % 0x40, 0x80 + c % 0x40]
    else [0xF0 + c / 0x4_0000, 0x80 + c / 0x1000 % 0x40, 0x80 + c / 0x40 % 0x40, 0x80 + c % 0x40]
  }

  predicate AreScalars(cs: seq<nat>) {
    forall i | 0 <= i < |cs| :: IsScalar(cs[i])
  }

  function TextOf(cs: seq<nat>): seq<byte>
    requires AreScalars(cs)
  {
    if cs == [] then [] else CharOf(cs[0]) + TextOf(cs[1..])
  }

  /** The number with three or four such groups of bits. */
  lemma Groups(a: nat, b: nat, d: nat, e: nat)
    requires b < 64 && d < 64 && e < 64
    ensures var c := a * 0x4_0000 + b * 0x1000 + d * 0x40 + e;
            c / 0x4_0000 == a && c / 0x1000 == a * 64 + b && c / 0x1000 % 64 == b && c / 64 % 64 == d && c % 64 == e
  {
    var ab, abd, c := a * 64 + b, a * 0x1000 + b * 64 + d, a * 0x4_0000 + b * 0x1000 + d * 0x40 + e;
    LastGroup(a, b);
    LastGroup(ab, d);
    LastGroup(abd, e);
    GroupsBefore(c);
  }

  lemma LastGroup(front: nat, last: nat)
    requires last < 64
    ensures (front * 64 + last) / 64 == front && (front * 64 + last) % 64 == last
  {
  }

  lemma GroupsBefore(c: nat)
    ensures c / 0x1000 == c / 64 / 64 && c / 0x4_0000 == c / 64 / 64 / 64
  {
  }

  lemma CharOfIsChar(c: nat, rest: seq<byte>)
    requires IsScalar(c)
    ensures CharLen(CharOf(c) + rest) == |CharOf(c)|
  {
    var s := CharOf(c) + rest;
    Digits64(c);
    assert s[..|CharOf(c)|] == CharOf(c);
  }

  lemma Digits64(c: nat)
    requires c < 0x11_0000
    ensures c / 64 == c / 0x1000 * 64 + c / 64 % 64 && c / 0x1000 == c / 0x4_0000 * 64 + c / 0x1000 % 64
  {
    GroupsBefore(c);
  }

  /** Every character stands for a code point. */
  lemma CharHasPoint(s: seq<byte>) returns (c: nat)
    requires CharLen(s) > 0
    ensures IsScalar(c) && s[..CharLen(s)] == CharOf(c)
  {
    var n := CharLen(s);
    if n == 1 {
      c := s[0];
    } else if n == 2 {
      var a, b := s[0] as int - 0xC0, s[1] as int - 0x80;
      c := a * 64 + b;
      Groups(0, 0, a, b);
    } else if n == 3 {
      var a, b, d := s[0] as int - 0xE0, s[1] as int - 0x80, s[2] as int - 0x80;
      c := a * 0x1000 + b * 64 + d;
      Groups(0, a, b, d);
    } else {
      var a, b, d, e := s[0] as int - 0xF0, s[1] as int - 0x80, s[2] as int - 0x80, s[3] as int - 0x80;
      c := a * 0x4_0000 + b * 0x1000 + d * 64 + e;
      Groups(a, b, d, e);
    }
  }

  lemma {:induction false} TextIsUtf8(cs: seq<nat>)
    requires AreScalars(cs)
    ensures IsUtf8(TextOf(cs))
    decreases |cs|
  {
    if cs == [] {
    } else {
      var c, rest := CharOf(cs[0]), TextOf(cs[1..]);
      TextIsUtf8(cs[1..]);
      CharOfIsChar(cs[0], rest);
      assert (c + rest)[|c|..] == rest;
      OneMoreChar(c + rest, |c|);
    }
  }

  lemma {:induction false} Utf8IsText(s: seq<byte>) returns (cs: seq<nat>)
    requires IsUtf8(s)
    ensures AreScalars(cs) && TextOf(cs) == s
    decreases |s|
  {
    if s == [] {
      cs := [];
    } else {
      var n := CharLen(s);
      var c := CharHasPoint(s);
      var rest := Utf8IsText(s[n..]);
      cs := [c] + rest;
      assert cs[1..] == rest && s == s[..n] + s[n..];
    }
  }

  /** Valid UTF-8 is what encodes a list of code points without surrogates, each in the shortest form, and only that. */
  lemma Utf8Iff(s: seq<byte>)
    ensures IsUtf8(s) <==> exists cs :: AreScalars(cs) && TextOf(cs) == s
  {
    if IsUtf8(s) {
      var cs := Utf8IsText(s);
    }
    if cs :| AreScalars(cs) && TextOf(cs) == s {
      TextIsUtf8(cs);
    }
  }

  const MAX_FIELD_BYTES: nat := 256 * 1024

  /** The backward search for a boundary. */
  method CapText(v: seq<byte>, max: nat) returns (r: seq<byte>)
    requires IsUtf8(v)
    ensures r <= v && IsUtf8(r) && |r| <= max
    ensures IsUtf8(v[|r|..])
    ensures |v| <= max ==> r == v
    ensures |v| > max ==> |r| + 3 >= max
    ensures forall n | |r| < n <= max && n <= |v| :: !IsUtf8(v[..n])
  {
    if |v| <= max {
      assert v[|v|..] == [];
      return v;
    }
    var end := max;
    while end > 0 && !IsCharBoundary(v, end)
      invariant 0 <= end <= max
      invariant forall n | end < n <= max :: !IsCharBoundary(v, n)
    {
      end := end - 1;
    }
    BoundaryIff(v, end);
    RestIsWhole(v, end);
    if max >= 3 {
      BoundaryIsNear(v, max);
    }
    forall n | end < n <= max ensures !IsUtf8(v[..n]) {
      BoundaryIff(v, n);
    }
    r := v[..end];
  }

  /** cap_field: the longest prefix of whole characters within 256 KiB. */
  method CapField(s: Option<seq<byte>>) returns (r: Option<seq<byte>>)
    requires s.Some? ==> IsUtf8(s.value)
    ensures r.Some? <==> s.Some?
    ensures r.Some? ==> r.value <= s.value && IsUtf8(r.value) && |r.value| <= 262_144
    ensures r.Some? && |s.value| <= 262_144 ==> r == s
    ensures r.Some? && |s.value| > 262_144 ==> |r.value| >= 262_141
    ensures r.Some? ==> forall n | |r.value| < n <= 262_144 && n <= |s.value| :: !IsUtf8(s.value[..n])
  {
    if s.None? {
      return None;
    }
    var capped := CapText(s.value, MAX_FIELD_BYTES);
    r := Some(capped);
  }
}
