/** Decimal printing and the integer parsers of the standard library, over ASCII octets. */
module Decimal {
  import opened Basics

  const PLUS: byte := 43
  const MINUS: byte := 45
  const ZERO: byte := 48

  predicate IsDigit(b: byte) {
    ZERO <= b <= ZERO + 9
  }

  predicate AllDigits(s: seq<byte>) {
    forall i | 0 <= i < |s| :: IsDigit(s[i])
  }

  /** `{}` and `%d` of a natural number. */
  function Print(n: nat): (s: seq<byte>)
    ensures s != [] && AllDigits(s)
  {
    if n < 10 then [ZERO + n] else Print(n / 10) + [ZERO + n % 10]
  }

  function PrintInt(c: int): (s: seq<byte>)
    ensures s != []
    ensures forall i | 0 <= i < |s| :: IsDigit(s[i]) || s[i] == MINUS
  {
    if c < 0 then [MINUS] + Print(-c) else Print(c)
  }

  /** In octets: the digits from 48 up, a minus in front of a negative number, and the number before the last digit. */
  lemma PrintIs(n: nat)
    ensures Print(n) == (if n < 10 then [] else Print(n / 10)) + [48 + n % 10]
    ensures PrintInt(n) == Print(n) && (n > 0 ==> PrintInt(0 - n) == [45] + Print(n))
  {
    if n < 10 {
      assert [] + [48 + n] == [48 + n];
    }
  }

  function Value(s: seq<byte>): nat
    requires AllDigits(s)
  {
    if s == [] then 0 else 10 * Value(s[..|s| - 1]) + (s[|s| - 1] - ZERO)
  }

  lemma {:induction false} ValueOfPrint(n: nat)
    ensures Value(Print(n)) == n
  {
    if n >= 10 {
      var s := Print(n);
      assert s[..|s| - 1] == Print(n / 10);
      ValueOfPrint(n / 10);
    } else {
      assert Print(n)[..0] == [];
    }
  }

  /** `str::parse` to an unsigned type: an optional plus, then digits whose value fits. */
  function ParseUnsigned(s: seq<byte>, limit: nat): (r: Option<nat>)
    ensures r.Some? ==> r.value < limit && forall b | b in s :: IsDigit(b) || b == PLUS
  {
    var digits := if |s| > 1 && s[0] == PLUS then s[1..] else s;
    if digits != [] && AllDigits(digits) && Value(digits) < limit then
      assert s == digits || s == [PLUS] + digits;
      Some(Value(digits))
    else None
  }

  /** `str::parse` to a signed type of magnitude `limit`: an optional sign, then digits that fit. */
  function ParseSigned(s: seq<byte>, limit: int): (r: Option<int>)
    requires 0 < limit
    ensures r.Some? ==> -limit <= r.value < limit
    ensures r.Some? ==> forall b | b in s :: IsDigit(b) || b == PLUS || b == MINUS
  {
    if |s| > 1 && s[0] == MINUS then
      assert s == [MINUS] + s[1..];
      if AllDigits(s[1..]) && Value(s[1..]) <= limit then Some(0 - Value(s[1..])) else None
    else
      ParseUnsigned(s, limit)
  }

  /** Digits without a sign, leading zeros included, parse to their value. */
  lemma ParseDigits(s: seq<byte>, limit: nat)
    requires s != [] && AllDigits(s)
    ensures ParseUnsigned(s, limit) == if Value(s) < limit then Some(Value(s)) else None
  {
    assert IsDigit(s[0]);
  }

  /** A plus in front of digits changes nothing, a minus the sign, and a sign alone is no number. */
  lemma ParseWithSign(digits: seq<byte>, limit: nat)
    requires digits != [] && AllDigits(digits) && 0 < limit
    ensures ParseUnsigned([43] + digits, limit) == (if Value(digits) < limit then Some(Value(digits)) else None)
    ensures ParseSigned([43] + digits, limit) == (if Value(digits) < limit then Some(Value(digits)) else None)
    ensures ParseSigned([45] + digits, limit) == (if Value(digits) <= limit then Some(0 - Value(digits)) else None)
    ensures ParseUnsigned([45] + digits, limit).None? && ParseUnsigned([], limit).None?
    ensures ParseSigned([43], limit).None? && ParseSigned([45], limit).None?
  {
    assert ([43] + digits)[1..] == digits && ([45] + digits)[1..] == digits && !IsDigit(([45] + digits)[0]);
    assert !IsDigit([43][0]) && !IsDigit([45][0]);
  }

  lemma ParsePrintUnsigned(n: nat, limit: nat)
    ensures ParseUnsigned(Print(n), limit) == if n < limit then Some(n) else None
  {
    ValueOfPrint(n);
    ParseDigits(Print(n), limit);
  }

  lemma ParsePrintSigned(c: int, limit: int)
    requires 0 < limit
    ensures ParseSigned(PrintInt(c), limit) == if -limit <= c < limit then Some(c) else None
  {
    if c < 0 {
      assert PrintInt(c)[1..] == Print(-c);
      ValueOfPrint(-c);
    } else {
      assert IsDigit(Print(c)[0]);
      ParsePrintUnsigned(c, limit);
    }
  }
}
