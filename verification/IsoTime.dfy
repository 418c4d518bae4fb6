/**
 ISO 8601 timestamps as the session index stores and compares them, and the approximate parser that the
 daily sync uses to read them back.
 */
module IsoTime {
  import opened Basics
  import opened Decimal
  import opened Calendar

  const LETTER_T: byte := 84
  const LETTER_Z: byte := 90
  const COLON: byte := 58
  const SPACE: byte := 32
  const DOT: byte := 46

  /** Zero-padding to a minimum width. */
  function Zeros(n: nat): (s: seq<byte>)
    ensures |s| == n && forall i | 0 <= i < n :: s[i] == ZERO
  {
    seq(n, _ => ZERO)
  }

  function Pad(width: nat, n: nat): (s: seq<byte>)
    ensures |s| >= width && s != [] && AllDigits(s)
  {
    var digits := Print(n);
    Zeros(if |digits| < width then width - |digits| else 0) + digits
  }

  function IsoOf(p: Parts): seq<byte> {
    Pad(4, p.year) + ([MINUS] + (Pad(2, p.month) + ([MINUS] + (Pad(2, p.day) + ([LETTER_T] +
    (Pad(2, p.hour) + ([COLON] + (Pad(2, p.minute) + ([COLON] + (Pad(2, p.second) + [LETTER_Z]))))))))))
  }

  ghost function Iso(secs: nat): seq<byte> {
    IsoOf(Reading(secs))
  }

  method EpochToIso(secs: nat) returns (iso: seq<byte>)
    requires secs < U64_LIMIT
    ensures iso == Iso(secs)
  {
    var p := EpochToParts(secs);
    ReadingIsUnique(p, secs);
    iso := IsoOf(p);
  }

  lemma TwoDigits(n: nat)
    requires n < 100
    ensures Pad(2, n) == [48 + n / 10, 48 + n % 10]
  {
    if n >= 10 {
      assert Print(n / 10) == [48 + n / 10];
    }
  }

  lemma FourDigits(n: nat)
    requires n < 10_000
    ensures Pad(4, n) == [48 + n / 1000, 48 + n / 100 % 10, 48 + n / 10 % 10, 48 + n % 10]
  {
    assert n / 10 / 10 == n / 100 && n / 10 / 10 / 10 == n / 1000;
    if n >= 10 {
      assert Print(n) == Print(n / 10) + [48 + n % 10];
    }
    if n >= 100 {
      assert Print(n / 10) == Print(n / 10 / 10) + [48 + n / 10 % 10];
    }
    if n >= 1000 {
      assert Print(n / 10 / 10) == Print(n / 10 / 10 / 10) + [48 + n / 10 / 10 % 10];
      assert Print(n / 1000) == [48 + n / 1000];
    }
  }

  /** Up to the year 9999 the text is YYYY-MM-DDTHH:MM:SSZ, octet by octet. */
  lemma IsoIs(p: Parts)
    requires p.year < 10_000 && p.month < 100 && p.day < 100 && p.hour < 100 && p.minute < 100 && p.second < 100
    ensures IsoOf(p) ==
            [48 + p.year / 1000, 48 + p.year / 100 % 10, 48 + p.year / 10 % 10, 48 + p.year % 10, 45,
             48 + p.month / 10, 48 + p.month % 10, 45, 48 + p.day / 10, 48 + p.day % 10, 84,
             48 + p.hour / 10, 48 + p.hour % 10, 58, 48 + p.minute / 10, 48 + p.minute % 10, 58,
             48 + p.second / 10, 48 + p.second % 10, 90]
  {
    FourDigits(p.year);
    TwoDigits(p.month);
    TwoDigits(p.day);
    TwoDigits(p.hour);
    TwoDigits(p.minute);
    TwoDigits(p.second);
  }

  // ---------------------------------------------------------------------------
  // Text order
  // ---------------------------------------------------------------------------

  /** The byte order in which SQLite compares text. */
  predicate LexLess(a: seq<byte>, b: seq<byte>)
    decreases |a|
  {
    b != [] && (a == [] || a[0] < b[0] || (a[0] == b[0] && LexLess(a[1..], b[1..])))
  }

  lemma {:induction false} LexIrreflexive(a: seq<byte>)
    ensures !LexLess(a, a)
    decreases |a|
  {
    if a != [] {
      LexIrreflexive(a[1..]);
    }
  }

  lemma {:induction false} LexConcat(a: seq<byte>, b: seq<byte>, c: seq<byte>, d: seq<byte>)
    requires |a| == |c|
    ensures LexLess(a + b, c + d) <==> LexLess(a, c) || (a == c && LexLess(b, d))
    decreases |a|
  {
    if a == [] {
      assert a + b == b && c + d == d;
    } else {
      assert (a + b)[0] == a[0] && (c + d)[0] == c[0];
      assert (a + b)[1..] == a[1..] + b && (c + d)[1..] == c[1..] + d;
      LexConcat(a[1..], b, c[1..], d);
      assert a == [a[0]] + a[1..] && c == [c[0]] + c[1..];
    }
  }

  /** Exactly `width` digits. */
  function Fixed(width: nat, n: nat): (s: seq<byte>)
    ensures |s| == width
  {
    if width == 0 then [] else Fixed(width - 1, n / 10) + [ZERO + n % 10]
  }

  function Power10(w: nat): nat {
    if w == 0 then 1 else 10 * Power10(w - 1)
  }

  lemma {:induction false} ZeroIsZeros(width: nat)
    ensures Fixed(width, 0) == Zeros(width)
  {
    if width > 0 {
      ZeroIsZeros(width - 1);
    }
  }

  lemma {:induction false} PadIsFixed(width: nat, n: nat)
    requires width > 0 && n < Power10(width)
    ensures Pad(width, n) == Fixed(width, n)
  {
    if n < 10 {
      assert n / 10 == 0 && n % 10 == n;
      ZeroIsZeros(width - 1);
    } else {
      assert width > 1 by { assert Power10(1) == 10 * Power10(0) == 10; }
      PadIsFixed(width - 1, n / 10);
      assert Print(n) == Print(n / 10) + [ZERO + n % 10];
      var z := if |Print(n / 10)| < width - 1 then width - 1 - |Print(n / 10)| else 0;
      AppendAssoc(Zeros(z), Print(n / 10), [ZERO + n % 10]);
    }
  }

  lemma {:induction false} FixedOrder(width: nat, m: nat, n: nat)
    requires m < Power10(width) && n < Power10(width)
    ensures LexLess(Fixed(width, m), Fixed(width, n)) <==> m < n
    ensures Fixed(width, m) == Fixed(width, n) <==> m == n
  {
    if width > 0 {
      FixedOrder(width - 1, m / 10, n / 10);
      var a, b := [ZERO + m % 10], [ZERO + n % 10];
      LexConcat(Fixed(width - 1, m / 10), a, Fixed(width - 1, n / 10), b);
      assert LexLess(a, b) <==> m % 10 < n % 10 by { LexIrreflexive([]); assert a[1..] == b[1..] == []; }
      assert m == 10 * (m / 10) + m % 10 && n == 10 * (n / 10) + n % 10;
      var x, y := Fixed(width - 1, m / 10), Fixed(width - 1, n / 10);
      assert (x + a)[..width - 1] == x && (y + b)[..width - 1] == y;
      assert (x + a)[width - 1] == a[0] && (y + b)[width - 1] == b[0];
    }
  }

  /** A padded field decides the order, or leaves it to the rest. */
  lemma FieldOrder(width: nat, m: nat, n: nat, r: seq<byte>, s: seq<byte>)
    requires width > 0 && m < Power10(width) && n < Power10(width)
    ensures LexLess(Pad(width, m) + r, Pad(width, n) + s) <==> m < n || (m == n && LexLess(r, s))
  {
    PadIsFixed(width, m);
    PadIsFixed(width, n);
    LexConcat(Pad(width, m), r, Pad(width, n), s);
    FixedOrder(width, m, n);
  }

  lemma SeparatorOrder(sep: byte, r: seq<byte>, s: seq<byte>)
    ensures LexLess([sep] + r, [sep] + s) <==> LexLess(r, s)
  {
    LexConcat([sep], r, [sep], s);
    LexIrreflexive([sep]);
  }

  lemma SeparatedFieldOrder(sep: byte, m: nat, n: nat, r: seq<byte>, s: seq<byte>)
    requires m < 100 && n < 100
    ensures LexLess([sep] + (Pad(2, m) + r), [sep] + (Pad(2, n) + s)) <==> m < n || (m == n && LexLess(r, s))
  {
    assert Power10(2) == 100 by { assert Power10(1) == 10 && Power10(0) == 1; }
    SeparatorOrder(sep, Pad(2, m) + r, Pad(2, n) + s);
    FieldOrder(2, m, n, r, s);
  }

  /** With four-digit years, comparing the texts compares the fields. */
  lemma TextOrderIsFieldOrder(p: Parts, q: Parts)
    requires Valid(p) && Valid(q) && p.year < 10000 && q.year < 10000
    ensures LexLess(IsoOf(p), IsoOf(q)) <==> Earlier(p, q)
  {
    var pS, qS := Pad(2, p.second) + [LETTER_Z], Pad(2, q.second) + [LETTER_Z];
    var pM, qM := Pad(2, p.minute) + ([COLON] + pS), Pad(2, q.minute) + ([COLON] + qS);
    var pH, qH := Pad(2, p.hour) + ([COLON] + pM), Pad(2, q.hour) + ([COLON] + qM);
    var pD, qD := Pad(2, p.day) + ([LETTER_T] + pH), Pad(2, q.day) + ([LETTER_T] + qH);
    var pMo, qMo := Pad(2, p.month) + ([MINUS] + pD), Pad(2, q.month) + ([MINUS] + qD);
    assert Power10(4) == 10000 by {
      assert Power10(0) == 1 && Power10(1) == 10 && Power10(2) == 100 && Power10(3) == 1000;
    }
    FieldOrder(4, p.year, q.year, [MINUS] + pMo, [MINUS] + qMo);
    MonthsFitTwoDigits(p);
    MonthsFitTwoDigits(q);
    SeparatedFieldOrder(MINUS, p.month, q.month, [MINUS] + pD, [MINUS] + qD);
    SeparatedFieldOrder(MINUS, p.day, q.day, [LETTER_T] + pH, [LETTER_T] + qH);
    SeparatedFieldOrder(LETTER_T, p.hour, q.hour, [COLON] + pM, [COLON] + qM);
    SeparatedFieldOrder(COLON, p.minute, q.minute, [COLON] + pS, [COLON] + qS);
    SeparatedFieldOrder(COLON, p.second, q.second, [LETTER_Z], [LETTER_Z]);
    LexIrreflexive([LETTER_Z]);
  }

  lemma MonthsFitTwoDigits(p: Parts)
    requires Valid(p)
    ensures p.day < 100
  {
  }

  /** 10000-01-01T00:00:00Z */
  const YEAR_10000: nat := 253_402_300_800

  lemma ReadingOfYear10000()
    ensures Reading(YEAR_10000) == Parts(10000, 1, 1, 0, 0, 0)
  {
    var p := Parts(10000, 1, 1, 0, 0, 0);
    assert DayNumber(10000, 1, 1) == 2_932_897;
    FieldOrderIsTimeOrder(Reading(YEAR_10000), p);
  }

  lemma YearBelow10000(secs: nat)
    requires secs < YEAR_10000
    ensures Reading(secs).year < 10000
  {
    ReadingOfYear10000();
    FieldOrderIsTimeOrder(Reading(secs), Reading(YEAR_10000));
  }

  /** Comparing stored timestamps as text compares the instants, for years up to 9999. */
  lemma TextOrderIsTimeOrder(t: nat, u: nat)
    requires t < YEAR_10000 && u < YEAR_10000
    ensures LexLess(Iso(t), Iso(u)) <==> t < u
  {
    YearBelow10000(t);
    YearBelow10000(u);
    TextOrderIsFieldOrder(Reading(t), Reading(u));
    FieldOrderIsTimeOrder(Reading(t), Reading(u));
  }

  lemma SecondByteDecides(a: seq<byte>, b: seq<byte>)
    requires |a| >= 2 && |b| >= 2 && a[0] == b[0] && a[1] > b[1]
    ensures !LexLess(a, b)
  {
    assert a[1..][0] == a[1] && b[1..][0] == b[1];
  }

  lemma IsoStartsWithYear(p: Parts)
    ensures |IsoOf(p)| >= 4
    ensures forall i | 0 <= i < 4 :: IsoOf(p)[i] == Pad(4, p.year)[i]
  {
  }

  lemma LongNumberIsNotPadded(n: nat)
    requires |Print(n)| >= 4
    ensures Pad(4, n) == Print(n)
  {
    assert Zeros(0) == [];
  }

  /** Two unpadded years that share their first digit compare by the second. */
  lemma SecondYearDigitDecides(p: Parts, q: Parts)
    requires |Print(p.year)| >= 4 && |Print(q.year)| >= 4
    requires Print(p.year)[0] == Print(q.year)[0] && Print(p.year)[1] > Print(q.year)[1]
    ensures !LexLess(IsoOf(p), IsoOf(q))
  {
    LongNumberIsNotPadded(p.year);
    LongNumberIsNotPadded(q.year);
    IsoStartsWithYear(p);
    IsoStartsWithYear(q);
    SecondByteDecides(IsoOf(p), IsoOf(q));
  }

  lemma YearsWithDifferentWidths(p: Parts, q: Parts)
    requires p.year == 1970 && q.year == 10000
    ensures !LexLess(IsoOf(p), IsoOf(q))
  {
    PrintOf(197, 0);
    PrintOf(19, 7);
    PrintOf(1, 9);
    PrintOf(1000, 0);
    PrintOf(100, 0);
    PrintOf(10, 0);
    PrintOf(1, 0);
    assert Print(1) == [ZERO + 1];
    SecondYearDigitDecides(p, q);
  }

  lemma PrintOf(n: nat, d: nat)
    requires n > 0 && d < 10
    ensures Print(10 * n + d) == Print(n) + [ZERO + d]
  {
  }

  lemma InstantsWithDifferentWidths(t: nat, u: nat)
    requires Reading(t).year == 1970 && Reading(u).year == 10000
    ensures !LexLess(Iso(t), Iso(u))
  {
    YearsWithDifferentWidths(Reading(t), Reading(u));
  }

  /** The first instant of the year 10000 sorts before one of the year 1970. */
  lemma FiveDigitYearSortsFirst() returns (t: nat, u: nat)
    ensures t < u == YEAR_10000 && !LexLess(Iso(t), Iso(u))
  {
    var p := Parts(1970, 1, 1, 0, 0, 0);
    t, u := Seconds(p), YEAR_10000;
    ReadingIsUnique(p, t);
    ReadingOfYear10000();
    InstantsWithDifferentWidths(t, u);
  }

  /** Text order equals time order on a whole range of instants exactly when the range ends by the year 9999. */
  lemma TextOrderIsTimeOrderIff(limit: nat)
    ensures (forall t: nat, u: nat | t < limit && u < limit :: LexLess(Iso(t), Iso(u)) <==> t < u) <==> limit <= YEAR_10000
  {
    if limit <= YEAR_10000 {
      forall t: nat, u: nat | t < limit && u < limit ensures LexLess(Iso(t), Iso(u)) <==> t < u {
        TextOrderIsTimeOrder(t, u);
      }
    } else {
      var t, u := FiveDigitYearSortsFirst();
      assert !(LexLess(Iso(t), Iso(u)) <==> t < u);
    }
  }

  /**
   The age cut-off of the retention queries: a record is picked exactly when it was created more than the
   given number of days ago, counted from the epoch when the days reach back before it.
   */
  lemma AgeCutoffIsExact(created: nat, now: nat, days: nat)
    requires created < YEAR_10000 && now < YEAR_10000
    ensures var cutoff := if days * 86400 <= now then now - days * 86400 else 0;
            LexLess(Iso(created), Iso(cutoff)) <==> created + days * 86400 < now
  {
    var cutoff := if days * 86400 <= now then now - days * 86400 else 0;
    TextOrderIsTimeOrder(created, cutoff);
  }

  // ---------------------------------------------------------------------------
  // The approximate parser
  // ---------------------------------------------------------------------------

  predicate IsBlank(b: byte) {
    b == SPACE || 9 <= b <= 13
  }

  function TrimStart(s: seq<byte>): seq<byte> {
    if s != [] && IsBlank(s[0]) then TrimStart(s[1..]) else s
  }

  function TrimEnd(s: seq<byte>): seq<byte> {
    if s != [] && IsBlank(s[|s| - 1]) then TrimEnd(s[..|s| - 1]) else s
  }

  /** Every T becomes a blank and every Z disappears. */
  function Replaced(s: seq<byte>): seq<byte> {
    if s == [] then []
    else (if s[0] == LETTER_T then [SPACE] else if s[0] == LETTER_Z then [] else [s[0]]) + Replaced(s[1..])
  }

  predicate IsSeparator(b: byte) {
    b == MINUS || b == SPACE || b == COLON || b == DOT
  }

  /** Split at every separator; a text with n separators has n + 1 parts. */
  function Split(s: seq<byte>): (parts: seq<seq<byte>>)
    ensures parts != []
  {
    if s == [] then [[]]
    else
      var rest := Split(s[1..]);
      if IsSeparator(s[0]) then [[]] + rest else [[s[0]] + rest[0]] + rest[1..]
  }

  function NumberOr(part: seq<byte>, default: nat): nat {
    var n := ParseUnsigned(part, U64_LIMIT);
    if n.Some? then n.value else default
  }

  /**
   chrono_parse_iso in checked u64 arithmetic: None where a step leaves the range of u64. No partial result
   exceeds the total, so only the two subtractions and the total need a check.
   */
  function ParseIso(ts: seq<byte>): Option<nat> {
    var fields := FieldsIn(ts);
    if fields.None? then Some(0) else Approximate(fields.value)
  }

  /** The first six parts as numbers, when there are that many. */
  function FieldsIn(ts: seq<byte>): Option<Parts> {
    FieldsOf(Split(Replaced(TrimEnd(TrimStart(ts)))))
  }

  function FieldsOf(parts: seq<seq<byte>>): Option<Parts> {
    if |parts| < 6 then None
    else
      Some(Parts(NumberOr(parts[0], 2000), NumberOr(parts[1], 1), NumberOr(parts[2], 1),
                 NumberOr(parts[3], 0), NumberOr(parts[4], 0), NumberOr(parts[5], 0)))
  }

  function Approximate(p: Parts): Option<nat> {
    if p.year < 1970 then None
    else
      var index := if p.month == 0 then 0 else if p.month - 1 > 11 then 11 else p.month - 1;
      var days := (p.year - 1970) * 365 + (p.year - 1969) / 4 + CUMULATIVE[index] + p.day;
      if days == 0 then None
      else
        var total := (days - 1) * 86400 + p.hour * 3600 + p.minute * 60 + p.second;
        if total < U64_LIMIT then Some(total) else None
  }

  lemma {:induction false} ReplacedKeepsDigits(s: seq<byte>, rest: seq<byte>)
    requires AllDigits(s)
    ensures Replaced(s + rest) == s + Replaced(rest)
    decreases |s|
  {
    if s == [] {
      assert s + rest == rest && [] + Replaced(rest) == Replaced(rest);
    } else {
      assert IsDigit(s[0]);
      assert (s + rest)[0] == s[0] && (s + rest)[1..] == s[1..] + rest;
      ReplacedKeepsDigits(s[1..], rest);
      assert [s[0]] + (s[1..] + Replaced(rest)) == s + Replaced(rest);
    }
  }

  lemma ReplacedSeparator(b: byte, rest: seq<byte>)
    requires b != LETTER_Z
    ensures Replaced([b] + rest) == [if b == LETTER_T then SPACE else b] + Replaced(rest)
  {
    assert ([b] + rest)[1..] == rest;
  }

  lemma {:induction false} SplitAfterDigits(s: seq<byte>, sep: byte, rest: seq<byte>)
    requires AllDigits(s) && IsSeparator(sep)
    ensures Split(s + ([sep] + rest)) == [s] + Split(rest)
    decreases |s|
  {
    if s == [] {
      assert s + ([sep] + rest) == [sep] + rest;
      assert ([sep] + rest)[1..] == rest;
    } else {
      assert IsDigit(s[0]);
      var t := s + ([sep] + rest);
      assert t[0] == s[0] && t[1..] == s[1..] + ([sep] + rest);
      SplitAfterDigits(s[1..], sep, rest);
      assert ([s[1..]] + Split(rest))[1..] == Split(rest);
      assert [s[0]] + s[1..] == s;
    }
  }

  lemma {:induction false} SplitDigits(s: seq<byte>)
    requires AllDigits(s)
    ensures Split(s) == [s]
    decreases |s|
  {
    if s != [] {
      assert IsDigit(s[0]);
      SplitDigits(s[1..]);
      assert [s[0]] + s[1..] == s;
    }
  }

  lemma {:induction false} ValueOfZeros(n: nat, digits: seq<byte>)
    requires AllDigits(digits)
    ensures AllDigits(Zeros(n) + digits) && Value(Zeros(n) + digits) == Value(digits)
    decreases |digits|, n
  {
    var s := Zeros(n) + digits;
    if digits != [] {
      assert s[..|s| - 1] == Zeros(n) + digits[..|digits| - 1];
      ValueOfZeros(n, digits[..|digits| - 1]);
    } else if n > 0 {
      assert s[..|s| - 1] == Zeros(n - 1) + digits;
      ValueOfZeros(n - 1, digits);
    } else {
      assert s == digits;
    }
  }

  lemma PaddedNumberReadsBack(width: nat, n: nat, default: nat)
    requires n < U64_LIMIT
    ensures NumberOr(Pad(width, n), default) == n
  {
    var digits := Print(n);
    ValueOfZeros(if |digits| < width then width - |digits| else 0, digits);
    ValueOfPrint(n);
    ParseDigits(Pad(width, n), U64_LIMIT);
  }

  /** A timestamp up to the minute with anything behind, as epoch_to_iso writes it and as the parser sees it. */
  function UpToMinute(p: Parts, between: byte, rest: seq<byte>): seq<byte> {
    Pad(4, p.year) + ([MINUS] + (Pad(2, p.month) + ([MINUS] + (Pad(2, p.day) + ([between] +
    (Pad(2, p.hour) + ([COLON] + (Pad(2, p.minute) + ([COLON] + rest)))))))))
  }

  lemma UpToMinuteReplaced(p: Parts, rest: seq<byte>)
    ensures Replaced(UpToMinute(p, LETTER_T, rest)) == UpToMinute(p, SPACE, Replaced(rest))
  {
    var mi := Pad(2, p.minute) + ([COLON] + rest);
    var h := Pad(2, p.hour) + ([COLON] + mi);
    var d := Pad(2, p.day) + ([LETTER_T] + h);
    var mo := Pad(2, p.month) + ([MINUS] + d);
    ReplacedSeparator(COLON, rest);
    ReplacedKeepsDigits(Pad(2, p.minute), [COLON] + rest);
    ReplacedSeparator(COLON, mi);
    ReplacedKeepsDigits(Pad(2, p.hour), [COLON] + mi);
    ReplacedSeparator(LETTER_T, h);
    ReplacedKeepsDigits(Pad(2, p.day), [LETTER_T] + h);
    ReplacedSeparator(MINUS, d);
    ReplacedKeepsDigits(Pad(2, p.month), [MINUS] + d);
    ReplacedSeparator(MINUS, mo);
    ReplacedKeepsDigits(Pad(4, p.year), [MINUS] + mo);
  }

  lemma UpToMinuteSplit(p: Parts, rest: seq<byte>)
    ensures Split(UpToMinute(p, SPACE, rest)) ==
            [Pad(4, p.year)] + ([Pad(2, p.month)] + ([Pad(2, p.day)] + ([Pad(2, p.hour)] + ([Pad(2, p.minute)] + Split(rest)))))
  {
    var mi := Pad(2, p.minute) + ([COLON] + rest);
    var h := Pad(2, p.hour) + ([COLON] + mi);
    var d := Pad(2, p.day) + ([SPACE] + h);
    var mo := Pad(2, p.month) + ([MINUS] + d);
    SplitAfterDigits(Pad(2, p.minute), COLON, rest);
    SplitAfterDigits(Pad(2, p.hour), COLON, mi);
    SplitAfterDigits(Pad(2, p.day), SPACE, h);
    SplitAfterDigits(Pad(2, p.month), MINUS, d);
    SplitAfterDigits(Pad(4, p.year), MINUS, mo);
  }

  lemma ReplacedEnd(s: seq<byte>)
    requires AllDigits(s)
    ensures Replaced(s + [LETTER_Z]) == s
  {
    ReplacedKeepsDigits(s, [LETTER_Z]);
    assert [LETTER_Z][1..] == [] && s + [] == s;
  }

  /** The parts of a timestamp without a fraction of a second. */
  lemma SecondsSplit(s: seq<byte>)
    requires AllDigits(s)
    ensures Split(Replaced(s + [LETTER_Z])) == [s]
  {
    ReplacedEnd(s);
    SplitDigits(s);
  }

  /** With a fraction. */
  lemma FractionSplit(s: seq<byte>, fraction: seq<byte>)
    requires AllDigits(s) && AllDigits(fraction)
    ensures Split(Replaced(s + ([DOT] + (fraction + [LETTER_Z])))) == [s] + [fraction]
  {
    ReplacedKeepsDigits(s, [DOT] + (fraction + [LETTER_Z]));
    ReplacedSeparator(DOT, fraction + [LETTER_Z]);
    ReplacedEnd(fraction);
    SplitAfterDigits(s, DOT, fraction);
    SplitDigits(fraction);
  }

  /** The text of an instant with `rest` in place of the seconds and the final letter. */
  lemma IsoIsUpToMinute(p: Parts)
    ensures IsoOf(p) == UpToMinute(p, LETTER_T, Pad(2, p.second) + [LETTER_Z])
  {
  }

  /** Years divisible by 100 but not by 400 from 1970 up to but not including `y`: the rule knows nothing of them. */
  function SkippedLeaps(y: nat): int
    requires y >= 1970
  {
    (y - 1) / 100 - (y - 1) / 400 - 15
  }

  predicate AfterLeapDay(p: Parts) {
    p.month > 2 && Leap(p.year)
  }

  /** How far the parser is off: a day too many per skipped century, a day too few after a leap day. */
  function Error(p: Parts): int
    requires p.year >= 1970
  {
    86400 * (SkippedLeaps(p.year) - (if AfterLeapDay(p) then 1 else 0))
  }

  lemma QuarterYears(y: nat)
    requires y >= 1970
    ensures (y - 1969) / 4 == (y - 1) / 4 - 492
  {
    assert y - 1 == (y - 1969) + 4 * 492;
  }

  lemma SkippedLeapsIsNatural(y: nat)
    requires y >= 1970
    ensures SkippedLeaps(y) >= 0
    ensures SkippedLeaps(y) == 0 <==> y <= 2100
  {
    var q, r := (y - 1) / 400, (y - 1) % 400;
    var c, r' := r / 100, r % 100;
    assert y - 1 == 400 * q + r && r == 100 * c + r';
    DivisionIsUnique(y - 1, 100, 4 * q + c, r');
    assert SkippedLeaps(y) == 3 * q + c - 15;
    assert q >= 4 && (q == 4 ==> c >= 3);
  }

  predicate AreBlanks(s: seq<byte>) {
    forall i | 0 <= i < |s| :: s[i] == 32 || 9 <= s[i] <= 13
  }

  /** Blanks around a text are dropped. */
  lemma {:induction false} BlanksAreTrimmed(before: seq<byte>, s: seq<byte>, after: seq<byte>)
    requires AreBlanks(before) && AreBlanks(after)
    requires s != [] && !IsBlank(s[0]) && !IsBlank(s[|s| - 1])
    ensures TrimEnd(TrimStart(before + s + after)) == s
    decreases |before| + |after|
  {
    var text := before + s + after;
    if before != [] {
      assert text[0] == before[0] && text[1..] == (before[1..] + s) + after;
      BlanksAreTrimmed(before[1..], s, after);
    } else {
      assert text == s + after && text[0] == s[0];
      if after == [] {
        assert text == s;
      } else {
        assert text[|text| - 1] == after[|after| - 1] && text[..|text| - 1] == [] + s + after[..|after| - 1];
        BlanksAreTrimmed([], s, after[..|after| - 1]);
      }
    }
  }

  lemma SixPartsAtLeast<T>(a: T, b: T, c: T, d: T, e: T, f: T, rest: seq<T>)
    ensures var s := [a] + ([b] + ([c] + ([d] + ([e] + ([f] + rest)))));
            |s| >= 6 && s[0] == a && s[1] == b && s[2] == c && s[3] == d && s[4] == e && s[5] == f
  {
  }

  lemma EndsOf(p: Parts, end: seq<byte>)
    requires end != []
    ensures var text := UpToMinute(p, LETTER_T, end);
            text != [] && IsDigit(text[0]) && text[|text| - 1] == end[|end| - 1]
  {
    assert IsDigit(Pad(4, p.year)[0]);
  }

  lemma PartsReadBack(p: Parts, rest: seq<seq<byte>>)
    requires Valid(p) && p.year < U64_LIMIT
    ensures FieldsOf([Pad(4, p.year)] + ([Pad(2, p.month)] + ([Pad(2, p.day)] + ([Pad(2, p.hour)] + ([Pad(2, p.minute)] +
                     ([Pad(2, p.second)] + rest)))))) == Some(p)
  {
    var parts := [Pad(4, p.year)] + ([Pad(2, p.month)] + ([Pad(2, p.day)] + ([Pad(2, p.hour)] + ([Pad(2, p.minute)] +
                 ([Pad(2, p.second)] + rest)))));
    SixPartsAtLeast(Pad(4, p.year), Pad(2, p.month), Pad(2, p.day), Pad(2, p.hour), Pad(2, p.minute), Pad(2, p.second), rest);
    FieldsReadBack(p, parts);
  }

  lemma TrimmedReadsBack(p: Parts, end: seq<byte>, rest: seq<seq<byte>>)
    requires Valid(p) && p.year < U64_LIMIT && Split(Replaced(end)) == [Pad(2, p.second)] + rest
    ensures FieldsOf(Split(Replaced(UpToMinute(p, LETTER_T, end)))) == Some(p)
  {
    UpToMinuteReplaced(p, end);
    UpToMinuteSplit(p, Replaced(end));
    PartsReadBack(p, rest);
  }

  lemma FieldsInTrimmed(before: seq<byte>, text: seq<byte>, after: seq<byte>)
    requires text != [] && IsDigit(text[0]) && text[|text| - 1] == LETTER_Z && AreBlanks(before) && AreBlanks(after)
    ensures FieldsIn(before + text + after) == FieldsOf(Split(Replaced(text)))
  {
    BlanksAreTrimmed(before, text, after);
  }

  lemma TextReadsBack(p: Parts, end: seq<byte>, rest: seq<seq<byte>>, before: seq<byte>, after: seq<byte>)
    requires Valid(p) && p.year < U64_LIMIT
    requires end != [] && end[|end| - 1] == LETTER_Z && Split(Replaced(end)) == [Pad(2, p.second)] + rest
    requires AreBlanks(before) && AreBlanks(after)
    ensures FieldsIn(before + UpToMinute(p, LETTER_T, end) + after) == Some(p)
  {
    EndsOf(p, end);
    FieldsInTrimmed(before, UpToMinute(p, LETTER_T, end), after);
    TrimmedReadsBack(p, end, rest);
  }

  lemma IsoReadsBackFields(p: Parts)
    requires Valid(p) && p.year < U64_LIMIT
    ensures FieldsIn(IsoOf(p)) == Some(p)
  {
    IsoIsUpToMinute(p);
    SecondsSplit(Pad(2, p.second));
    assert [Pad(2, p.second)] + [] == [Pad(2, p.second)];
    TextReadsBack(p, Pad(2, p.second) + [LETTER_Z], [], [], []);
    NothingAround(IsoOf(p));
  }

  lemma NothingAround(s: seq<byte>)
    ensures [] + s + [] == s
  {
  }

  /** Blanks around the text and a fraction of a second make no difference to the parser. */
  lemma FractionIsDropped(p: Parts, fraction: seq<byte>, before: seq<byte>, after: seq<byte>)
    requires Valid(p) && p.year < U64_LIMIT && AllDigits(fraction)
    requires AreBlanks(before) && AreBlanks(after)
    ensures FieldsIn(before + IsoOf(p) + after) == Some(p)
    ensures FieldsIn(before + UpToMinute(p, 84, Pad(2, p.second) + ([46] + (fraction + [90]))) + after) == Some(p)
  {
    IsoIsUpToMinute(p);
    SecondsSplit(Pad(2, p.second));
    assert [Pad(2, p.second)] + [] == [Pad(2, p.second)];
    TextReadsBack(p, Pad(2, p.second) + [LETTER_Z], [], before, after);
    FractionSplit(Pad(2, p.second), fraction);
    TextReadsBack(p, Pad(2, p.second) + ([DOT] + (fraction + [LETTER_Z])), [fraction], before, after);
  }

  /** A month 0 counts as January, one above 12 as December. */
  lemma MonthsOutOfRange(p: Parts)
    requires p.year >= 1970 && (p.month == 0 || p.month > 12) && p.day > 0
    ensures Approximate(p) == Approximate(p.(month := if p.month == 0 then 1 else 12))
  {
  }

  lemma FieldsReadBack(p: Parts, parts: seq<seq<byte>>)
    requires Valid(p) && p.year < U64_LIMIT && |parts| >= 6
    requires parts[0] == Pad(4, p.year) && parts[1] == Pad(2, p.month) && parts[2] == Pad(2, p.day)
    requires parts[3] == Pad(2, p.hour) && parts[4] == Pad(2, p.minute) && parts[5] == Pad(2, p.second)
    ensures FieldsOf(parts) == Some(p)
  {
    PaddedNumberReadsBack(4, p.year, 2000);
    PaddedNumberReadsBack(2, p.month, 1);
    PaddedNumberReadsBack(2, p.day, 1);
    PaddedNumberReadsBack(2, p.hour, 0);
    PaddedNumberReadsBack(2, p.minute, 0);
    PaddedNumberReadsBack(2, p.second, 0);
  }

  lemma ApproximationError(p: Parts)
    requires Valid(p)
    ensures var parsed := Seconds(p) + Error(p);
            Approximate(p) == if parsed < U64_LIMIT then Some(parsed) else None
  {
    QuarterYears(p.year);
  }

  lemma ParsesToApproximation(p: Parts)
    requires Valid(p) && Seconds(p) < U64_LIMIT
    ensures ParseIso(IsoOf(p)) == Approximate(p)
  {
    YearIsSmall(p);
    IsoReadsBackFields(p);
  }

  /** The exact error of reading back a timestamp, for every instant that a u64 can count. */
  lemma ParserErrorIsExact(p: Parts)
    requires Valid(p) && Seconds(p) < U64_LIMIT
    ensures var parsed := Seconds(p) + Error(p);
            ParseIso(IsoOf(p)) == if parsed < U64_LIMIT then Some(parsed) else None
  {
    ParsesToApproximation(p);
    ApproximationError(p);
  }

  lemma YearIsSmall(p: Parts)
    requires Valid(p) && Seconds(p) < U64_LIMIT
    ensures p.year < U64_LIMIT
  {
    var y := p.year - 1;
    assert y / 100 <= y / 4;
  }

  // ---------------------------------------------------------------------------
  // The daily sync
  // ---------------------------------------------------------------------------

  const DAY: nat := 24 * 60 * 60

  /** The due check of the sync loop: None where `now - last` would go below zero. */
  function SyncDue(lastSync: Option<seq<byte>>, now: nat): Option<bool> {
    if lastSync.None? then Some(true)
    else
      var last := ParseIso(lastSync.value);
      if last.None? || now < last.value then None else Some(now - last.value > DAY)
  }

  /** Without a last sync one is due at once; a text of fewer than six parts is read as the epoch. */
  lemma FirstSyncIsDue(now: nat, text: seq<byte>)
    requires FieldsIn(text).None?
    ensures SyncDue(None, now) == Some(true) && SyncDue(Some(text), now) == Some(now > 86_400)
  {
  }

  /**
   Until the end of the year 2100 the difference never underflows, and a sync is due exactly one day after
   the last one, except from March to December of a leap year, when it is due after a single second.
   */
  lemma SyncIsDueExactly(last: Parts, now: nat)
    requires Valid(last) && last.year <= 2100
    requires Seconds(last) <= now < U64_LIMIT
    ensures SyncDue(Some(IsoOf(last)), now) == Some(now - Seconds(last) > (if AfterLeapDay(last) then 0 else DAY))
  {
    ParserErrorIsExact(last);
    SkippedLeapsIsNatural(last.year);
    if AfterLeapDay(last) {
      OneDayHasPassed(last);
    }
  }

  lemma OneDayHasPassed(p: Parts)
    requires Valid(p) && p.month > 2
    ensures Seconds(p) >= DAY
  {
    if p.year > 1970 {
      YearsInOrder(1970, p.year);
    }
    MonthsInOrder(p.year, 1, p.month);
  }

  /** The check is free of underflow at every later moment exactly when the parser does not run ahead. */
  lemma SyncNeverUnderflowsIff(last: Parts)
    requires Valid(last) && Seconds(last) < U64_LIMIT
    ensures (forall now: nat | Seconds(last) <= now :: SyncDue(Some(IsoOf(last)), now).Some?)
            <==> SkippedLeaps(last.year) <= (if AfterLeapDay(last) then 1 else 0)
  {
    ParserErrorIsExact(last);
    var t := Seconds(last);
    SecondsAreNatural(last);
    if SkippedLeaps(last.year) > (if AfterLeapDay(last) then 1 else 0) {
      assert SyncDue(Some(IsoOf(last)), t).None?;
    }
  }

  lemma SecondsAreNatural(p: Parts)
    requires Valid(p)
    ensures Seconds(p) >= 0
  {
    ReadingInvertsSeconds(p);
  }

  /** The first instant at which the check fails right after a sync: 2101-01-01T00:00:00Z. */
  lemma UnderflowFrom2101(last: Parts)
    requires last == Parts(2101, 1, 1, 0, 0, 0)
    ensures Valid(last) && SyncDue(Some(IsoOf(last)), Seconds(last)) == None
  {
    assert DayNumber(last.year, 1, 1) == 47847;
    ParserErrorIsExact(last);
  }
}
