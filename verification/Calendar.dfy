/**
 Epoch seconds to calendar fields and to ISO 8601 text, against the Gregorian day count: the leap rule of
 RFC 3339 appendix C and the format of its section 5.6.
 */
module Calendar {
  import opened Basics

  datatype Parts = Parts(year: nat, month: nat, day: nat, hour: nat, minute: nat, second: nat)

  predicate Leap(y: nat) {
    y % 4 == 0 && (y % 100 != 0 || y % 400 == 0)
  }

  function YearDays(y: nat): nat {
    if Leap(y) then 366 else 365
  }

  function MonthDays(y: nat): (lengths: seq<nat>)
    ensures |lengths| == 12
  {
    [31, if Leap(y) then 29 else 28, 31, 30, 31, 30, 31, 31, 30, 31, 30, 31]
  }

  // ---------------------------------------------------------------------------
  // The Gregorian day count, in closed form
  // ---------------------------------------------------------------------------

  /** Leap years from 1970 up to but not including `y`: there are 477 of them up to 1969. */
  function LeapsBefore(y: nat): int
    requires y >= 1970
  {
    (y - 1) / 4 - (y - 1) / 100 + (y - 1) / 400 - 477
  }

  /** Days before the month (1 to 12) in a year without a leap day. */
  const CUMULATIVE: seq<nat> := [0, 31, 59, 90, 120, 151, 181, 212, 243, 273, 304, 334]

  function DayNumber(y: nat, m: nat, d: nat): int
    requires y >= 1970 && 1 <= m <= 12
  {
    365 * (y - 1970) + LeapsBefore(y) + CUMULATIVE[m - 1] + (if m > 2 && Leap(y) then 1 else 0) + d - 1
  }

  predicate Valid(p: Parts) {
    && p.year >= 1970 && 1 <= p.month <= 12
    && 1 <= p.day <= MonthDays(p.year)[p.month - 1]
    && p.hour < 24 && p.minute < 60 && p.second < 60
  }

  function Seconds(p: Parts): int
    requires Valid(p)
  {
    DayNumber(p.year, p.month, p.day) * 86400 + p.hour * 3600 + p.minute * 60 + p.second
  }

  lemma YearStep(y: nat)
    requires y >= 1970
    ensures DayNumber(y + 1, 1, 1) == DayNumber(y, 1, 1) + YearDays(y)
  {
    QuotientStep(y, 4);
    QuotientStep(y, 100);
    QuotientStep(y, 400);
    assert y % 400 == 0 ==> y % 100 == 0 && y % 4 == 0;
    assert y % 100 == 0 ==> y % 4 == 0;
  }

  lemma QuotientStep(y: nat, k: nat)
    requires y > 0 && k > 1
    ensures y / k == (y - 1) / k + (if y % k == 0 then 1 else 0)
  {
    var q, r := (y - 1) / k, (y - 1) % k;
    assert y - 1 == k * q + r;
    if r == k - 1 {
      assert y == k * (q + 1);
      DivisionIsUnique(y, k, q + 1, 0);
    } else {
      DivisionIsUnique(y, k, q, r + 1);
    }
  }

  lemma MultiplesAreFar(k: nat, d: int)
    ensures d >= 1 ==> k * d >= k
    ensures d <= -1 ==> k * d <= -(k as int)
  {
  }

  lemma DivisionIsUnique(y: nat, k: nat, q: nat, r: nat)
    requires k > 0 && y == k * q + r && r < k
    ensures y / k == q && y % k == r
  {
    var d := y / k - q;
    assert y == k * (y / k) + y % k;
    assert k * d == r - y % k by { assert k * (y / k) - k * q == k * d; }
    MultiplesAreFar(k, d);
  }

  /** First days of months and years are in order: what comes before a later date is at most its first day. */
  lemma MonthStep(y: nat, m: nat)
    requires y >= 1970 && 1 <= m <= 12
    ensures DayNumber(y, m, 1) + MonthDays(y)[m - 1] ==
            if m < 12 then DayNumber(y, m + 1, 1) else DayNumber(y + 1, 1, 1)
  {
    if m == 12 {
      YearStep(y);
    }
  }

  lemma {:induction false} MonthsInOrder(y: nat, m: nat, m': nat)
    requires y >= 1970 && 1 <= m < m' <= 12
    ensures DayNumber(y, m, 1) + MonthDays(y)[m - 1] <= DayNumber(y, m', 1)
    decreases m' - m
  {
    MonthStep(y, m);
    if m + 1 < m' {
      MonthsInOrder(y, m + 1, m');
    }
  }

  lemma {:induction false} YearsInOrder(y: nat, y': nat)
    requires 1970 <= y < y'
    ensures DayNumber(y, 1, 1) + YearDays(y) <= DayNumber(y', 1, 1)
    decreases y' - y
  {
    YearStep(y);
    if y + 1 < y' {
      YearsInOrder(y + 1, y');
    }
  }

  lemma DayWithinYear(p: Parts)
    requires Valid(p)
    ensures DayNumber(p.year, 1, 1) <= DayNumber(p.year, p.month, p.day) < DayNumber(p.year, 1, 1) + YearDays(p.year)
  {
  }

  /** Field by field, most significant first. */
  predicate Earlier(p: Parts, q: Parts) {
    p.year < q.year ||
    (p.year == q.year && (p.month < q.month ||
    (p.month == q.month && (p.day < q.day ||
    (p.day == q.day && (p.hour < q.hour ||
    (p.hour == q.hour && (p.minute < q.minute ||
    (p.minute == q.minute && p.second < q.second)))))))))
  }

  lemma EarlierDay(p: Parts, q: Parts)
    requires Valid(p) && Valid(q)
    requires p.year < q.year || (p.year == q.year && (p.month < q.month || (p.month == q.month && p.day < q.day)))
    ensures DayNumber(p.year, p.month, p.day) < DayNumber(q.year, q.month, q.day)
  {
    if p.year < q.year {
      DayWithinYear(p);
      DayWithinYear(q);
      YearsInOrder(p.year, q.year);
    } else if p.month < q.month {
      MonthsInOrder(p.year, p.month, q.month);
    }
  }

  lemma EarlierHasFewerSeconds(p: Parts, q: Parts)
    requires Valid(p) && Valid(q) && Earlier(p, q)
    ensures Seconds(p) < Seconds(q)
  {
    if p.year != q.year || p.month != q.month || p.day != q.day {
      EarlierDay(p, q);
    }
  }

  /** The order of the fields is the order of time, so a second count has at most one valid reading. */
  lemma FieldOrderIsTimeOrder(p: Parts, q: Parts)
    requires Valid(p) && Valid(q)
    ensures Earlier(p, q) <==> Seconds(p) < Seconds(q)
    ensures p == q <==> Seconds(p) == Seconds(q)
  {
    if Earlier(p, q) {
      EarlierHasFewerSeconds(p, q);
    } else if Earlier(q, p) {
      EarlierHasFewerSeconds(q, p);
    }
  }

  // ---------------------------------------------------------------------------
  // epoch_to_parts
  // ---------------------------------------------------------------------------

  /** The reading of a second count: the one valid set of fields that recombines to it. */
  ghost predicate IsReading(p: Parts, secs: nat) {
    Valid(p) && Seconds(p) == secs
  }

  /** The two nested counting loops; `days as i64` is exact because a u64 second count has fewer than 2^48 days. */
  method EpochToParts(secs: nat) returns (p: Parts)
    requires secs < U64_LIMIT
    ensures IsReading(p, secs)
  {
    var days := secs / 86400;
    var timeOfDay := secs % 86400;
    var hours := timeOfDay / 3600;
    var minutes := (timeOfDay % 3600) / 60;
    var seconds := timeOfDay % 60;

    var y := 1970;
    var remaining := days;
    while true
      invariant y >= 1970 && 0 <= remaining
      invariant DayNumber(y, 1, 1) + remaining == days
      decreases remaining
    {
      var yearDays := if y % 4 == 0 && (y % 100 != 0 || y % 400 == 0) then 366 else 365;
      if remaining < yearDays {
        break;
      }
      YearStep(y);
      remaining := remaining - yearDays;
      y := y + 1;
    }
    YearStep(y);
    assert days < DayNumber(y + 1, 1, 1);

    var monthDays := MonthDays(y);
    var m := 0;
    while m < 12
      invariant 0 <= m <= 12 && 0 <= remaining
      invariant (if m < 12 then DayNumber(y, m + 1, 1) else DayNumber(y + 1, 1, 1)) + remaining == days
    {
      if remaining < monthDays[m] {
        break;
      }
      MonthStep(y, m + 1);
      remaining := remaining - monthDays[m];
      m := m + 1;
    }
    p := Parts(y, m + 1, remaining + 1, hours, minutes, seconds);
    FieldsRecombine(secs, p);
  }

  lemma FieldsRecombine(secs: nat, p: Parts)
    requires p.year >= 1970 && 1 <= p.month <= 12 && 1 <= p.day <= MonthDays(p.year)[p.month - 1]
    requires DayNumber(p.year, p.month, p.day) == secs / 86400
    requires var t := secs % 86400; p.hour == t / 3600 && p.minute == (t % 3600) / 60 && p.second == t % 60
    ensures IsReading(p, secs)
  {
    TimeOfDayRecombines(secs % 86400);
    assert secs == 86400 * (secs / 86400) + secs % 86400;
  }

  lemma TimeOfDayRecombines(t: nat)
    requires t < 86400
    ensures t / 3600 < 24 && (t % 3600) / 60 < 60 && t % 60 < 60
    ensures t / 3600 * 3600 + (t % 3600) / 60 * 60 + t % 60 == t
  {
    assert t == 3600 * (t / 3600) + t % 3600;
    var u := t % 3600;
    assert u == 60 * (u / 60) + u % 60;
    assert t == 60 * (60 * (t / 3600) + u / 60) + u % 60;
    DivisionIsUnique(t, 60, 60 * (t / 3600) + u / 60, u % 60);
  }

  // ---------------------------------------------------------------------------
  // Every second count has exactly one reading
  // ---------------------------------------------------------------------------

  lemma {:induction false} YearExists(days: nat, from: nat) returns (y: nat, rest: nat)
    requires from >= 1970
    ensures y >= from && DayNumber(y, 1, 1) + rest == DayNumber(from, 1, 1) + days && rest < YearDays(y)
    decreases days
  {
    if days < YearDays(from) {
      y, rest := from, days;
    } else {
      YearStep(from);
      y, rest := YearExists(days - YearDays(from), from + 1);
    }
  }

  lemma {:induction false} MonthExists(y: nat, days: nat, from: nat) returns (m: nat, rest: nat)
    requires y >= 1970 && 1 <= from <= 12
    requires DayNumber(y, from, 1) + days < DayNumber(y, 1, 1) + YearDays(y)
    ensures from <= m <= 12 && DayNumber(y, m, 1) + rest == DayNumber(y, from, 1) + days && rest < MonthDays(y)[m - 1]
    decreases 12 - from
  {
    if days < MonthDays(y)[from - 1] {
      m, rest := from, days;
    } else {
      MonthStep(y, from);
      YearStep(y);
      m, rest := MonthExists(y, days - MonthDays(y)[from - 1], from + 1);
    }
  }

  lemma ReadingExists(secs: nat) returns (p: Parts)
    ensures IsReading(p, secs)
  {
    assert DayNumber(1970, 1, 1) == 0;
    var y, dayOfYear := YearExists(secs / 86400, 1970);
    var m, dayOfMonth := MonthExists(y, dayOfYear, 1);
    var t := secs % 86400;
    p := Parts(y, m, dayOfMonth + 1, t / 3600, (t % 3600) / 60, t % 60);
    FieldsRecombine(secs, p);
  }

  /** The reading of a second count, for use in statements. */
  ghost function Reading(secs: nat): (p: Parts)
    ensures IsReading(p, secs)
  {
    assert exists p :: IsReading(p, secs) by { var p := ReadingExists(secs); }
    var p :| IsReading(p, secs);
    p
  }

  /** Recombining fields and reading them again changes nothing. */
  lemma ReadingInvertsSeconds(p: Parts)
    requires Valid(p)
    ensures Seconds(p) >= 0 && Reading(Seconds(p)) == p
  {
    DayWithinYear(p);
    if p.year > 1970 {
      YearsInOrder(1970, p.year);
    }
    FieldOrderIsTimeOrder(Reading(Seconds(p)), p);
  }

  /** Any result of the method is the reading. */
  lemma ReadingIsUnique(p: Parts, secs: nat)
    requires IsReading(p, secs)
    ensures p == Reading(secs)
  {
    FieldOrderIsTimeOrder(p, Reading(secs));
  }
}
