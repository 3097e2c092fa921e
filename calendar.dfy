/**
 * Python `datetime` values as the ingestion path uses them: proleptic Gregorian
 * calendar fields with second resolution and an optional fixed UTC offset
 * (`tzinfo`) in minutes. Every `DateTime` satisfies the range checks that
 * Python's `datetime` constructor enforces.
 */
module Calendar {
  import opened Wrappers

  const MinYear := 1
  const MaxYear := 9999
  const MinutesPerDay := 1440
  const SecondsPerDay := 86400

  predicate IsLeapYear(y: int)
  {
    y % 4 == 0 && (y % 100 != 0 || y % 400 == 0)
  }

  function DaysInMonth(y: int, m: int): (n: int)
    requires 1 <= m <= 12
    ensures 28 <= n <= 31
  {
    if m == 2 then (if IsLeapYear(y) then 29 else 28)
    else if m == 4 || m == 6 || m == 9 || m == 11 then 30
    else 31
  }

  datatype Moment = Moment(year: int, month: int, day: int,
                           hour: int, minute: int, second: int,
                           offset: Option<int>)
  {
    predicate ValidDate()
    {
      MinYear <= year <= MaxYear && 1 <= month <= 12 && 1 <= day <= DaysInMonth(year, month)
    }

    /** The constructor's checks: a real calendar date, a time of day, and an offset strictly within a day. */
    predicate Valid()
    {
      ValidDate() && 0 <= hour < 24 && 0 <= minute < 60 && 0 <= second < 60
      && (offset.Some? ==> -MinutesPerDay < offset.value < MinutesPerDay)
    }
  }

  type DateTime = m: Moment | m.Valid() witness Moment(1, 1, 1, 0, 0, 0, None)

  /** Days in all years before `y`. */
  function DaysBeforeYear(y: int): (n: nat)
    requires y >= MinYear
  {
    if y == MinYear then 0 else DaysBeforeYear(y - 1) + (if IsLeapYear(y - 1) then 366 else 365)
  }

  /** Days in the months of year `y` before month `m`. */
  function DaysBeforeMonth(y: int, m: int): (n: nat)
    requires 1 <= m <= 12
  {
    [0, 31, 59, 90, 120, 151, 181, 212, 243, 273, 304, 334][m - 1]
    + (if m > 2 && IsLeapYear(y) then 1 else 0)
  }

  /** Day number of a date with 0001-01-01 as day 1, as `date.toordinal()` counts. */
  function Ordinal(y: int, m: int, d: int): int
    requires y >= MinYear && 1 <= m <= 12
  {
    DaysBeforeYear(y) + DaysBeforeMonth(y, m) + d
  }

  /** Seconds since the start of day 0 of the wall-clock reading, ignoring any offset. */
  function LocalSeconds(t: DateTime): int
  {
    Ordinal(t.year, t.month, t.day) * SecondsPerDay + t.hour * 3600 + t.minute * 60 + t.second
  }

  /** The instant a value denotes, counted in UTC seconds; a naive value is read as UTC. */
  function UtcSeconds(t: DateTime): int
  {
    LocalSeconds(t) - (if t.offset.Some? then t.offset.value * 60 else 0)
  }

  /** The calendar day after `(y, m, d)`, or `None` past the last representable day. */
  function NextDay(y: int, m: int, d: int): (r: Option<(int, int, int)>)
    requires Moment(y, m, d, 0, 0, 0, None).ValidDate()
    ensures r.None? <==> (y, m, d) == (MaxYear, 12, 31)
    ensures r.Some? ==> Moment(r.value.0, r.value.1, r.value.2, 0, 0, 0, None).ValidDate()
                        && Ordinal(r.value.0, r.value.1, r.value.2) == Ordinal(y, m, d) + 1
  {
    if d < DaysInMonth(y, m) then Some((y, m, d + 1))
    else if m < 12 then Some((y, m + 1, 1))
    else if y < MaxYear then Some((y + 1, 1, 1))
    else None
  }

  /** The calendar day before `(y, m, d)`, or `None` before the first representable day. */
  function PrevDay(y: int, m: int, d: int): (r: Option<(int, int, int)>)
    requires Moment(y, m, d, 0, 0, 0, None).ValidDate()
    ensures r.None? <==> (y, m, d) == (MinYear, 1, 1)
    ensures r.Some? ==> Moment(r.value.0, r.value.1, r.value.2, 0, 0, 0, None).ValidDate()
                        && Ordinal(r.value.0, r.value.1, r.value.2) == Ordinal(y, m, d) - 1
  {
    if d > 1 then Some((y, m, d - 1))
    else if m > 1 then Some((y, m - 1, DaysInMonth(y, m - 1)))
    else if y > MinYear then Some((y - 1, 12, 31))
    else None
  }

  /** The first second of 0001-01-01 and the first second after 9999-12-31, in `LocalSeconds` terms. */
  function FirstSecond(): int { Ordinal(MinYear, 1, 1) * SecondsPerDay }
  function EndSecond(): int { (Ordinal(MaxYear, 12, 31) + 1) * SecondsPerDay }

  lemma {:induction false} DaysBeforeYearMonotone(a: int, b: int)
    requires MinYear <= a <= b
    ensures DaysBeforeYear(a) <= DaysBeforeYear(b)
    decreases b - a
  {
    if a < b {
      DaysBeforeYearMonotone(a, b - 1);
    }
  }

  /** Every date of the calendar lies between the first and the last representable day. */
  lemma OrdinalBounds(y: int, m: int, d: int)
    requires Moment(y, m, d, 0, 0, 0, None).ValidDate()
    ensures Ordinal(MinYear, 1, 1) <= Ordinal(y, m, d) <= Ordinal(MaxYear, 12, 31)
  {
    assert DaysBeforeMonth(y, m) + DaysInMonth(y, m) <= (if IsLeapYear(y) then 366 else 365);
    DaysBeforeYearMonotone(MinYear, y);
    if y < MaxYear {
      DaysBeforeYearMonotone(y + 1, MaxYear);
    }
  }

  /** Every value reads as a second within the representable range. */
  lemma SecondsInRange(t: DateTime)
    ensures FirstSecond() <= LocalSeconds(t) < EndSecond()
  {
    OrdinalBounds(t.year, t.month, t.day);
  }

  /** The naive value at `minutes` past midnight of a date. */
  function AtMinute(date: (int, int, int), minutes: int, second: int): (r: DateTime)
    requires Moment(date.0, date.1, date.2, 0, 0, 0, None).ValidDate()
    requires 0 <= minutes < MinutesPerDay && 0 <= second < 60
    ensures r.offset.None?
    ensures LocalSeconds(r) == Ordinal(date.0, date.1, date.2) * SecondsPerDay + minutes * 60 + second
  {
    Moment(date.0, date.1, date.2, minutes / 60, minutes % 60, second, None)
  }
}
