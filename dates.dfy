/** Gregorian calendar arithmetic: the part of Python's `calendar` and
    `datetime` modules that the calendar generator relies on. A date is a
    (year, month, day) triple; `Ordinal` is `date.toordinal()` (0001-01-01
    is day 1 of the proleptic Gregorian calendar). */
module Dates {

  datatype Date = Date(year: int, month: int, day: int)

  datatype Option<+T> = None | Some(value: T)

  /** `datetime.MINYEAR` and `datetime.MAXYEAR`. */
  const MIN_YEAR := 1
  const MAX_YEAR := 9999
  /** `date(9999, 12, 31).toordinal()`: adding days past it raises OverflowError. */
  const MAX_ORDINAL := 3652059

  /** `calendar.day_abbr`, lower-cased, in the English locale (Monday first). */
  const DAY_ABBR: seq<string> := ["mon", "tue", "wed", "thu", "fri", "sat", "sun"]

  predicate IsLeapYear(y: int)
  {
    y % 4 == 0 && (y % 100 != 0 || y % 400 == 0)
  }

  function YearLength(y: int): int
  {
    if IsLeapYear(y) then 366 else 365
  }

  /** Number of days in a month, `calendar.monthrange(y, m)[1]`. */
  function DaysInMonth(y: int, m: int): (n: int)
    requires 1 <= m <= 12
    ensures 28 <= n <= 31
    ensures n < 30 <==> m == 2
    ensures m == 2 ==> (n == 29 <==> IsLeapYear(y))
  {
    if m == 2 then (if IsLeapYear(y) then 29 else 28)
    else if m == 4 || m == 6 || m == 9 || m == 11 then 30
    else 31
  }

  /** Month and day in range; any year, as `calendar` accepts every year. */
  predicate WellFormed(d: Date)
  {
    1 <= d.month <= 12 && 1 <= d.day <= DaysInMonth(d.year, d.month)
  }

  /** A date that `datetime.date` can hold. */
  predicate Valid(d: Date)
  {
    WellFormed(d) && MIN_YEAR <= d.year <= MAX_YEAR
  }

  function DaysBeforeYear(y: int): int
  {
    var p := y - 1;
    365 * p + p / 4 - p / 100 + p / 400
  }

  function DaysBeforeMonth(y: int, m: int): int
    requires 1 <= m <= 12
  {
    [0, 31, 59, 90, 120, 151, 181, 212, 243, 273, 304, 334][m - 1]
    + (if m > 2 && IsLeapYear(y) then 1 else 0)
  }

  /** `date.toordinal()`. */
  function Ordinal(d: Date): int
    requires WellFormed(d)
  {
    DaysBeforeYear(d.year) + DaysBeforeMonth(d.year, d.month) + d.day
  }

  /** `date.weekday()`: 0 is Monday, 6 is Sunday. */
  function Weekday(d: Date): (w: int)
    requires WellFormed(d)
    ensures 0 <= w < 7
  {
    (Ordinal(d) + 6) % 7
  }

  /** `calendar.weekday(y, m, d)`: a year outside MIN_YEAR..MAX_YEAR is first
      moved into the 400-year cycle starting at 2000. */
  function CalendarWeekday(y: int, m: int, d: int): (w: int)
    requires WellFormed(Date(y, m, d))
    ensures 0 <= w < 7
  {
    if MIN_YEAR <= y <= MAX_YEAR then Weekday(Date(y, m, d))
    else
      LeapCycle(y);
      Weekday(Date(2000 + y % 400, m, d))
  }

  /** The year `calendar.weekday` substitutes has the same leap-year status. */
  lemma LeapCycle(y: int)
    ensures IsLeapYear(2000 + y % 400) == IsLeapYear(y)
  {
    var q := (y - (2000 + y % 400)) / 400;
    assert 2000 + y % 400 + 400 * q == y;
    LeapShift(2000 + y % 400, q);
  }

  /** The shift into the 2000–2399 cycle does not change the weekday. */
  lemma CalendarWeekdayIs(y: int, m: int, d: int)
    requires WellFormed(Date(y, m, d))
    ensures CalendarWeekday(y, m, d) == Weekday(Date(y, m, d))
  {
    if !(MIN_YEAR <= y <= MAX_YEAR) {
      var y' := 2000 + y % 400;
      var q := (y - y') / 400;
      assert y' + 400 * q == y;
      LeapCycle(y);
      CycleShift(y', q, m, d);
    }
  }

  /** Python's date comparison: lexicographic on (year, month, day). */
  predicate LessEq(a: Date, b: Date)
  {
    a.year < b.year || (a.year == b.year && (a.month < b.month || (a.month == b.month && a.day <= b.day)))
  }

  /** The calendar day after `d`. */
  function NextDay(d: Date): (e: Date)
    requires WellFormed(d)
    ensures WellFormed(e)
  {
    if d.day < DaysInMonth(d.year, d.month) then Date(d.year, d.month, d.day + 1)
    else if d.month < 12 then Date(d.year, d.month + 1, 1)
    else Date(d.year + 1, 1, 1)
  }

  /** `d + timedelta(days=n)` without the range check. */
  function AddDays(d: Date, n: nat): (e: Date)
    requires WellFormed(d)
    ensures WellFormed(e)
    decreases n
  {
    if n == 0 then d else AddDays(NextDay(d), n - 1)
  }

  /** `d + timedelta(days=n)`: None where Python raises OverflowError. */
  function PlusDays(d: Date, n: nat): (r: Option<Date>)
    requires Valid(d)
    ensures r.Some? <==> Ordinal(d) + n <= MAX_ORDINAL
    ensures r.Some? ==> Valid(r.value) && Ordinal(r.value) == Ordinal(d) + n
  {
    if Ordinal(d) + n <= MAX_ORDINAL then
      AddDaysValid(d, n);
      Some(AddDays(d, n))
    else None
  }

  // ---- lemmas ----

  // Floor division by the constants of the leap-year rule, one fact per lemma
  // so that each stays within linear arithmetic.

  lemma FloorStep4(y: int)
    ensures y / 4 == (y - 1) / 4 + (if y % 4 == 0 then 1 else 0)
  {
    assert y - 1 == 4 * ((y - 1) / 4) + (y - 1) % 4;
  }

  lemma FloorStep100(y: int)
    ensures y / 100 == (y - 1) / 100 + (if y % 100 == 0 then 1 else 0)
  {
    assert y - 1 == 100 * ((y - 1) / 100) + (y - 1) % 100;
  }

  lemma FloorStep400(y: int)
    ensures y / 400 == (y - 1) / 400 + (if y % 400 == 0 then 1 else 0)
  {
    assert y - 1 == 400 * ((y - 1) / 400) + (y - 1) % 400;
  }

  lemma FloorShift4(p: int, q: int)
    ensures (p + 400 * q) / 4 == p / 4 + 100 * q && (p + 400 * q) % 4 == p % 4
  {
    assert p + 400 * q == 4 * (p / 4 + 100 * q) + p % 4;
  }

  lemma FloorShift100(p: int, q: int)
    ensures (p + 400 * q) / 100 == p / 100 + 4 * q && (p + 400 * q) % 100 == p % 100
  {
    assert p + 400 * q == 100 * (p / 100 + 4 * q) + p % 100;
  }

  lemma FloorShift400(p: int, q: int)
    ensures (p + 400 * q) / 400 == p / 400 + q && (p + 400 * q) % 400 == p % 400
  {
    assert p + 400 * q == 400 * (p / 400 + q) + p % 400;
  }

  lemma DaysBeforeYearStep(y: int)
    ensures DaysBeforeYear(y + 1) == DaysBeforeYear(y) + YearLength(y)
  {
    FloorStep4(y);
    FloorStep100(y);
    FloorStep400(y);
    Divides(y);
  }

  /** A multiple of 400 is a multiple of 100, and a multiple of 100 one of 4. */
  lemma Divides(y: int)
    ensures y % 400 == 0 ==> y % 100 == 0
    ensures y % 100 == 0 ==> y % 4 == 0
  {
    if y % 400 == 0 {
      var t := 4 * (y / 400) - y / 100;
      assert 100 * t == y % 100;
    }
    if y % 100 == 0 {
      var t := 25 * (y / 100) - y / 4;
      assert 4 * t == y % 4;
    }
  }

  lemma DaysBeforeMonthStep(y: int, m: int)
    requires 1 <= m < 12
    ensures DaysBeforeMonth(y, m + 1) == DaysBeforeMonth(y, m) + DaysInMonth(y, m)
  {
  }

  /** The day after `d` is one ordinal later. */
  lemma NextDayOrdinal(d: Date)
    requires WellFormed(d)
    ensures Ordinal(NextDay(d)) == Ordinal(d) + 1
  {
    if d.month < 12 {
      DaysBeforeMonthStep(d.year, d.month);
    } else {
      DaysBeforeYearStep(d.year);
    }
  }

  lemma LeapShift(y: int, q: int)
    ensures IsLeapYear(y + 400 * q) == IsLeapYear(y)
  {
    FloorShift4(y, q);
    FloorShift100(y, q);
    FloorShift400(y, q);
  }

  lemma DaysBeforeYearShift(y: int, q: int)
    ensures DaysBeforeYear(y + 400 * q) == DaysBeforeYear(y) + 146097 * q
  {
    FloorShift4(y - 1, q);
    FloorShift100(y - 1, q);
    FloorShift400(y - 1, q);
  }

  /** Shifting a year by whole 400-year cycles keeps leap years and moves the
      ordinal by a whole number of weeks (146097 days = 20871 weeks). */
  lemma CycleShift(y: int, q: int, m: int, d: int)
    requires WellFormed(Date(y, m, d))
    ensures WellFormed(Date(y + 400 * q, m, d))
    ensures Ordinal(Date(y + 400 * q, m, d)) == Ordinal(Date(y, m, d)) + 146097 * q
    ensures Weekday(Date(y + 400 * q, m, d)) == Weekday(Date(y, m, d))
  {
    LeapShift(y, q);
    DaysBeforeYearShift(y, q);
    assert DaysBeforeMonth(y + 400 * q, m) == DaysBeforeMonth(y, m);
    WeekShift(Ordinal(Date(y, m, d)) + 6, 20871 * q);
  }

  lemma WeekShift(x: int, k: int)
    ensures (x + 7 * k) % 7 == x % 7
  {
    assert x + 7 * k == 7 * (x / 7 + k) + x % 7;
  }

  lemma {:induction false} AddDaysOrdinal(d: Date, n: nat)
    requires WellFormed(d)
    ensures WellFormed(AddDays(d, n)) && Ordinal(AddDays(d, n)) == Ordinal(d) + n
    decreases n
  {
    if n > 0 {
      NextDayOrdinal(d);
      AddDaysOrdinal(NextDay(d), n - 1);
    }
  }

  /** Weekdays advance by one per day, modulo 7. */
  lemma AddDaysWeekday(d: Date, n: nat)
    requires WellFormed(d)
    ensures WellFormed(AddDays(d, n)) && Weekday(AddDays(d, n)) == (Weekday(d) + n) % 7
  {
    AddDaysOrdinal(d, n);
    var x := Ordinal(d) + 6;
    assert x == 7 * (x / 7) + x % 7;
    WeekShift(x % 7 + n, x / 7);
  }

  lemma DaysBeforeMonthOrder(y: int, m1: int, m2: int)
    requires 1 <= m1 < m2 <= 12
    ensures DaysBeforeMonth(y, m1) + DaysInMonth(y, m1) <= DaysBeforeMonth(y, m2)
  {
  }

  lemma DaysInYear(y: int, m: int)
    requires 1 <= m <= 12
    ensures DaysBeforeMonth(y, m) + DaysInMonth(y, m) <= YearLength(y)
  {
  }

  lemma {:induction false} DaysBeforeYearOrder(a: int, b: int)
    requires a < b
    ensures DaysBeforeYear(a) + YearLength(a) <= DaysBeforeYear(b)
    decreases b - a
  {
    DaysBeforeYearStep(a);
    if a + 1 < b {
      DaysBeforeYearOrder(a + 1, b);
    }
  }

  lemma OrdinalStrict(a: Date, b: Date)
    requires WellFormed(a) && WellFormed(b)
    requires LessEq(a, b) && a != b
    ensures Ordinal(a) < Ordinal(b)
  {
    if a.year < b.year {
      DaysInYear(a.year, a.month);
      DaysBeforeYearOrder(a.year, b.year);
    } else if a.month < b.month {
      DaysBeforeMonthOrder(a.year, a.month, b.month);
    }
  }

  /** Python's lexicographic date comparison agrees with the ordinal order. */
  lemma OrdinalOrder(a: Date, b: Date)
    requires WellFormed(a) && WellFormed(b)
    ensures LessEq(a, b) <==> Ordinal(a) <= Ordinal(b)
  {
    if LessEq(a, b) && a != b {
      OrdinalStrict(a, b);
    } else if !LessEq(a, b) {
      OrdinalStrict(b, a);
    }
  }

  /** A well-formed date is determined by its ordinal. */
  lemma OrdinalInjective(a: Date, b: Date)
    requires WellFormed(a) && WellFormed(b)
    requires Ordinal(a) == Ordinal(b)
    ensures a == b
  {
    OrdinalOrder(a, b);
    OrdinalOrder(b, a);
  }

  lemma AddDaysAdd(d: Date, m: nat, n: nat)
    requires WellFormed(d)
    ensures AddDays(AddDays(d, m), n) == AddDays(d, m + n)
  {
    AddDaysOrdinal(d, m);
    AddDaysOrdinal(AddDays(d, m), n);
    AddDaysOrdinal(d, m + n);
    OrdinalInjective(AddDays(AddDays(d, m), n), AddDays(d, m + n));
  }

  lemma ValidByOrdinal(e: Date)
    requires WellFormed(e)
    ensures Valid(e) <==> 1 <= Ordinal(e) <= MAX_ORDINAL
  {
    OrdinalOrder(Date(1, 1, 1), e);
    OrdinalOrder(e, Date(9999, 12, 31));
  }

  lemma AddDaysValid(d: Date, n: nat)
    requires Valid(d) && Ordinal(d) + n <= MAX_ORDINAL
    ensures Valid(AddDays(d, n)) && Ordinal(AddDays(d, n)) == Ordinal(d) + n
  {
    AddDaysOrdinal(d, n);
    ValidByOrdinal(d);
    ValidByOrdinal(AddDays(d, n));
  }
}
