/** Expansion of weekly recurrence rules (event.py): each input row names a
    period, a weekday, a clock range, a label and `;`-separated exception
    dates; it expands to every date of the period on that weekday, seven days
    apart, minus the exceptions. The rows of all rules are concatenated and
    then grouped by date. */
module Event {
  import opened Dates
  import opened Text

  /** One row of the input sheet. `eventEnd` is None where the cell is
      missing (NaN); `exceptions` is None where the `except` cell holds
      anything other than a string. */
  datatype Rule = Rule(
    periodStart: string,
    periodEnd: string,
    weekOfDay: string,
    eventStart: string,
    eventEnd: Option<string>,
    event: string,
    exceptions: Option<string>)

  /** One row of the frame `generate_dates` builds. */
  datatype Occurrence = Occurrence(
    date: string,
    weekOfDay: string,
    eventStart: string,
    eventEnd: Option<string>,
    event: string)

  /** The columns a rule copies unchanged into each of its rows. */
  datatype Fields = Fields(weekOfDay: string, eventStart: string, eventEnd: Option<string>, event: string)

  /** The exceptions the source raises. */
  datatype Error =
    | UnknownWeekday(symbol: string)  // KeyError from the weekday table
    | MalformedDate(text: string)     // ValueError from strptime
    | DateOverflow                    // OverflowError: a date past 9999-12-31
    | MissingDateColumn               // KeyError: exclude_dates on a rule with no dates
    | NoRules                         // ValueError: pd.concat of no frames
    | NoGroups                        // TypeError: `reset_index(name=...)` on the frame an empty groupby gives

  datatype Result<T> = Ok(value: T) | Err(error: Error)

  const EXCEPT_SEPARATOR := ';'

  /** Days between consecutive dates of a rule. */
  const WEEK: nat := 7

  /** `week_of_day_map[week_of_day.lower()]`. */
  function WeekdayNumber(symbol: string): (r: Option<int>)
    ensures r.Some? <==> Lower(symbol) in DAY_ABBR
    ensures r.Some? ==> 0 <= r.value < 7 && DAY_ABBR[r.value] == Lower(symbol)
  {
    var key := Lower(symbol);
    if key == "mon" then Some(0)
    else if key == "tue" then Some(1)
    else if key == "wed" then Some(2)
    else if key == "thu" then Some(3)
    else if key == "fri" then Some(4)
    else if key == "sat" then Some(5)
    else if key == "sun" then Some(6)
    else None
  }

  /** The weekday symbol is read in any case: a symbol and its lower-case
      form name the same day, so "WED", "Wed" and "wed" are Wednesday. */
  lemma WeekdayAnyCase(symbol: string)
    ensures WeekdayNumber(symbol) == WeekdayNumber(Lower(symbol))
    ensures WeekdayNumber("WED") == WeekdayNumber("Wed") == WeekdayNumber("wed") == Some(2)
  {
    LowerIdempotent(symbol);
    LowerIdempotent("WED");
    LowerIdempotent("Wed");
    assert Lower("WED") == "wed" && Lower("Wed") == "wed";
  }

  /** Days from `start` to the first date on or after it with weekday `target`. */
  function Offset(start: Date, target: int): (k: int)
    requires WellFormed(start)
    ensures 0 <= k < 7
  {
    (target - Weekday(start)) % 7
  }

  /** The date the loop of `generate_dates` holds after `k` steps of seven days. */
  function Visit(start: Date, target: int, k: nat): (d: Date)
    requires WellFormed(start)
    ensures WellFormed(d) && Ordinal(d) == Ordinal(start) + Offset(start, target) + 7 * k
    decreases k
  {
    if k == 0 then
      AddDaysOrdinal(start, Offset(start, target));
      AddDays(start, Offset(start, target))
    else
      var previous := Visit(start, target, k - 1);
      AddDaysOrdinal(previous, WEEK);
      AddDays(previous, WEEK)
  }

  /** How many visited dates are on or before `end`. */
  function VisitCount(start: Date, end: Date, target: int): nat
    requires WellFormed(start) && WellFormed(end)
  {
    var first := Ordinal(start) + Offset(start, target);
    if first > Ordinal(end) then 0 else (Ordinal(end) - first) / 7 + 1
  }

  lemma VisitCountBound(start: Date, end: Date, target: int, k: nat)
    requires WellFormed(start) && WellFormed(end)
    ensures k < VisitCount(start, end, target) <==> Ordinal(Visit(start, target, k)) <= Ordinal(end)
  {
    var first := Ordinal(start) + Offset(start, target);
    var x := Ordinal(end) - first;
    assert x == 7 * (x / 7) + x % 7;
  }

  /** A visited date counted by VisitCount is a valid date inside the period. */
  lemma VisitInPeriod(start: Date, end: Date, target: int, k: nat)
    requires Valid(start) && Valid(end) && k < VisitCount(start, end, target)
    ensures Valid(Visit(start, target, k))
    ensures LessEq(start, Visit(start, target, k)) && LessEq(Visit(start, target, k), end)
  {
    VisitCountBound(start, end, target, k);
    ValidByOrdinal(start);
    ValidByOrdinal(end);
    ValidByOrdinal(Visit(start, target, k));
    OrdinalOrder(start, Visit(start, target, k));
    OrdinalOrder(Visit(start, target, k), end);
  }

  /** The first `m` dates `generate_dates` visits, in order. */
  function Visits(start: Date, target: int, m: nat): (ds: seq<Date>)
    requires WellFormed(start)
    ensures |ds| == m
  {
    seq(m, k requires 0 <= k => Visit(start, target, k))
  }

  lemma VisitsSnoc(start: Date, target: int, m: nat)
    requires WellFormed(start)
    ensures Visits(start, target, m + 1) == Visits(start, target, m) + [Visit(start, target, m)]
  {
    var longer, shorter := Visits(start, target, m + 1), Visits(start, target, m);
    forall i | 0 <= i < m
      ensures longer[i] == shorter[i]
    {
      assert longer[i] == Visit(start, target, i);
    }
    assert longer == shorter + [longer[m]];
  }

  predicate AllValid(ds: seq<Date>)
  {
    forall i :: 0 <= i < |ds| ==> Valid(ds[i])
  }

  /** The dates visited up to the end of the period are valid dates. */
  lemma VisitsValid(start: Date, end: Date, target: int)
    requires Valid(start) && Valid(end)
    ensures AllValid(Visits(start, target, VisitCount(start, end, target)))
  {
    forall i | 0 <= i < VisitCount(start, end, target)
      ensures Valid(Visits(start, target, VisitCount(start, end, target))[i])
    {
      VisitInPeriod(start, end, target, i);
    }
  }

  /** The row `generate_dates` emits for date `d`: its `%Y-%m-%d` text and the
      rule's copied columns. */
  function Row(d: Date, f: Fields): Occurrence
    requires Valid(d)
  {
    Occurrence(FormatDate(d), f.weekOfDay, f.eventStart, f.eventEnd, f.event)
  }

  function RowsOf(ds: seq<Date>, f: Fields): (rows: seq<Occurrence>)
    requires AllValid(ds)
    ensures |rows| == |ds|
  {
    seq(|ds|, i requires 0 <= i < |ds| => Row(ds[i], f))
  }

  lemma RowsOfSnoc(ds: seq<Date>, d: Date, f: Fields)
    requires AllValid(ds) && Valid(d)
    ensures AllValid(ds + [d])
    ensures RowsOf(ds + [d], f) == RowsOf(ds, f) + [Row(d, f)]
  {
    var ds' := ds + [d];
    assert forall i :: 0 <= i < |ds| ==> ds'[i] == ds[i];
  }

  /** What `generate_dates` returns or raises once its inputs are parsed: the
      loop raises OverflowError when the date after the last one it emits is
      past 9999-12-31. */
  function ExpandDates(start: Date, end: Date, target: int, f: Fields): Result<seq<Occurrence>>
    requires Valid(start) && Valid(end)
  {
    var n := VisitCount(start, end, target);
    if Ordinal(Visit(start, target, n)) > MAX_ORDINAL then Err(DateOverflow)
    else
      VisitsValid(start, end, target);
      Ok(RowsOf(Visits(start, target, n), f))
  }

  /** What `generate_dates` returns or raises. */
  function Expand(periodStart: string, periodEnd: string, weekOfDay: string,
                  eventStart: string, eventEnd: Option<string>, event: string): Result<seq<Occurrence>>
  {
    match WeekdayNumber(weekOfDay)
    case None => Err(UnknownWeekday(weekOfDay))
    case Some(target) =>
      match ParseDate(periodStart)
      case None => Err(MalformedDate(periodStart))
      case Some(start) =>
        match ParseDate(periodEnd)
        case None => Err(MalformedDate(periodEnd))
        case Some(end) => ExpandDates(start, end, target, Fields(weekOfDay, eventStart, eventEnd, event))
  }

  /** `generate_dates`: step a date forward seven days at a time from the
      first date on the target weekday, emitting one row per date up to the
      end of the period. */
  method GenerateDates(periodStart: string, periodEnd: string, weekOfDay: string,
                       eventStart: string, eventEnd: Option<string>, event: string)
    returns (r: Result<seq<Occurrence>>)
    ensures r == Expand(periodStart, periodEnd, weekOfDay, eventStart, eventEnd, event)
  {
    var target := WeekdayNumber(weekOfDay);
    if target.None? {
      return Err(UnknownWeekday(weekOfDay));
    }
    var startDate := ParseDate(periodStart);
    if startDate.None? {
      return Err(MalformedDate(periodStart));
    }
    var endDate := ParseDate(periodEnd);
    if endDate.None? {
      return Err(MalformedDate(periodEnd));
    }
    var t, start, end := target.value, startDate.value, endDate.value;
    r := WeeklyDates(start, end, t, Fields(weekOfDay, eventStart, eventEnd, event));
  }

  /** `generate_dates` once its inputs are parsed: the first date on the
      target weekday, then the loop. */
  method WeeklyDates(start: Date, end: Date, t: int, f: Fields) returns (r: Result<seq<Occurrence>>)
    requires Valid(start) && Valid(end)
    ensures r == ExpandDates(start, end, t, f)
  {
    var daysUntilTarget := (t - Weekday(start)) % 7;
    var first := PlusDays(start, daysUntilTarget);
    FirstStep(start, end, t, first);
    if first.None? {
      return Err(DateOverflow);
    }
    r := WeeklyLoop(start, end, t, f, first.value);
  }

  /** The loop of `generate_dates`: emit the current date while it is on or
      before the end of the period, then step seven days. */
  method WeeklyLoop(start: Date, end: Date, t: int, f: Fields, first: Date) returns (r: Result<seq<Occurrence>>)
    requires Valid(start) && Valid(end) && Valid(first) && first == Visit(start, t, 0)
    requires LessEq(first, end) <==> 0 < VisitCount(start, end, t)
    ensures r == ExpandDates(start, end, t, f)
  {
    ghost var n := VisitCount(start, end, t);
    var current := first;
    var dates: seq<Occurrence> := [];
    ghost var visited: seq<Date> := [];
    while LessEq(current, end)
      invariant Valid(current) && current == Visit(start, t, |dates|)
      invariant LessEq(current, end) <==> |dates| < n
      invariant |dates| <= n
      invariant |visited| == |dates| && AllValid(visited)
      invariant visited == Visits(start, t, |visited|)
      invariant dates == RowsOf(visited, f)
      decreases n - |dates|
    {
      RowsOfSnoc(visited, current, f);
      VisitsSnoc(start, t, |visited|);
      dates := dates + [Occurrence(FormatDate(current), f.weekOfDay, f.eventStart, f.eventEnd, f.event)];
      visited := visited + [current];
      var next := PlusDays(current, WEEK);
      NextStep(start, end, t, |dates| - 1, current, next);
      if next.None? {
        return Err(DateOverflow);
      }
      current := next.value;
    }
    ValidByOrdinal(current);
    return Ok(dates);
  }

  /** What the loop knows after computing its first date. */
  lemma FirstStep(start: Date, end: Date, t: int, first: Option<Date>)
    requires Valid(start) && Valid(end)
    requires first == PlusDays(start, (t - Weekday(start)) % 7)
    ensures first.None? ==> VisitCount(start, end, t) == 0 && Ordinal(Visit(start, t, 0)) > MAX_ORDINAL
    ensures first.Some? ==> first.value == Visit(start, t, 0) && Valid(first.value)
    ensures first.Some? ==> (LessEq(first.value, end) <==> 0 < VisitCount(start, end, t))
  {
    if first.Some? {
      FirstFound(start, end, t, first.value);
    } else {
      ValidByOrdinal(end);
      VisitCountBound(start, end, t, 0);
    }
  }

  /** The first date, when it exists, is the first visit, counted when it is
      not after the end. */
  lemma FirstFound(start: Date, end: Date, t: int, x: Date)
    requires Valid(start) && Valid(end) && Valid(x)
    requires Ordinal(x) == Ordinal(start) + Offset(start, t)
    ensures x == Visit(start, t, 0)
    ensures LessEq(x, end) <==> 0 < VisitCount(start, end, t)
  {
    VisitAt(start, t, 0, x);
    VisitCountBound(start, end, t, 0);
    OrdinalOrder(x, end);
  }

  /** What the loop knows after stepping from its k-th date to the next. */
  lemma NextStep(start: Date, end: Date, t: int, k: nat, current: Date, next: Option<Date>)
    requires Valid(start) && Valid(end) && Valid(current)
    requires current == Visit(start, t, k) && k < VisitCount(start, end, t)
    requires next == PlusDays(current, WEEK)
    ensures next.None? ==> k + 1 == VisitCount(start, end, t) && Ordinal(Visit(start, t, k + 1)) > MAX_ORDINAL
    ensures next.Some? ==> next.value == Visit(start, t, k + 1) && Valid(next.value)
    ensures next.Some? ==> (LessEq(next.value, end) <==> k + 1 < VisitCount(start, end, t))
  {
    ValidByOrdinal(end);
    VisitCountBound(start, end, t, k + 1);
    if next.Some? {
      VisitAt(start, t, k + 1, next.value);
      OrdinalOrder(next.value, end);
    }
  }

  // ---- weekday arithmetic on ordinals ----

  /** From ordinal `o`, the offset to weekday `t` plus whole weeks lands on `t`. */
  lemma OffsetArith(o: int, t: int, k: int)
    requires 0 <= t < 7
    ensures (o + (t - (o + 6) % 7) % 7 + 7 * k + 6) % 7 == t
  {
    var w := (o + 6) % 7;
    assert o + 6 == 7 * ((o + 6) / 7) + w;
    var m := t - w;
    assert m == 7 * (m / 7) + m % 7;
    WeekShift(t, (o + 6) / 7 + k - m / 7);
  }

  /** No ordinal between `o` and `o` plus the offset to weekday `t` has weekday `t`. */
  lemma BeforeOffsetArith(o: int, t: int, g: int)
    requires 0 <= t < 7 && 0 <= g < (t - (o + 6) % 7) % 7
    ensures (o + g + 6) % 7 != t
  {
    var w := (o + 6) % 7;
    assert o + 6 == 7 * ((o + 6) / 7) + w;
    var m := t - w;
    assert m == 7 * (m / 7) + m % 7;
    var z := o + g + 6;
    assert z == 7 * (z / 7) + z % 7;
  }

  /** An ordinal at or after `o` with weekday `t` is the offset plus whole weeks. */
  lemma OnOffsetArith(o: int, t: int, x: int) returns (k: nat)
    requires 0 <= t < 7 && o <= x && (x + 6) % 7 == t
    ensures x == o + (t - (o + 6) % 7) % 7 + 7 * k
  {
    var w := (o + 6) % 7;
    assert o + 6 == 7 * ((o + 6) / 7) + w;
    var m := t - w;
    assert m == 7 * (m / 7) + m % 7;
    assert x + 6 == 7 * ((x + 6) / 7) + t;
    var q := (x + 6) / 7 - (o + 6) / 7 + m / 7;
    assert x == o + m % 7 + 7 * q;
    k := q;
  }

  /** A date `k` weeks after the first visited date's ordinal is the k-th visited date. */
  lemma VisitAt(start: Date, target: int, k: nat, x: Date)
    requires WellFormed(start) && WellFormed(x)
    requires Ordinal(x) == Ordinal(start) + Offset(start, target) + 7 * k
    ensures x == Visit(start, target, k)
  {
    OrdinalInjective(x, Visit(start, target, k));
  }

  /** A date on the target weekday whose ordinal is the offset plus `k` weeks. */
  lemma WeekdayAt(start: Date, target: int, k: nat, x: Date)
    requires WellFormed(start) && WellFormed(x) && 0 <= target < 7
    requires Ordinal(x) == Ordinal(start) + Offset(start, target) + 7 * k
    ensures Weekday(x) == target
  {
    OffsetArith(Ordinal(start), target, k);
  }

  /** A date from `start` up to, not including, the first visited date is
      not on the target weekday. */
  lemma BeforeOffsetAt(start: Date, target: int, x: Date)
    requires WellFormed(start) && WellFormed(x) && 0 <= target < 7
    requires Ordinal(start) <= Ordinal(x) < Ordinal(start) + Offset(start, target)
    ensures Weekday(x) != target
  {
    BeforeOffsetArith(Ordinal(start), target, Ordinal(x) - Ordinal(start));
  }

  // ---- what generate_dates promises ----

  /** Each visited date falls on the target weekday. */
  lemma VisitWeekday(start: Date, target: int, k: nat)
    requires WellFormed(start) && 0 <= target < 7
    ensures Weekday(Visit(start, target, k)) == target
  {
    WeekdayAt(start, target, k, Visit(start, target, k));
  }

  /** The first visited date is the first one on or after `start` with the
      target weekday: no date from `start` up to it has that weekday. */
  lemma VisitFirst(start: Date, target: int, x: Date)
    requires WellFormed(start) && WellFormed(x) && 0 <= target < 7
    requires LessEq(start, x) && !LessEq(Visit(start, target, 0), x)
    ensures Weekday(x) != target
  {
    OrdinalOrder(start, x);
    OrdinalOrder(Visit(start, target, 0), x);
    BeforeOffsetAt(start, target, x);
  }

  /** Consecutive visited dates are a week apart and share their weekday. */
  lemma VisitStep(start: Date, target: int, k: nat)
    requires WellFormed(start)
    ensures Ordinal(Visit(start, target, k + 1)) == Ordinal(Visit(start, target, k)) + 7
    ensures Weekday(Visit(start, target, k + 1)) == Weekday(Visit(start, target, k))
  {
    var before, after := Visit(start, target, k), Visit(start, target, k + 1);
    assert Ordinal(after) == Ordinal(before) + 7;
    WeekShift(Ordinal(before) + 6, 1);
  }

  /** A date on or after `start` with the target weekday is a visited date. */
  lemma VisitIndex(start: Date, target: int, x: Date) returns (k: nat)
    requires WellFormed(start) && WellFormed(x) && 0 <= target < 7
    requires Weekday(x) == target && LessEq(start, x)
    ensures Visit(start, target, k) == x
  {
    OrdinalOrder(start, x);
    k := OnOffsetArith(Ordinal(start), target, Ordinal(x));
    VisitAt(start, target, k, x);
  }

  /** The k-th emitted row is the k-th visited date, a valid date inside the
      period, with the rule's other columns copied unchanged (the weekday
      symbol as written, not lower-cased). */
  lemma ExpandRow(start: Date, end: Date, target: int, f: Fields, k: int)
    requires Valid(start) && Valid(end)
    requires ExpandDates(start, end, target, f).Ok?
    requires 0 <= k < |ExpandDates(start, end, target, f).value|
    ensures Valid(Visit(start, target, k))
    ensures LessEq(start, Visit(start, target, k)) && LessEq(Visit(start, target, k), end)
    ensures ExpandDates(start, end, target, f).value[k]
      == Occurrence(FormatDate(Visit(start, target, k)), f.weekOfDay, f.eventStart, f.eventEnd, f.event)
  {
    VisitInPeriod(start, end, target, k);
  }

  /** Every date of the period on the target weekday is emitted. */
  lemma ExpandComplete(start: Date, end: Date, target: int, f: Fields, x: Date)
    requires Valid(start) && Valid(end) && 0 <= target < 7
    requires ExpandDates(start, end, target, f).Ok?
    requires Valid(x) && Weekday(x) == target && LessEq(start, x) && LessEq(x, end)
    ensures exists k ::
      && 0 <= k < |ExpandDates(start, end, target, f).value|
      && ExpandDates(start, end, target, f).value[k].date == FormatDate(x)
  {
    var k := VisitIndex(start, target, x);
    VisitCountBound(start, end, target, k);
    OrdinalOrder(x, end);
    ExpandRow(start, end, target, f, k);
  }

  /** A period whose first date on the target weekday lies past its end
      emits nothing. */
  lemma ExpandEmpty(start: Date, end: Date, target: int, f: Fields)
    requires Valid(start) && Valid(end)
    requires ExpandDates(start, end, target, f).Ok?
    requires !LessEq(Visit(start, target, 0), end)
    ensures ExpandDates(start, end, target, f).value == []
  {
    VisitCountBound(start, end, target, 0);
    OrdinalOrder(Visit(start, target, 0), end);
  }

  /** A one-day period on its own weekday visits exactly that day. */
  lemma SingleDayVisits(day: Date, target: int)
    requires Valid(day) && Weekday(day) == target
    ensures VisitCount(day, day, target) == 1 && Visits(day, target, 1) == [day]
  {
    VisitAt(day, target, 0, day);
    VisitCountBound(day, day, target, 0);
    VisitCountBound(day, day, target, 1);
  }

  /** A one-day period on the target weekday emits exactly that day. */
  lemma ExpandSingleDay(day: Date, target: int, f: Fields)
    requires Valid(day) && Weekday(day) == target
    requires ExpandDates(day, day, target, f).Ok?
    ensures ExpandDates(day, day, target, f).value
      == [Occurrence(FormatDate(day), f.weekOfDay, f.eventStart, f.eventEnd, f.event)]
  {
    SingleDayVisits(day, target);
    assert RowsOf([day], f) == [Row(day, f)];
  }

  /** The loop computes the date after the last one it emits, so a period
      that starts and ends more than a week before 9999-12-31 cannot overflow. */
  lemma ExpandNoOverflow(start: Date, end: Date, target: int, f: Fields)
    requires Valid(start) && Valid(end)
    requires Ordinal(start) + 7 <= MAX_ORDINAL && Ordinal(end) + 7 <= MAX_ORDINAL
    ensures ExpandDates(start, end, target, f).Ok?
  {
    var n := VisitCount(start, end, target);
    if n > 0 {
      VisitCountBound(start, end, target, n - 1);
    }
  }

  /** A rule whose last date is 9999-12-31 raises: stepping past it overflows. */
  lemma ExpandOverflow(start: Date, target: int, f: Fields)
    requires Valid(start) && 0 <= target < 7
    requires Weekday(Date(MAX_YEAR, 12, 31)) == target && LessEq(start, Date(MAX_YEAR, 12, 31))
    ensures ExpandDates(start, Date(MAX_YEAR, 12, 31), target, f) == Err(DateOverflow)
  {
    var last := Date(MAX_YEAR, 12, 31);
    var k := VisitIndex(start, target, last);
    VisitCountBound(start, last, target, k);
    VisitCountBound(start, last, target, k + 1);
  }

  // ---- exceptions and exclude_dates ----

  /** The `except` cell of a rule, each piece read with `strptime` and written
      back with `strftime`: None where a piece is not a date. */
  function NormaliseDates(pieces: seq<string>): (r: Result<seq<string>>)
    ensures r.Ok? ==> |r.value| == |pieces|
  {
    if |pieces| == 0 then Ok([])
    else
      match ParseDate(pieces[0])
      case None => Err(MalformedDate(pieces[0]))
      case Some(d) =>
        match NormaliseDates(pieces[1..])
        case Err(e) => Err(e)
        case Ok(rest) => Ok([FormatDate(d)] + rest)
  }

  /** The exception dates of a rule: a cell that is not a string gives none;
      a string is split on `;` and every piece must be a date. */
  function Exceptions(cell: Option<string>): Result<seq<string>>
  {
    match cell
    case None => Ok([])
    case Some(s) => NormaliseDates(Split(s, EXCEPT_SEPARATOR))
  }

  /** Each normalised exception is the canonical text of the date its piece names. */
  lemma {:induction false} NormaliseDatesSound(pieces: seq<string>, i: int)
    requires NormaliseDates(pieces).Ok? && 0 <= i < |pieces|
    ensures ParseDate(pieces[i]).Some?
    ensures NormaliseDates(pieces).value[i] == FormatDate(ParseDate(pieces[i]).value)
  {
    NormaliseDatesCons(pieces);
    if i > 0 {
      var tail := pieces[1..];
      assert tail[i - 1] == pieces[i];
      NormaliseDatesSound(tail, i - 1);
    }
  }

  /** An accepted list is the first piece's canonical text, then the rest's. */
  lemma NormaliseDatesCons(pieces: seq<string>)
    requires NormaliseDates(pieces).Ok? && |pieces| > 0
    ensures ParseDate(pieces[0]).Some? && NormaliseDates(pieces[1..]).Ok?
    ensures NormaliseDates(pieces).value == [FormatDate(ParseDate(pieces[0]).value)] + NormaliseDates(pieces[1..]).value
  {
  }

  /** The pieces are rejected exactly when one of them is not a date, and the
      error names the first such piece. */
  lemma {:induction false} NormaliseDatesError(pieces: seq<string>)
    ensures NormaliseDates(pieces).Err? <==> exists i :: 0 <= i < |pieces| && ParseDate(pieces[i]).None?
    ensures NormaliseDates(pieces).Err? ==> exists i ::
      && 0 <= i < |pieces| && ParseDate(pieces[i]).None?
      && NormaliseDates(pieces).error == MalformedDate(pieces[i])
      && forall j :: 0 <= j < i ==> ParseDate(pieces[j]).Some?
  {
    if NormaliseDates(pieces).Err? {
      NormaliseDatesFirst(pieces);
    } else {
      forall i | 0 <= i < |pieces|
        ensures ParseDate(pieces[i]).Some?
      {
        NormaliseDatesSound(pieces, i);
      }
    }
  }

  /** A rejection names a piece that is not a date, after only dates. */
  lemma {:induction false} NormaliseDatesFirst(pieces: seq<string>)
    requires NormaliseDates(pieces).Err?
    ensures exists i ::
      && 0 <= i < |pieces| && ParseDate(pieces[i]).None?
      && NormaliseDates(pieces).error == MalformedDate(pieces[i])
      && forall j :: 0 <= j < i ==> ParseDate(pieces[j]).Some?
  {
    var tail := pieces[1..];
    if ParseDate(pieces[0]).Some? {
      NormaliseDatesFirst(tail);
      var i :| 0 <= i < |tail| && ParseDate(tail[i]).None?
        && NormaliseDates(tail).error == MalformedDate(tail[i])
        && forall j :: 0 <= j < i ==> ParseDate(tail[j]).Some?;
      assert forall j :: 0 < j <= i ==> pieces[j] == tail[j - 1];
      assert pieces[i + 1] == tail[i];
    } else {
      assert NormaliseDates(pieces).error == MalformedDate(pieces[0]);
    }
  }

  /** Normalising canonical texts changes nothing. */
  lemma {:induction false} NormaliseDatesIdempotent(pieces: seq<string>)
    requires NormaliseDates(pieces).Ok?
    ensures NormaliseDates(NormaliseDates(pieces).value) == NormaliseDates(pieces)
  {
    if |pieces| > 0 {
      NormaliseDatesIdempotent(pieces[1..]);
      var d := ParseDate(pieces[0]).value;
      ParseFormat(d);
      var out := NormaliseDates(pieces).value;
      assert out[1..] == NormaliseDates(pieces[1..]).value;
    }
  }

  /** The exceptions of the example rule in the source's comments, written with
      commas, are rejected: the whole cell is a single piece that is not a date. */
  lemma CommaSeparatedExceptionsRejected()
    ensures Exceptions(Some("2025-05-05,2025-05-12")) == Err(MalformedDate("2025-05-05,2025-05-12"))
  {
    var s := "2025-05-05,2025-05-12";
    SplitWithout(s, EXCEPT_SEPARATOR);
    if ParseDate(s).Some? {
      ParseDateLength(s);
    }
  }

  /** An empty `except` string is a string, and its one empty piece is not a date. */
  lemma EmptyExceptionsRejected()
    ensures Exceptions(Some("")) == Err(MalformedDate(""))
  {
  }

  /** `df[~df['date'].isin(except_dates)]`: the rows whose date is not an
      exception, in their order. */
  function ExcludeDates(rows: seq<Occurrence>, except: seq<string>): (kept: seq<Occurrence>)
    ensures |kept| <= |rows|
    ensures forall x :: x in kept ==> x in rows && x.date !in except
  {
    if |rows| == 0 then []
    else if rows[0].date in except then ExcludeDates(rows[1..], except)
    else [rows[0]] + ExcludeDates(rows[1..], except)
  }

  /** A row is kept exactly when it is a row whose date is not an exception. */
  lemma {:induction false} ExcludeDatesKeeps(rows: seq<Occurrence>, except: seq<string>, x: Occurrence)
    ensures x in ExcludeDates(rows, except) <==> x in rows && x.date !in except
  {
    if |rows| > 0 {
      ExcludeDatesKeeps(rows[1..], except, x);
      assert rows == [rows[0]] + rows[1..];
    }
  }

  /** Excluding distributes over concatenated frames. */
  lemma {:induction false} ExcludeDatesAppend(a: seq<Occurrence>, b: seq<Occurrence>, except: seq<string>)
    ensures ExcludeDates(a + b, except) == ExcludeDates(a, except) + ExcludeDates(b, except)
  {
    if |a| > 0 {
      assert (a + b)[1..] == a[1..] + b;
      ExcludeDatesAppend(a[1..], b, except);
    } else {
      assert a + b == b;
    }
  }

  /** With no exceptions every row is kept, and excluding twice is excluding once. */
  lemma {:induction false} ExcludeDatesNothing(rows: seq<Occurrence>, except: seq<string>)
    ensures ExcludeDates(rows, []) == rows
    ensures ExcludeDates(ExcludeDates(rows, except), except) == ExcludeDates(rows, except)
  {
    if |rows| > 0 {
      ExcludeDatesNothing(rows[1..], except);
      assert rows == [rows[0]] + rows[1..];
    }
  }

  /** Exception dates that match no row leave the frame as it was. */
  lemma {:induction false} ExcludeDatesNoMatch(rows: seq<Occurrence>, except: seq<string>)
    requires forall i :: 0 <= i < |rows| ==> rows[i].date !in except
    ensures ExcludeDates(rows, except) == rows
  {
    if |rows| > 0 {
      ExcludeDatesNoMatch(rows[1..], except);
      assert rows == [rows[0]] + rows[1..];
    }
  }

  /** Each row is kept as many times as it occurs, unless its date is an
      exception, and then not at all. */
  lemma {:induction false} ExcludeDatesCount(rows: seq<Occurrence>, except: seq<string>, x: Occurrence)
    ensures multiset(ExcludeDates(rows, except))[x] == if x.date in except then 0 else multiset(rows)[x]
  {
    if |rows| > 0 {
      ExcludeDatesCount(rows[1..], except, x);
      assert rows == [rows[0]] + rows[1..];
      assert multiset(rows) == multiset([rows[0]]) + multiset(rows[1..]);
    }
  }

  // ---- generate_schedule ----

  /** One input row through `generate_dates`, the parsing of its exceptions
      and `exclude_dates`. A rule with no dates gives a frame with no `date`
      column, on which `exclude_dates` raises KeyError. */
  function ExpandRule(rule: Rule): Result<seq<Occurrence>>
  {
    match Expand(rule.periodStart, rule.periodEnd, rule.weekOfDay, rule.eventStart, rule.eventEnd, rule.event)
    case Err(e) => Err(e)
    case Ok(rows) =>
      match Exceptions(rule.exceptions)
      case Err(e) => Err(e)
      case Ok(except) =>
        if |rows| == 0 then Err(MissingDateColumn) else Ok(ExcludeDates(rows, except))
  }

  /** The outcome of every rule, in rule order. */
  function Outcomes(rules: seq<Rule>): (r: seq<Result<seq<Occurrence>>>)
    ensures |r| == |rules|
  {
    if |rules| == 0 then [] else Outcomes(rules[..|rules| - 1]) + [ExpandRule(rules[|rules| - 1])]
  }

  /** The outcome at index `i` is that of rule `i`. */
  lemma {:induction false} OutcomesAt(rules: seq<Rule>, i: int)
    requires 0 <= i < |rules|
    ensures Outcomes(rules)[i] == ExpandRule(rules[i])
  {
    if i < |rules| - 1 {
      var init := rules[..|rules| - 1];
      OutcomesAt(init, i);
      assert init[i] == rules[i];
    }
  }

  /** The outcomes of concatenated rules are the concatenated outcomes. */
  lemma {:induction false} OutcomesAppend(a: seq<Rule>, b: seq<Rule>)
    ensures Outcomes(a + b) == Outcomes(a) + Outcomes(b)
    decreases |b|
  {
    if |b| == 0 {
      assert a + b == a;
    } else {
      var b' := b[..|b| - 1];
      assert (a + b)[..|a + b| - 1] == a + b';
      assert (a + b)[|a + b| - 1] == b[|b| - 1];
      OutcomesAppend(a, b');
    }
  }

  /** The frames of the outcomes concatenated in order; the first error wins,
      as the loop stops at the first rule that raises. */
  function Gather(outcomes: seq<Result<seq<Occurrence>>>): Result<seq<Occurrence>>
  {
    if |outcomes| == 0 then Ok([])
    else
      match Gather(outcomes[..|outcomes| - 1])
      case Err(e) => Err(e)
      case Ok(prefix) =>
        match outcomes[|outcomes| - 1]
        case Err(e) => Err(e)
        case Ok(rows) => Ok(prefix + rows)
  }

  /** What `generate_schedule` returns or raises: `pd.concat` of no frames raises. */
  function Schedule(rules: seq<Rule>): Result<seq<Occurrence>>
  {
    if |rules| == 0 then Err(NoRules) else Gather(Outcomes(rules))
  }

  /** The body of the loop of `generate_schedule` for one rule. */
  method RunRule(rule: Rule) returns (r: Result<seq<Occurrence>>)
    ensures r == ExpandRule(rule)
  {
    var dates := GenerateDates(rule.periodStart, rule.periodEnd, rule.weekOfDay,
                               rule.eventStart, rule.eventEnd, rule.event);
    if dates.Err? {
      return Err(dates.error);
    }
    var except := Exceptions(rule.exceptions);
    if except.Err? {
      return Err(except.error);
    }
    if |dates.value| == 0 {
      return Err(MissingDateColumn);
    }
    return Ok(ExcludeDates(dates.value, except.value));
  }

  /** `generate_schedule`: expand every rule in order and concatenate. */
  method GenerateSchedule(rules: seq<Rule>) returns (r: Result<seq<Occurrence>>)
    ensures r == Schedule(rules)
  {
    var results: seq<Occurrence> := [];
    var i := 0;
    while i < |rules|
      invariant 0 <= i <= |rules|
      invariant Gather(Outcomes(rules[..i])) == Ok(results)
    {
      var frame := RunRule(rules[i]);
      OutcomesSnoc(rules, i);
      GatherSnoc(Outcomes(rules[..i]), frame);
      if frame.Err? {
        ScheduleStops(rules, i);
        return Err(frame.error);
      }
      results := results + frame.value;
      i := i + 1;
    }
    assert rules[..i] == rules;
    if i == 0 {
      return Err(NoRules);
    }
    return Ok(results);
  }

  /** The outcomes of one more rule: one more outcome at the end. */
  lemma OutcomesSnoc(rules: seq<Rule>, i: int)
    requires 0 <= i < |rules|
    ensures Outcomes(rules[..i + 1]) == Outcomes(rules[..i]) + [ExpandRule(rules[i])]
  {
    assert rules[..i + 1][..i] == rules[..i];
  }

  /** Gathering one more outcome. */
  lemma GatherSnoc(prefix: seq<Result<seq<Occurrence>>>, last: Result<seq<Occurrence>>)
    ensures Gather(prefix + [last]) ==
      match Gather(prefix)
      case Err(e) => Err(e)
      case Ok(x) =>
        match last
        case Err(e) => Err(e)
        case Ok(y) => Ok(x + y)
  {
    assert (prefix + [last])[..|prefix|] == prefix;
  }

  /** Once the rules up to `i` fail, the schedule fails with their error. */
  lemma ScheduleStops(rules: seq<Rule>, i: int)
    requires 0 <= i < |rules| && Gather(Outcomes(rules[..i + 1])).Err?
    ensures Schedule(rules) == Gather(Outcomes(rules[..i + 1]))
  {
    assert rules == rules[..i + 1] + rules[i + 1..];
    OutcomesAppend(rules[..i + 1], rules[i + 1..]);
    GatherStops(Outcomes(rules[..i + 1]), Outcomes(rules[i + 1..]));
  }

  /** Gathering two lists of outcomes one after the other: the concatenation,
      or the first list's error, or else the second's. */
  lemma {:induction false} GatherAppend(a: seq<Result<seq<Occurrence>>>, b: seq<Result<seq<Occurrence>>>)
    ensures Gather(a + b) ==
      match Gather(a)
      case Err(e) => Err(e)
      case Ok(x) =>
        match Gather(b)
        case Err(e) => Err(e)
        case Ok(y) => Ok(x + y)
    decreases |b|
  {
    if |b| == 0 {
      assert a + b == a;
      if Gather(a).Ok? {
        assert Gather(a).value + [] == Gather(a).value;
      }
    } else {
      var b' := b[..|b| - 1];
      assert (a + b)[..|a + b| - 1] == a + b';
      assert (a + b)[|a + b| - 1] == b[|b| - 1];
      GatherAppend(a, b');
      if Gather(a).Ok? && Gather(b').Ok? && b[|b| - 1].Ok? {
        var x, y, z := Gather(a).value, Gather(b').value, b[|b| - 1].value;
        assert x + y + z == x + (y + z);
      }
    }
  }

  /** Once an outcome is an error, later rules do not change the result. */
  lemma GatherStops(a: seq<Result<seq<Occurrence>>>, b: seq<Result<seq<Occurrence>>>)
    requires Gather(a).Err?
    ensures Gather(a + b) == Gather(a)
  {
    GatherAppend(a, b);
  }

  /** An error among the outcomes makes the gathered result an error. */
  lemma {:induction false} GatherFailsAt(outcomes: seq<Result<seq<Occurrence>>>, i: int)
    requires 0 <= i < |outcomes| && outcomes[i].Err?
    ensures Gather(outcomes).Err?
    decreases |outcomes|
  {
    var init := outcomes[..|outcomes| - 1];
    if i < |init| {
      assert init[i] == outcomes[i];
      GatherFailsAt(init, i);
    }
  }

  /** A gathered error is the error of the first failing outcome. */
  lemma {:induction false} GatherFirstError(outcomes: seq<Result<seq<Occurrence>>>) returns (i: int)
    requires Gather(outcomes).Err?
    ensures 0 <= i < |outcomes| && Gather(outcomes) == outcomes[i]
    ensures forall j :: 0 <= j < i ==> outcomes[j].Ok?
    decreases |outcomes|
  {
    var init := outcomes[..|outcomes| - 1];
    if Gather(init).Err? {
      i := GatherFirstError(init);
      assert forall j :: 0 <= j < i ==> init[j] == outcomes[j];
    } else {
      i := |outcomes| - 1;
      GatherAllOk(init);
      assert forall j :: 0 <= j < i ==> init[j] == outcomes[j];
    }
  }

  /** A gathered success means every outcome succeeded. */
  lemma {:induction false} GatherAllOk(outcomes: seq<Result<seq<Occurrence>>>)
    requires Gather(outcomes).Ok?
    ensures forall j :: 0 <= j < |outcomes| ==> outcomes[j].Ok?
    decreases |outcomes|
  {
    if |outcomes| > 0 {
      var init := outcomes[..|outcomes| - 1];
      GatherAllOk(init);
      assert forall j :: 0 <= j < |init| ==> init[j] == outcomes[j];
    }
  }

  /** The rows of each outcome are among the gathered rows. */
  lemma {:induction false} GatherHas(outcomes: seq<Result<seq<Occurrence>>>, i: int)
    requires Gather(outcomes).Ok? && 0 <= i < |outcomes|
    ensures outcomes[i].Ok? && multiset(outcomes[i].value) <= multiset(Gather(outcomes).value)
    decreases |outcomes|
  {
    var init := outcomes[..|outcomes| - 1];
    if i < |init| {
      assert init[i] == outcomes[i];
      GatherHas(init, i);
    }
  }

  /** Every gathered row comes from one of the outcomes. */
  lemma {:induction false} GatherSource(outcomes: seq<Result<seq<Occurrence>>>, x: Occurrence) returns (i: int)
    requires Gather(outcomes).Ok? && x in Gather(outcomes).value
    ensures 0 <= i < |outcomes| && outcomes[i].Ok? && x in outcomes[i].value
    decreases |outcomes|
  {
    var init := outcomes[..|outcomes| - 1];
    var last := outcomes[|outcomes| - 1].value;
    if x in Gather(init).value {
      i := GatherSource(init, x);
      assert init[i] == outcomes[i];
    } else {
      i := |outcomes| - 1;
    }
  }

  /** Scheduling two lists of rules is scheduling each and concatenating. */
  lemma ScheduleAppend(a: seq<Rule>, b: seq<Rule>)
    requires |a| > 0 && |b| > 0
    ensures Schedule(a + b) ==
      match Schedule(a)
      case Err(e) => Err(e)
      case Ok(x) =>
        match Schedule(b)
        case Err(e) => Err(e)
        case Ok(y) => Ok(x + y)
  {
    OutcomesAppend(a, b);
    GatherAppend(Outcomes(a), Outcomes(b));
  }

  /** Every row of every rule is in the schedule. */
  lemma ScheduleHasRows(rules: seq<Rule>, i: int)
    requires Schedule(rules).Ok? && 0 <= i < |rules|
    ensures ExpandRule(rules[i]).Ok?
    ensures multiset(ExpandRule(rules[i]).value) <= multiset(Schedule(rules).value)
  {
    OutcomesAt(rules, i);
    GatherHas(Outcomes(rules), i);
  }

  /** Every row of the schedule comes from one of its rules. */
  lemma ScheduleRowSource(rules: seq<Rule>, x: Occurrence) returns (i: int)
    requires Schedule(rules).Ok? && x in Schedule(rules).value
    ensures 0 <= i < |rules| && ExpandRule(rules[i]).Ok? && x in ExpandRule(rules[i]).value
  {
    i := GatherSource(Outcomes(rules), x);
    OutcomesAt(rules, i);
  }

  /** A schedule fails exactly when there are no rules or some rule fails,
      and then with the error of the first rule that fails. */
  lemma ScheduleFailsAt(rules: seq<Rule>, i: int)
    requires 0 <= i < |rules| && ExpandRule(rules[i]).Err?
    ensures Schedule(rules).Err?
  {
    OutcomesAt(rules, i);
    GatherFailsAt(Outcomes(rules), i);
  }

  lemma ScheduleFirstError(rules: seq<Rule>) returns (i: int)
    requires |rules| > 0 && Schedule(rules).Err?
    ensures 0 <= i < |rules| && Schedule(rules) == ExpandRule(rules[i])
    ensures forall j :: 0 <= j < i ==> Outcomes(rules)[j].Ok?
  {
    i := GatherFirstError(Outcomes(rules));
    OutcomesAt(rules, i);
  }

  /** A row of an expanded rule is a date of its period on its weekday that
      is not one of its exceptions. */
  lemma ExpandRuleSound(rule: Rule, x: Occurrence)
    requires ExpandRule(rule).Ok? && x in ExpandRule(rule).value
    ensures ParseDate(rule.periodStart).Some? && ParseDate(rule.periodEnd).Some?
    ensures WeekdayNumber(rule.weekOfDay).Some?
    ensures exists d ::
      && Valid(d) && x.date == FormatDate(d)
      && Weekday(d) == WeekdayNumber(rule.weekOfDay).value
      && LessEq(ParseDate(rule.periodStart).value, d) && LessEq(d, ParseDate(rule.periodEnd).value)
      && x.date !in Exceptions(rule.exceptions).value
    ensures x.weekOfDay == rule.weekOfDay && x.eventStart == rule.eventStart
    ensures x.eventEnd == rule.eventEnd && x.event == rule.event
  {
    var start, end := ParseDate(rule.periodStart).value, ParseDate(rule.periodEnd).value;
    var target := WeekdayNumber(rule.weekOfDay).value;
    var f := Fields(rule.weekOfDay, rule.eventStart, rule.eventEnd, rule.event);
    var rows := ExpandDates(start, end, target, f).value;
    var except := Exceptions(rule.exceptions).value;
    ExcludeDatesKeeps(rows, except, x);
    var k :| 0 <= k < |rows| && rows[k] == x;
    ExpandRow(start, end, target, f, k);
    VisitWeekday(start, target, k);
  }

  /** Every date of the period on the rule's weekday that is not an
      exception has its row in the expanded rule. */
  lemma ExpandRuleComplete(rule: Rule, x: Date)
    requires ExpandRule(rule).Ok?
    requires Valid(x) && WeekdayNumber(rule.weekOfDay).Some? && Weekday(x) == WeekdayNumber(rule.weekOfDay).value
    requires ParseDate(rule.periodStart).Some? && LessEq(ParseDate(rule.periodStart).value, x)
    requires ParseDate(rule.periodEnd).Some? && LessEq(x, ParseDate(rule.periodEnd).value)
    requires Exceptions(rule.exceptions).Ok? && FormatDate(x) !in Exceptions(rule.exceptions).value
    ensures exists row :: row in ExpandRule(rule).value && row.date == FormatDate(x)
  {
    var start, end := ParseDate(rule.periodStart).value, ParseDate(rule.periodEnd).value;
    var target := WeekdayNumber(rule.weekOfDay).value;
    var f := Fields(rule.weekOfDay, rule.eventStart, rule.eventEnd, rule.event);
    var rows := ExpandDates(start, end, target, f).value;
    ExpandComplete(start, end, target, f, x);
    var k :| 0 <= k < |rows| && rows[k].date == FormatDate(x);
    ExcludeDatesKeeps(rows, Exceptions(rule.exceptions).value, rows[k]);
  }

  // ---- format_events ----

  /** The dict `create_event_dict` builds, as its (key, value) pairs in
      insertion order. */
  type EventDict = seq<(string, string)>

  /** `create_event_dict`: `event_start`, then `event_end` when the cell is
      not missing, then `event`. */
  function CreateEventDict(row: Occurrence): (d: EventDict)
    ensures |d| == (if row.eventEnd.Some? then 3 else 2)
    ensures d[0] == ("event_start", row.eventStart) && d[|d| - 1] == ("event", row.event)
    ensures forall v :: ("event_end", v) in d <==> row.eventEnd == Some(v)
  {
    match row.eventEnd
    case None => [("event_start", row.eventStart), ("event", row.event)]
    case Some(v) => [("event_start", row.eventStart), ("event_end", v), ("event", row.event)]
  }

  /** One row of the grouped frame: a date and the dicts of its events. */
  datatype Group = Group(date: string, events: seq<EventDict>)

  /** Add one row to groups kept in ascending date order. */
  function Insert(groups: seq<Group>, row: Occurrence): (r: seq<Group>)
    decreases |groups|
  {
    if |groups| == 0 then [Group(row.date, [CreateEventDict(row)])]
    else if groups[0].date == row.date then
      [Group(row.date, groups[0].events + [CreateEventDict(row)])] + groups[1..]
    else if Less(row.date, groups[0].date) then [Group(row.date, [CreateEventDict(row)])] + groups
    else [groups[0]] + Insert(groups[1..], row)
  }

  /** `groupby('date').apply(...)`: the groups sorted by date; each group
      lists the dicts of its rows in row order. */
  function Grouped(rows: seq<Occurrence>): seq<Group>
  {
    if |rows| == 0 then [] else Insert(Grouped(rows[..|rows| - 1]), rows[|rows| - 1])
  }

  /** `format_events`: the groups of a frame with rows. A frame without rows
      has no groups; `apply` then gives a frame rather than a series, and
      its `reset_index` refuses the `name` argument with TypeError. */
  function FormatEvents(rows: seq<Occurrence>): Result<seq<Group>>
  {
    if |rows| == 0 then Err(NoGroups) else Ok(Grouped(rows))
  }

  /** Dates strictly ascending in Python's string order. */
  predicate Ascending(groups: seq<Group>)
  {
    forall i, j :: 0 <= i < j < |groups| ==> Less(groups[i].date, groups[j].date)
  }

  /** The dicts of the rows with date `key`, in row order: what one group holds. */
  function EventsOf(rows: seq<Occurrence>, key: string): seq<EventDict>
  {
    if |rows| == 0 then []
    else
      var last := rows[|rows| - 1];
      EventsOf(rows[..|rows| - 1], key) + (if last.date == key then [CreateEventDict(last)] else [])
  }

  /** The events grouped under `key`, none if there is no such group. */
  function Matching(groups: seq<Group>, key: string): seq<EventDict>
  {
    if |groups| == 0 then []
    else (if groups[0].date == key then groups[0].events else []) + Matching(groups[1..], key)
  }

  lemma {:induction false} InsertAscending(groups: seq<Group>, row: Occurrence)
    requires Ascending(groups)
    ensures Ascending(Insert(groups, row))
    ensures forall g :: g in Insert(groups, row) ==> g.date == row.date || exists h :: h in groups && h.date == g.date
    decreases |groups|
  {
    if |groups| > 0 && groups[0].date != row.date && !Less(row.date, groups[0].date) {
      InsertAscending(groups[1..], row);
      var r := Insert(groups, row);
      LessTotal(row.date, groups[0].date);
      forall i, j | 0 <= i < j < |r|
        ensures Less(r[i].date, r[j].date)
      {
        if i == 0 {
          var g := r[j];
          assert g in Insert(groups[1..], row);
          if g.date != row.date {
            var h :| h in groups[1..] && h.date == g.date;
            var m :| 0 <= m < |groups[1..]| && groups[1..][m] == h;
            assert groups[m + 1] == h;
          }
        }
      }
    } else if |groups| > 0 && groups[0].date != row.date {
      var r := Insert(groups, row);
      forall i, j | 0 <= i < j < |r|
        ensures Less(r[i].date, r[j].date)
      {
        if i == 0 {
          if j > 1 {
            LessTransitive(row.date, groups[0].date, groups[j - 1].date);
          }
        }
      }
    }
  }

  /** Every group holds at least one event. */
  predicate Occupied(groups: seq<Group>)
  {
    forall i :: 0 <= i < |groups| ==> |groups[i].events| > 0
  }

  /** The number of events over all groups. */
  function Total(groups: seq<Group>): nat
  {
    if |groups| == 0 then 0 else |groups[0].events| + Total(groups[1..])
  }

  /** Groups whose dates all differ from `key` hold no events under it. */
  lemma {:induction false} MatchingAbsent(groups: seq<Group>, key: string)
    requires forall i :: 0 <= i < |groups| ==> groups[i].date != key
    ensures Matching(groups, key) == []
  {
    if |groups| > 0 {
      MatchingAbsent(groups[1..], key);
    }
  }

  /** Inserting a row adds its dict at the end of its date's events and
      leaves the other dates' events alone. */
  lemma {:induction false} InsertMatching(groups: seq<Group>, row: Occurrence, key: string)
    requires Ascending(groups)
    ensures Matching(Insert(groups, row), key)
      == Matching(groups, key) + (if row.date == key then [CreateEventDict(row)] else [])
    decreases |groups|
  {
    if |groups| == 0 {
    } else if groups[0].date == row.date {
      var rest := groups[1..];
      if row.date == key {
        assert forall i :: 0 <= i < |rest| ==> Less(groups[0].date, rest[i].date) by {
          assert forall i :: 0 <= i < |rest| ==> rest[i] == groups[i + 1];
        }
        forall i | 0 <= i < |rest| ensures rest[i].date != key {
          if rest[i].date == key {
            LessIrreflexive(key);
          }
        }
        MatchingAbsent(rest, key);
      }
      assert Insert(groups, row)[1..] == rest;
    } else if Less(row.date, groups[0].date) {
      if row.date == key {
        forall i | 0 <= i < |groups| ensures groups[i].date != key {
          if i > 0 {
            LessTransitive(row.date, groups[0].date, groups[i].date);
          }
          if groups[i].date == key {
            LessIrreflexive(key);
          }
        }
        MatchingAbsent(groups, key);
      }
      assert Insert(groups, row)[1..] == groups;
    } else {
      assert Ascending(groups[1..]);
      InsertMatching(groups[1..], row, key);
      assert Insert(groups, row)[1..] == Insert(groups[1..], row);
    }
  }

  lemma {:induction false} InsertOccupied(groups: seq<Group>, row: Occurrence)
    requires Occupied(groups)
    ensures Occupied(Insert(groups, row))
    ensures Total(Insert(groups, row)) == Total(groups) + 1
    decreases |groups|
  {
    if |groups| > 0 {
      if groups[0].date == row.date {
        assert Insert(groups, row)[1..] == groups[1..];
      } else if Less(row.date, groups[0].date) {
        assert Insert(groups, row)[1..] == groups;
      } else {
        InsertOccupied(groups[1..], row);
        assert Insert(groups, row)[1..] == Insert(groups[1..], row);
      }
    }
  }

  /** The groups list each date once, in ascending order, every date
      with at least one event, and as many events in all as there are rows. */
  lemma {:induction false} GroupedShape(rows: seq<Occurrence>)
    ensures Ascending(Grouped(rows)) && Occupied(Grouped(rows))
    ensures Total(Grouped(rows)) == |rows|
  {
    if |rows| > 0 {
      var init := rows[..|rows| - 1];
      GroupedShape(init);
      InsertAscending(Grouped(init), rows[|rows| - 1]);
      InsertOccupied(Grouped(init), rows[|rows| - 1]);
    }
  }

  /** The events under each date are the dicts of that date's rows, in row order. */
  lemma {:induction false} GroupedMatching(rows: seq<Occurrence>, key: string)
    ensures Matching(Grouped(rows), key) == EventsOf(rows, key)
  {
    if |rows| > 0 {
      var init := rows[..|rows| - 1];
      GroupedMatching(init, key);
      GroupedShape(init);
      InsertMatching(Grouped(init), rows[|rows| - 1], key);
    }
  }

  /** In occupied groups, a date has events exactly when it has a group. */
  lemma {:induction false} MatchingPresent(groups: seq<Group>, key: string)
    requires Occupied(groups)
    ensures |Matching(groups, key)| > 0 <==> exists i :: 0 <= i < |groups| && groups[i].date == key
  {
    if |groups| > 0 {
      MatchingPresent(groups[1..], key);
      assert forall i :: 0 < i < |groups| ==> groups[1..][i - 1] == groups[i];
    }
  }

  /** A date has events exactly when some row has that date. */
  lemma {:induction false} EventsOfPresent(rows: seq<Occurrence>, key: string)
    ensures |EventsOf(rows, key)| > 0 <==> exists j :: 0 <= j < |rows| && rows[j].date == key
  {
    if |rows| > 0 {
      var init := rows[..|rows| - 1];
      EventsOfPresent(init, key);
      assert forall j :: 0 <= j < |init| ==> init[j] == rows[j];
    }
  }

  /** The grouped dates are exactly the dates of the rows. */
  lemma GroupedDates(rows: seq<Occurrence>, key: string)
    ensures (exists i :: 0 <= i < |Grouped(rows)| && Grouped(rows)[i].date == key)
        <==> (exists j :: 0 <= j < |rows| && rows[j].date == key)
  {
    GroupedShape(rows);
    GroupedMatching(rows, key);
    MatchingPresent(Grouped(rows), key);
    EventsOfPresent(rows, key);
  }

  /** `format_events` raises exactly on a frame without rows. Otherwise it
      lists each date once, in ascending order, every date with at least
      one event, and as many events in all as there are rows. */
  lemma FormatEventsShape(rows: seq<Occurrence>)
    ensures FormatEvents(rows).Err? <==> |rows| == 0
    ensures FormatEvents(rows).Err? ==> FormatEvents(rows).error == NoGroups
    ensures FormatEvents(rows).Ok? ==>
      var groups := FormatEvents(rows).value;
      Ascending(groups) && Occupied(groups) && Total(groups) == |rows|
  {
    GroupedShape(rows);
  }

  /** When `format_events` returns, the events under each date are the dicts
      of that date's rows, in row order; it raises on a frame without rows. */
  lemma FormatEventsMatching(rows: seq<Occurrence>, key: string)
    ensures FormatEvents(rows).Err? <==> |rows| == 0
    ensures FormatEvents(rows).Ok? ==> Matching(FormatEvents(rows).value, key) == EventsOf(rows, key)
  {
    GroupedMatching(rows, key);
  }

  /** When `format_events` returns, its dates are exactly the dates of the
      rows; it raises on a frame without rows. */
  lemma FormatEventsDates(rows: seq<Occurrence>, key: string)
    ensures FormatEvents(rows).Err? <==> |rows| == 0
    ensures FormatEvents(rows).Ok? ==>
      var groups := FormatEvents(rows).value;
      (exists i :: 0 <= i < |groups| && groups[i].date == key) <==> (exists j :: 0 <= j < |rows| && rows[j].date == key)
  {
    GroupedDates(rows, key);
  }

  /** A schedule can be empty: a one-day rule on its own weekday whose one
      date is also its exception expands to no rows, and `format_events`
      then raises. */
  lemma EmptyScheduleRaises(rule: Rule)
    requires rule == Rule("2025-04-16", "2025-04-16", "wed", "09:00", Some("10:00"), "meeting", Some("2025-04-16"))
    ensures Schedule([rule]) == Ok([]) && FormatEvents([]) == Err(NoGroups)
  {
    SampleRule(rule);
    ScheduleOne(rule);
  }

  /** The schedule of a single rule is that rule's outcome. */
  lemma ScheduleOne(rule: Rule)
    ensures Schedule([rule]) == ExpandRule(rule)
  {
    var outcome := ExpandRule(rule);
    assert [rule][..1] == [rule] && [rule][..0] == [];
    OutcomesSnoc([rule], 0);
    assert Outcomes([rule]) == [outcome];
    GatherSnoc([], outcome);
    assert [] + [outcome] == [outcome];
    if outcome.Ok? {
      assert [] + outcome.value == outcome.value;
    }
  }

  /** The sample rule expands to its one date and drops it again. */
  lemma SampleRule(rule: Rule)
    requires rule == Rule("2025-04-16", "2025-04-16", "wed", "09:00", Some("10:00"), "meeting", Some("2025-04-16"))
    ensures ExpandRule(rule) == Ok([])
  {
    var row := Occurrence("2025-04-16", "wed", "09:00", Some("10:00"), "meeting");
    SampleExpands();
    SampleExceptions();
    assert ExcludeDates([row], ["2025-04-16"]) == [];
  }

  /** 2025-04-16, a Wednesday, written and read back. */
  lemma SampleDay()
    ensures FormatDate(Date(2025, 4, 16)) == "2025-04-16"
    ensures ParseDate("2025-04-16") == Some(Date(2025, 4, 16))
    ensures Valid(Date(2025, 4, 16)) && Weekday(Date(2025, 4, 16)) == 2
    ensures Ordinal(Date(2025, 4, 16)) == 739357
  {
    SampleDayText();
    ParseFormat(Date(2025, 4, 16));
    SampleWeekday();
  }

  lemma SampleDayText()
    ensures FormatDate(Date(2025, 4, 16)) == "2025-04-16"
  {
    DigitsFour(2025);
    DigitsTwo(4);
    DigitsTwo(16);
  }

  lemma SampleWeekday()
    ensures Valid(Date(2025, 4, 16)) && Weekday(Date(2025, 4, 16)) == 2
    ensures Ordinal(Date(2025, 4, 16)) == 739357
  {
    assert Ordinal(Date(2025, 4, 16)) == 739357;
  }

  /** The one-day period 2025-04-16 on Wednesdays holds that day alone. */
  lemma SampleExpands()
    ensures Expand("2025-04-16", "2025-04-16", "wed", "09:00", Some("10:00"), "meeting")
      == Ok([Occurrence("2025-04-16", "wed", "09:00", Some("10:00"), "meeting")])
  {
    var day := Date(2025, 4, 16);
    var f := Fields("wed", "09:00", Some("10:00"), "meeting");
    SampleDay();
    WeekdayAnyCase("wed");
    ExpandNoOverflow(day, day, 2, f);
    ExpandSingleDay(day, 2, f);
    assert Expand("2025-04-16", "2025-04-16", "wed", "09:00", Some("10:00"), "meeting") == ExpandDates(day, day, 2, f);
  }

  /** The exception cell "2025-04-16" names that one date. */
  lemma SampleExceptions()
    ensures Exceptions(Some("2025-04-16")) == Ok(["2025-04-16"])
  {
    SampleDay();
    SplitWithout("2025-04-16", EXCEPT_SEPARATOR);
    assert NormaliseDates(["2025-04-16"][1..]) == Ok([]);
  }
}
