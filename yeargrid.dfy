/** The year frame of the vertical weekly calendar: every date of a calendar
    or fiscal year, the lane (column 0..3) of each date on its page, the page
    numbers and the flags saying where the year-month label is printed. */
module YearGrid {
  import opened Dates

  /** One row of the frame `generate_dates(year)` builds. */
  datatype Day = Day(year: int, month: int, day: int, weekday: string)

  function DateOf(r: Day): Date
  {
    Date(r.year, r.month, r.day)
  }

  /** The row of one date, with its weekday abbreviation from `calendar.weekday`. */
  function DayRow(y: int, m: int, d: int): Day
    requires WellFormed(Date(y, m, d))
  {
    Day(y, m, d, DAY_ABBR[CalendarWeekday(y, m, d)])
  }

  /** A row carries its date and the abbreviation of that date's weekday. */
  lemma DayRowNamed(y: int, m: int, d: int)
    requires WellFormed(Date(y, m, d))
    ensures DateOf(DayRow(y, m, d)) == Date(y, m, d)
    ensures DayRow(y, m, d).weekday == DAY_ABBR[Weekday(Date(y, m, d))]
  {
    CalendarWeekdayIs(y, m, d);
  }

  /** The first `n` days of month `m`, as the inner loop appends them. */
  function MonthPrefix(y: int, m: int, n: int): (r: seq<Day>)
    requires 1 <= m <= 12 && 0 <= n <= DaysInMonth(y, m)
    ensures |r| == n
  {
    seq(n, i requires 0 <= i < n => DayRow(y, m, i + 1))
  }

  /** Appending day `n` to the first `n - 1` days gives the first `n`. */
  lemma PrefixStep(y: int, m: int, n: int)
    requires 1 <= m <= 12 && 1 <= n <= DaysInMonth(y, m)
    ensures MonthPrefix(y, m, n) == MonthPrefix(y, m, n - 1) + [DayRow(y, m, n)]
  {
    var longer, shorter := MonthPrefix(y, m, n), MonthPrefix(y, m, n - 1);
    forall k | 0 <= k < n - 1
      ensures longer[k] == shorter[k]
    {
      assert longer[k] == DayRow(y, m, k + 1);
    }
    assert longer == shorter + [longer[n - 1]];
  }

  /** The days of months `lo` up to `hi - 1`, month by month. */
  function MonthsDays(y: int, lo: int, hi: int): seq<Day>
    requires 1 <= lo <= hi <= 13
    decreases hi - lo
  {
    if lo == hi then [] else MonthsDays(y, lo, hi - 1) + MonthPrefix(y, hi - 1, DaysInMonth(y, hi - 1))
  }

  /** What `generate_dates(year)` returns. */
  function YearDays(y: int): seq<Day>
  {
    MonthsDays(y, 1, 13)
  }

  /** `generate_dates(year)`: for each month, for each of its days, append
      the date and its weekday abbreviation. */
  method GenerateDates(year: int) returns (data: seq<Day>)
    ensures data == YearDays(year)
  {
    data := [];
    for month := 1 to 13
      invariant data == MonthsDays(year, 1, month)
    {
      ghost var before := data;
      var last := DaysInMonth(year, month);
      for day := 1 to last + 1
        invariant data == before + MonthPrefix(year, month, day - 1)
      {
        var weekdayNum := CalendarWeekday(year, month, day);
        data := data + [Day(year, month, day, DAY_ABBR[weekdayNum])];
        PrefixSnoc(before, year, month, day);
      }
      MonthsSnoc(year, month);
    }
  }

  lemma PrefixSnoc(before: seq<Day>, y: int, m: int, n: int)
    requires 1 <= m <= 12 && 1 <= n <= DaysInMonth(y, m)
    ensures before + MonthPrefix(y, m, n - 1) + [Day(y, m, n, DAY_ABBR[CalendarWeekday(y, m, n)])]
         == before + MonthPrefix(y, m, n)
  {
    var init := MonthPrefix(y, m, n - 1);
    var row := Day(y, m, n, DAY_ABBR[CalendarWeekday(y, m, n)]);
    PrefixStep(y, m, n);
    assert DayRow(y, m, n) == row;
    Regroup(before, init, [row]);
  }

  lemma MonthsSnoc(y: int, m: int)
    requires 1 <= m <= 12
    ensures MonthsDays(y, 1, m) + MonthPrefix(y, m, DaysInMonth(y, m)) == MonthsDays(y, 1, m + 1)
  {
  }

  // ---- the rows are the dates of the year, one after the other ----

  /** Days before month `m` of year `y`, where month 13 stands for the end of the year. */
  function Before(y: int, m: int): int
    requires 1 <= m <= 13
  {
    if m == 13 then YearLength(y) else DaysBeforeMonth(y, m)
  }

  lemma BeforeStep(y: int, m: int)
    requires 1 <= m <= 12
    ensures Before(y, m + 1) == Before(y, m) + DaysInMonth(y, m)
  {
    if m < 12 {
      DaysBeforeMonthStep(y, m);
    }
  }

  /** Each row holds a date and every row after the first holds the day
    after the date of the row before it. */
  predicate Chain(rows: seq<Day>)
  {
    |rows| == 0 ||
      (&& WellFormed(DateOf(rows[0]))
       && (|rows| == 1 || (NextDay(DateOf(rows[0])) == DateOf(rows[1]) && Chain(rows[1..]))))
  }

  /** The weekday column of a row names the weekday of its date. */
  predicate NamedRow(r: Day)
  {
    WellFormed(DateOf(r)) && r.weekday == DAY_ABBR[Weekday(DateOf(r))]
  }

  /** The weekday column of every row names the weekday of its date. */
  predicate Named(rows: seq<Day>)
  {
    |rows| == 0 || (NamedRow(rows[0]) && Named(rows[1..]))
  }

  lemma {:induction false} NamedOfRows(rows: seq<Day>)
    requires forall k :: 0 <= k < |rows| ==> NamedRow(rows[k])
    ensures Named(rows)
  {
    if |rows| > 0 {
      assert forall k :: 0 <= k < |rows| - 1 ==> rows[1..][k] == rows[k + 1];
      NamedOfRows(rows[1..]);
    }
  }

  lemma NamedRowsJoin(a: seq<Day>, b: seq<Day>)
    requires forall k :: 0 <= k < |a| ==> NamedRow(a[k])
    requires forall k :: 0 <= k < |b| ==> NamedRow(b[k])
    ensures forall k :: 0 <= k < |a + b| ==> NamedRow((a + b)[k])
  {
    assert forall k :: |a| <= k < |a + b| ==> (a + b)[k] == b[k - |a|];
  }

  /** Row `k` of a chain holds the date `k` days after the first row's. */
  lemma {:induction false} ChainAt(rows: seq<Day>, k: int)
    requires Chain(rows) && 0 <= k < |rows|
    ensures WellFormed(DateOf(rows[0])) && WellFormed(DateOf(rows[k]))
    ensures Ordinal(DateOf(rows[k])) == Ordinal(DateOf(rows[0])) + k
  {
    if k > 0 {
      ChainAt(rows[1..], k - 1);
      NextDayOrdinal(DateOf(rows[0]));
    }
  }

  /** Each row of a chain after the first holds the day after the row before. */
  lemma {:induction false} ChainNext(rows: seq<Day>, k: int)
    requires Chain(rows) && 0 < k < |rows|
    ensures WellFormed(DateOf(rows[k - 1])) && DateOf(rows[k]) == NextDay(DateOf(rows[k - 1]))
  {
    if k > 1 {
      ChainNext(rows[1..], k - 1);
    }
  }

  /** Consecutive rows of a chain hold consecutive dates, so weekdays step by one. */
  lemma ChainStep(rows: seq<Day>, k: int)
    requires Chain(rows) && 0 < k < |rows|
    ensures WellFormed(DateOf(rows[k - 1])) && WellFormed(DateOf(rows[k]))
    ensures Weekday(DateOf(rows[k])) == (Weekday(DateOf(rows[k - 1])) + 1) % 7
  {
    ChainNext(rows, k);
    var d := DateOf(rows[k - 1]);
    AddDaysWeekday(d, 1);
    assert AddDays(d, 1) == NextDay(d);
  }

  lemma {:induction false} NamedAt(rows: seq<Day>, k: int)
    requires Named(rows) && 0 <= k < |rows|
    ensures WellFormed(DateOf(rows[k])) && rows[k].weekday == DAY_ABBR[Weekday(DateOf(rows[k]))]
  {
    if k > 0 {
      NamedAt(rows[1..], k - 1);
    }
  }

  /** The chain property stated row by row: every row holds a date and each
      row after the first holds the day after the row before it. */
  predicate Linked(rows: seq<Day>)
  {
    && (forall k :: 0 <= k < |rows| ==> WellFormed(DateOf(rows[k])))
    && (forall k :: 0 < k < |rows| ==> Follows(rows[k - 1], rows[k]))
  }

  /** Row `r` holds the day after the date of row `p`. */
  predicate Follows(p: Day, r: Day)
  {
    WellFormed(DateOf(p)) && NextDay(DateOf(p)) == DateOf(r)
  }

  lemma {:induction false} ChainOfLinked(rows: seq<Day>)
    requires Linked(rows)
    ensures Chain(rows)
  {
    if |rows| > 1 {
      var tail := rows[1..];
      assert forall k :: 0 <= k < |tail| ==> tail[k] == rows[k + 1];
      assert Follows(rows[0], rows[1]);
      ChainOfLinked(tail);
    }
  }

  lemma LinkedJoin(a: seq<Day>, b: seq<Day>)
    requires Linked(a) && Linked(b) && |a| > 0 && |b| > 0
    requires Follows(a[|a| - 1], b[0])
    ensures Linked(a + b)
  {
    var s := a + b;
    assert forall k :: 0 <= k < |a| ==> s[k] == a[k];
    assert forall k :: |a| <= k < |s| ==> s[k] == b[k - |a|];
    forall k | 0 < k < |s|
      ensures Follows(s[k - 1], s[k])
    {
      if k > |a| {
        assert Follows(b[k - 1 - |a|], b[k - |a|]);
      }
    }
  }


  /** The first `n` days of a month are the 1st to the `n`-th, in order. */
  lemma MonthPrefixLinked(y: int, m: int, n: int)
    requires 1 <= m <= 12 && 0 <= n <= DaysInMonth(y, m)
    ensures Linked(MonthPrefix(y, m, n))
  {
    var rows := MonthPrefix(y, m, n);
    forall k | 0 <= k < n
      ensures WellFormed(DateOf(rows[k]))
    {
      DayRowNamed(y, m, k + 1);
    }
    forall k | 0 < k < n
      ensures Follows(rows[k - 1], rows[k])
    {
      DayRowNamed(y, m, k);
      DayRowNamed(y, m, k + 1);
      assert rows[k - 1] == DayRow(y, m, k) && rows[k] == DayRow(y, m, k + 1);
    }
  }

  /** Each of those days carries its own weekday's name. */
  lemma MonthPrefixNamed(y: int, m: int, n: int)
    requires 1 <= m <= 12 && 0 <= n <= DaysInMonth(y, m)
    ensures forall k :: 0 <= k < n ==> NamedRow(MonthPrefix(y, m, n)[k])
  {
    forall k | 0 <= k < n
      ensures NamedRow(MonthPrefix(y, m, n)[k])
    {
      DayRowNamed(y, m, k + 1);
      assert MonthPrefix(y, m, n)[k] == DayRow(y, m, k + 1);
    }
  }

  lemma MonthPrefixMonths(y: int, m: int, n: int)
    requires 1 <= m <= 12 && 0 <= n <= DaysInMonth(y, m)
    ensures forall k :: 0 <= k < n ==> MonthPrefix(y, m, n)[k].month == m
  {
    forall k | 0 <= k < n
      ensures MonthPrefix(y, m, n)[k].month == m
    {
      assert MonthPrefix(y, m, n)[k] == DayRow(y, m, k + 1);
    }
  }

  lemma {:induction false} MonthsLength(y: int, lo: int, hi: int)
    requires 1 <= lo <= hi <= 13
    ensures |MonthsDays(y, lo, hi)| == Before(y, hi) - Before(y, lo)
    decreases hi - lo
  {
    if lo < hi {
      var init, last := MonthsDays(y, lo, hi - 1), MonthPrefix(y, hi - 1, DaysInMonth(y, hi - 1));
      MonthsLength(y, lo, hi - 1);
      BeforeStep(y, hi - 1);
      assert |MonthsDays(y, lo, hi)| == |init| + |last|;
    }
  }

  /** Every row of months `lo..hi-1` has a month in that range. */
  lemma {:induction false} MonthsRange(y: int, lo: int, hi: int)
    requires 1 <= lo <= hi <= 13
    ensures forall k :: 0 <= k < |MonthsDays(y, lo, hi)| ==> lo <= MonthsDays(y, lo, hi)[k].month < hi
    decreases hi - lo
  {
    if lo < hi {
      var init := MonthsDays(y, lo, hi - 1);
      var last := MonthPrefix(y, hi - 1, DaysInMonth(y, hi - 1));
      MonthsRange(y, lo, hi - 1);
      MonthPrefixMonths(y, hi - 1, DaysInMonth(y, hi - 1));
      MonthsWithin(init, last, lo, hi);
      assert MonthsDays(y, lo, hi) == init + last;
    }
  }

  /** Two runs of rows whose months lie in `lo..hi-1` concatenate into one. */
  lemma MonthsWithin(a: seq<Day>, b: seq<Day>, lo: int, hi: int)
    requires forall k :: 0 <= k < |a| ==> lo <= a[k].month < hi
    requires forall k :: 0 <= k < |b| ==> lo <= b[k].month < hi
    ensures forall k :: 0 <= k < |a + b| ==> lo <= (a + b)[k].month < hi
  {
    assert forall k :: |a| <= k < |a + b| ==> (a + b)[k] == b[k - |a|];
  }

  /** Months `lo` to `hi - 1` hold every date from the first of month `lo`
      to the last of month `hi - 1`, one per row, in order. */
  lemma MonthsRun(y: int, lo: int, hi: int)
    requires 1 <= lo < hi <= 13
    ensures |MonthsDays(y, lo, hi)| > 0
    ensures Chain(MonthsDays(y, lo, hi)) && Named(MonthsDays(y, lo, hi))
    ensures DateOf(MonthsDays(y, lo, hi)[0]) == Date(y, lo, 1)
    ensures DateOf(MonthsDays(y, lo, hi)[|MonthsDays(y, lo, hi)| - 1]) == Date(y, hi - 1, DaysInMonth(y, hi - 1))
  {
    MonthsEnds(y, lo, hi);
    MonthsChain(y, lo, hi);
    MonthsNamed(y, lo, hi);
    NamedOfRows(MonthsDays(y, lo, hi));
  }

  lemma {:induction false} MonthsEnds(y: int, lo: int, hi: int)
    requires 1 <= lo < hi <= 13
    ensures |MonthsDays(y, lo, hi)| > 0
    ensures DateOf(MonthsDays(y, lo, hi)[0]) == Date(y, lo, 1)
    ensures DateOf(MonthsDays(y, lo, hi)[|MonthsDays(y, lo, hi)| - 1]) == Date(y, hi - 1, DaysInMonth(y, hi - 1))
    decreases hi - lo
  {
    var n := DaysInMonth(y, hi - 1);
    var last := MonthPrefix(y, hi - 1, n);
    DayRowNamed(y, hi - 1, n);
    assert last[n - 1] == DayRow(y, hi - 1, n);
    if lo == hi - 1 {
      DayRowNamed(y, lo, 1);
      assert last[0] == DayRow(y, lo, 1);
      assert MonthsDays(y, lo, hi) == last;
    } else {
      var init := MonthsDays(y, lo, hi - 1);
      MonthsEnds(y, lo, hi - 1);
      assert MonthsDays(y, lo, hi) == init + last;
      assert (init + last)[0] == init[0];
    }
  }

  lemma MonthsChain(y: int, lo: int, hi: int)
    requires 1 <= lo < hi <= 13
    ensures Chain(MonthsDays(y, lo, hi))
  {
    MonthsLinked(y, lo, hi);
    ChainOfLinked(MonthsDays(y, lo, hi));
  }

  lemma {:induction false} MonthsLinked(y: int, lo: int, hi: int)
    requires 1 <= lo < hi <= 13
    ensures Linked(MonthsDays(y, lo, hi))
    decreases hi - lo
  {
    var last := MonthPrefix(y, hi - 1, DaysInMonth(y, hi - 1));
    MonthPrefixLinked(y, hi - 1, DaysInMonth(y, hi - 1));
    if lo == hi - 1 {
      assert MonthsDays(y, lo, hi) == last;
    } else {
      var init := MonthsDays(y, lo, hi - 1);
      MonthsLinked(y, lo, hi - 1);
      MonthsBoundary(y, lo, hi);
      LinkedJoin(init, last);
      assert MonthsDays(y, lo, hi) == init + last;
    }
  }

  /** The last day of month `hi - 2` is followed by the first of month `hi - 1`. */
  lemma MonthsBoundary(y: int, lo: int, hi: int)
    requires 1 <= lo < hi - 1 && hi <= 13
    ensures |MonthsDays(y, lo, hi - 1)| > 0
    ensures Follows(MonthsDays(y, lo, hi - 1)[|MonthsDays(y, lo, hi - 1)| - 1],
                    MonthPrefix(y, hi - 1, DaysInMonth(y, hi - 1))[0])
  {
    MonthsEnds(y, lo, hi - 1);
    MonthsEnds(y, hi - 1, hi);
    assert MonthsDays(y, hi - 1, hi) == MonthPrefix(y, hi - 1, DaysInMonth(y, hi - 1));
    MonthEndNext(y, hi - 2);
  }

  lemma MonthEndNext(y: int, m: int)
    requires 1 <= m < 12
    ensures NextDay(Date(y, m, DaysInMonth(y, m))) == Date(y, m + 1, 1)
  {
  }

  lemma {:induction false} MonthsNamed(y: int, lo: int, hi: int)
    requires 1 <= lo <= hi <= 13
    ensures forall k :: 0 <= k < |MonthsDays(y, lo, hi)| ==> NamedRow(MonthsDays(y, lo, hi)[k])
    decreases hi - lo
  {
    if lo < hi {
      var init := MonthsDays(y, lo, hi - 1);
      var last := MonthPrefix(y, hi - 1, DaysInMonth(y, hi - 1));
      MonthsNamed(y, lo, hi - 1);
      MonthPrefixNamed(y, hi - 1, DaysInMonth(y, hi - 1));
      NamedRowsJoin(init, last);
      assert MonthsDays(y, lo, hi) == init + last;
    }
  }

  /** Months `lo..mid-1` followed by months `mid..hi-1` are months `lo..hi-1`. */
  lemma {:induction false} MonthsSplit(y: int, lo: int, mid: int, hi: int)
    requires 1 <= lo <= mid <= hi <= 13
    ensures MonthsDays(y, lo, hi) == MonthsDays(y, lo, mid) + MonthsDays(y, mid, hi)
    decreases hi - mid
  {
    if mid < hi {
      var a, b, c := MonthsDays(y, lo, mid), MonthsDays(y, mid, hi - 1), MonthPrefix(y, hi - 1, DaysInMonth(y, hi - 1));
      MonthsSplit(y, lo, mid, hi - 1);
      assert MonthsDays(y, lo, hi) == (a + b) + c;
      assert MonthsDays(y, mid, hi) == b + c;
      Regroup(a, b, c);
    } else {
      assert MonthsDays(y, mid, hi) == [];
      assert MonthsDays(y, lo, mid) + [] == MonthsDays(y, lo, mid);
    }
  }

  lemma Regroup(a: seq<Day>, b: seq<Day>, c: seq<Day>)
    ensures (a + b) + c == a + (b + c)
  {
  }

  /** `generate_dates(year)` has one row per day of the year, Jan 1 first
      and Dec 31 last, each date the day after the one before. */
  lemma YearDaysRun(y: int)
    ensures |YearDays(y)| == YearLength(y)
    ensures Chain(YearDays(y)) && Named(YearDays(y))
    ensures DateOf(YearDays(y)[0]) == Date(y, 1, 1)
    ensures DateOf(YearDays(y)[|YearDays(y)| - 1]) == Date(y, 12, 31)
  {
    MonthsRun(y, 1, 13);
    MonthsLength(y, 1, 13);
  }

  /** A chain from `first` to `last` holds every date between them. */
  lemma ChainComplete(rows: seq<Day>, first: Date, last: Date, d: Date)
    requires Chain(rows) && |rows| > 0 && DateOf(rows[0]) == first && DateOf(rows[|rows| - 1]) == last
    requires WellFormed(d) && LessEq(first, d) && LessEq(d, last)
    ensures exists k :: 0 <= k < |rows| && DateOf(rows[k]) == d
  {
    ChainAt(rows, |rows| - 1);
    OrdinalOrder(first, d);
    OrdinalOrder(d, last);
    var k := Ordinal(d) - Ordinal(first);
    ChainAt(rows, k);
    OrdinalInjective(DateOf(rows[k]), d);
  }

  /** Every date of the year is in `generate_dates(year)`. */
  lemma YearDaysComplete(y: int, d: Date)
    requires WellFormed(d) && d.year == y
    ensures exists k :: 0 <= k < |YearDays(y)| && DateOf(YearDays(y)[k]) == d
  {
    YearDaysRun(y);
    ChainComplete(YearDays(y), Date(y, 1, 1), Date(y, 12, 31), d);
  }

  /** In a chain an earlier row holds an earlier date, so no date is repeated. */
  lemma ChainOrdered(rows: seq<Day>, i: int, j: int)
    requires Chain(rows) && 0 <= i < j < |rows|
    ensures LessEq(DateOf(rows[i]), DateOf(rows[j])) && DateOf(rows[i]) != DateOf(rows[j])
  {
    ChainAt(rows, i);
    ChainAt(rows, j);
    OrdinalOrder(DateOf(rows[i]), DateOf(rows[j]));
  }

  // ---- create_year ----

  /** `df.query('month > m')`. */
  function MonthsAfter(rows: seq<Day>, m: int): (r: seq<Day>)
    ensures forall k :: 0 <= k < |r| ==> r[k].month > m
  {
    if |rows| == 0 then []
    else (if rows[0].month > m then [rows[0]] else []) + MonthsAfter(rows[1..], m)
  }

  /** `df.query('month < m')`. */
  function MonthsUntil(rows: seq<Day>, m: int): (r: seq<Day>)
    ensures forall k :: 0 <= k < |r| ==> r[k].month < m
  {
    if |rows| == 0 then []
    else (if rows[0].month < m then [rows[0]] else []) + MonthsUntil(rows[1..], m)
  }

  /** Filtering a run whose months all pass keeps it whole. */
  lemma {:induction false} AfterKeeps(rows: seq<Day>, m: int)
    requires forall k :: 0 <= k < |rows| ==> rows[k].month > m
    ensures MonthsAfter(rows, m) == rows
  {
    if |rows| > 0 {
      AfterKeeps(rows[1..], m);
      assert rows == [rows[0]] + rows[1..];
    }
  }

  /** Filtering a run whose months all fail drops it. */
  lemma {:induction false} AfterDrops(rows: seq<Day>, m: int)
    requires forall k :: 0 <= k < |rows| ==> rows[k].month <= m
    ensures MonthsAfter(rows, m) == []
  {
    if |rows| > 0 {
      AfterDrops(rows[1..], m);
    }
  }

  lemma {:induction false} UntilKeeps(rows: seq<Day>, m: int)
    requires forall k :: 0 <= k < |rows| ==> rows[k].month < m
    ensures MonthsUntil(rows, m) == rows
  {
    if |rows| > 0 {
      UntilKeeps(rows[1..], m);
      assert rows == [rows[0]] + rows[1..];
    }
  }

  lemma {:induction false} UntilDrops(rows: seq<Day>, m: int)
    requires forall k :: 0 <= k < |rows| ==> rows[k].month >= m
    ensures MonthsUntil(rows, m) == []
  {
    if |rows| > 0 {
      UntilDrops(rows[1..], m);
    }
  }

  lemma {:induction false} MonthsAfterAppend(a: seq<Day>, b: seq<Day>, m: int)
    ensures MonthsAfter(a + b, m) == MonthsAfter(a, m) + MonthsAfter(b, m)
  {
    if |a| > 0 {
      assert (a + b)[1..] == a[1..] + b;
      MonthsAfterAppend(a[1..], b, m);
    } else {
      assert a + b == b;
    }
  }

  lemma {:induction false} MonthsUntilAppend(a: seq<Day>, b: seq<Day>, m: int)
    ensures MonthsUntil(a + b, m) == MonthsUntil(a, m) + MonthsUntil(b, m)
  {
    if |a| > 0 {
      assert (a + b)[1..] == a[1..] + b;
      MonthsUntilAppend(a[1..], b, m);
    } else {
      assert a + b == b;
    }
  }

  /** The concatenation `create_year` returns when the year starts in April:
      the rows of `thisYear` after March, then the rows of `nextYear` before April. */
  function FiscalRows(thisYear: seq<Day>, nextYear: seq<Day>): seq<Day>
  {
    MonthsAfter(thisYear, 3) + MonthsUntil(nextYear, 4)
  }

  /** What `create_year` returns: the calendar year, or April to December of
      `year` followed by January to March of `year + 1`. */
  function YearSpan(year: int, startApril: bool): seq<Day>
  {
    if !startApril then YearDays(year) else FiscalRows(YearDays(year), YearDays(year + 1))
  }

  /** `create_year`. */
  method CreateYear(year: int, startApril: bool) returns (days: seq<Day>)
    ensures days == YearSpan(year, startApril)
  {
    if !startApril {
      days := GenerateDates(year);
      return;
    }
    var thisYear := GenerateDates(year);
    var nextYear := GenerateDates(year + 1);
    days := FiscalRows(thisYear, nextYear);
  }

  /** The fiscal year is April to December of `year` then January to March
      of `year + 1`. */
  lemma FiscalMonths(year: int)
    ensures YearSpan(year, true) == MonthsDays(year, 4, 13) + MonthsDays(year + 1, 1, 4)
  {
    FiscalThisYear(year);
    FiscalNextYear(year + 1);
  }

  lemma FiscalThisYear(y: int)
    ensures MonthsAfter(YearDays(y), 3) == MonthsDays(y, 4, 13)
  {
    var a, b := MonthsDays(y, 1, 4), MonthsDays(y, 4, 13);
    MonthsSplit(y, 1, 4, 13);
    assert YearDays(y) == a + b;
    MonthsAfterAppend(a, b, 3);
    assert MonthsAfter(a, 3) == [] by {
      MonthsRange(y, 1, 4);
      AfterDrops(a, 3);
    }
    assert MonthsAfter(b, 3) == b by {
      MonthsRange(y, 4, 13);
      AfterKeeps(b, 3);
    }
  }

  lemma FiscalNextYear(y: int)
    ensures MonthsUntil(YearDays(y), 4) == MonthsDays(y, 1, 4)
  {
    var a, b := MonthsDays(y, 1, 4), MonthsDays(y, 4, 13);
    MonthsSplit(y, 1, 4, 13);
    assert YearDays(y) == a + b;
    MonthsUntilAppend(a, b, 4);
    assert MonthsUntil(a, 4) == a by {
      MonthsRange(y, 1, 4);
      UntilKeeps(a, 4);
    }
    assert MonthsUntil(b, 4) == [] by {
      MonthsRange(y, 4, 13);
      UntilDrops(b, 4);
    }
  }

  /** The fiscal year runs without a gap from April 1 of `year` to March 31
      of `year + 1`: 366 days when February of `year + 1` has 29, else 365. */
  lemma FiscalYearRun(year: int)
    ensures |YearSpan(year, true)| == YearLength(year + 1)
    ensures Chain(YearSpan(year, true)) && Named(YearSpan(year, true))
    ensures DateOf(YearSpan(year, true)[0]) == Date(year, 4, 1)
    ensures DateOf(YearSpan(year, true)[|YearSpan(year, true)| - 1]) == Date(year + 1, 3, 31)
  {
    FiscalMonths(year);
    FiscalJoin(year);
  }

  /** April to December followed by January to March of the next year. */
  lemma FiscalJoin(year: int)
    ensures var s := MonthsDays(year, 4, 13) + MonthsDays(year + 1, 1, 4);
      && |s| == YearLength(year + 1) && Chain(s) && Named(s)
      && DateOf(s[0]) == Date(year, 4, 1) && DateOf(s[|s| - 1]) == Date(year + 1, 3, 31)
  {
    var a, b := MonthsDays(year, 4, 13), MonthsDays(year + 1, 1, 4);
    FiscalChain(year);
    MonthsLength(year, 4, 13);
    MonthsLength(year + 1, 1, 4);
    MonthsNamed(year, 4, 13);
    MonthsNamed(year + 1, 1, 4);
    NamedRowsJoin(a, b);
    NamedOfRows(a + b);
  }

  lemma FiscalChain(year: int)
    ensures var s := MonthsDays(year, 4, 13) + MonthsDays(year + 1, 1, 4);
      && Chain(s) && DateOf(s[0]) == Date(year, 4, 1) && DateOf(s[|s| - 1]) == Date(year + 1, 3, 31)
  {
    YearsJoin(year, 4, 4);
    MonthsEnds(year, 4, 13);
    MonthsEnds(year + 1, 1, 4);
  }

  /** Months `lo..12` of `y` followed by months `1..hi-1` of `y + 1` run
      without a gap across December 31. */
  lemma YearsJoin(y: int, lo: int, hi: int)
    requires 1 <= lo <= 12 && 2 <= hi <= 13
    ensures var a, b := MonthsDays(y, lo, 13), MonthsDays(y + 1, 1, hi);
      && |a| > 0 && |b| > 0 && Chain(a + b) && (a + b)[0] == a[0] && (a + b)[|a + b| - 1] == b[|b| - 1]
  {
    YearEndFollows(y, lo, hi);
    MonthsLinked(y, lo, 13);
    MonthsLinked(y + 1, 1, hi);
    JoinRun(MonthsDays(y, lo, 13), MonthsDays(y + 1, 1, hi));
  }

  /** The last row of December is followed by the first row of the next January. */
  lemma YearEndFollows(y: int, lo: int, hi: int)
    requires 1 <= lo <= 12 && 2 <= hi <= 13
    ensures var a, b := MonthsDays(y, lo, 13), MonthsDays(y + 1, 1, hi);
      && |a| > 0 && |b| > 0 && Follows(a[|a| - 1], b[0])
  {
    MonthsEnds(y, lo, 13);
    MonthsEnds(y + 1, 1, hi);
    assert NextDay(Date(y, 12, 31)) == Date(y + 1, 1, 1);
  }

  /** Two linked runs, the second starting the day after the first ends,
      make one chain from the first's start to the second's end. */
  lemma JoinRun(a: seq<Day>, b: seq<Day>)
    requires Linked(a) && Linked(b) && |a| > 0 && |b| > 0
    requires Follows(a[|a| - 1], b[0])
    ensures Chain(a + b) && (a + b)[0] == a[0] && (a + b)[|a + b| - 1] == b[|b| - 1]
  {
    LinkedJoin(a, b);
    ChainOfLinked(a + b);
  }

  /** Every date from April 1 of `year` to March 31 of `year + 1` is in the fiscal year. */
  lemma FiscalYearComplete(year: int, d: Date)
    requires WellFormed(d)
    requires (d.year == year && d.month >= 4) || (d.year == year + 1 && d.month <= 3)
    ensures exists k :: 0 <= k < |YearSpan(year, true)| && DateOf(YearSpan(year, true)[k]) == d
  {
    FiscalYearRun(year);
    ChainComplete(YearSpan(year, true), Date(year, 4, 1), Date(year + 1, 3, 31), d);
  }

  // ---- add_position ----

  /** The weekday column of the lane table, Monday or Sunday first. */
  function WeekdayOrder(startsWithMon: bool): seq<string>
  {
    if startsWithMon then ["mon", "tue", "wed", "thu", "fri", "sat", "sun"]
    else ["sun", "mon", "tue", "wed", "thu", "fri", "sat"]
  }

  /** The position column of the lane table. */
  function LaneMap(adjustLeft: bool): seq<int>
  {
    if adjustLeft then [0, 1, 2, 3, 0, 1, 2] else [1, 2, 3, 0, 1, 2, 3]
  }

  /** The index of `w` in `order`, None if it is absent. */
  function IndexOf(order: seq<string>, w: string): (r: Option<nat>)
    ensures r.Some? ==> r.value < |order| && order[r.value] == w
    ensures r.None? <==> w !in order
  {
    if |order| == 0 then None
    else if order[0] == w then Some(0)
    else
      match IndexOf(order[1..], w)
      case None => None
      case Some(i) => Some(i + 1)
  }

  /** The position the left merge gives a row: None (NaN) for a weekday
      the table does not list. */
  function Lane(weekday: string, startsWithMon: bool, adjustLeft: bool): Option<int>
  {
    match IndexOf(WeekdayOrder(startsWithMon), weekday)
    case None => None
    case Some(i) => Some(LaneMap(adjustLeft)[i])
  }

  /** The lane of weekday `w` (0 is Monday) as arithmetic: its place in the
      week, shifted by one when Sunday comes first or when the week starts
      one lane to the right, taken modulo the four lanes. */
  function LaneOf(w: int, startsWithMon: bool, adjustLeft: bool): int
  {
    ((if startsWithMon then w else (w + 1) % 7) + (if adjustLeft then 0 else 1)) % 4
  }

  /** Weekday `w` stands at index `w` of the Monday-first table and at
      index `w + 1` (mod 7) of the Sunday-first one. */
  lemma WeekdayOrderAt(startsWithMon: bool, w: int)
    requires 0 <= w < 7
    ensures WeekdayOrder(startsWithMon)[if startsWithMon then w else (w + 1) % 7] == DAY_ABBR[w]
  {
  }

  lemma WeekdayOrderDistinct(startsWithMon: bool)
    ensures forall a, b :: 0 <= a < b < |WeekdayOrder(startsWithMon)| ==>
      WeekdayOrder(startsWithMon)[a] != WeekdayOrder(startsWithMon)[b]
  {
  }

  /** Both tables list the same seven abbreviations. */
  lemma WeekdayOrderSame(startsWithMon: bool, weekday: string)
    ensures weekday in WeekdayOrder(startsWithMon) <==> weekday in DAY_ABBR
  {
    if weekday in WeekdayOrder(startsWithMon) {
      var i :| 0 <= i < 7 && WeekdayOrder(startsWithMon)[i] == weekday;
      var w := if startsWithMon then i else (i + 6) % 7;
      WeekdayOrderAt(startsWithMon, w);
    }
    if weekday in DAY_ABBR {
      var w :| 0 <= w < 7 && DAY_ABBR[w] == weekday;
      WeekdayOrderAt(startsWithMon, w);
    }
  }

  /** The table lookup agrees with the arithmetic for every weekday, and finds
      nothing for any other string. */
  lemma LaneTable(weekday: string, startsWithMon: bool, adjustLeft: bool)
    ensures Lane(weekday, startsWithMon, adjustLeft).Some? <==> weekday in DAY_ABBR
    ensures forall w :: 0 <= w < 7 && weekday == DAY_ABBR[w] ==>
      Lane(weekday, startsWithMon, adjustLeft) == Some(LaneOf(w, startsWithMon, adjustLeft))
  {
    WeekdayOrderSame(startsWithMon, weekday);
    forall w | 0 <= w < 7 && weekday == DAY_ABBR[w]
      ensures Lane(weekday, startsWithMon, adjustLeft) == Some(LaneOf(w, startsWithMon, adjustLeft))
    {
      LaneAt(w, startsWithMon, adjustLeft);
    }
  }

  lemma LaneAt(w: int, startsWithMon: bool, adjustLeft: bool)
    requires 0 <= w < 7
    ensures Lane(DAY_ABBR[w], startsWithMon, adjustLeft) == Some(LaneOf(w, startsWithMon, adjustLeft))
  {
    var i := if startsWithMon then w else (w + 1) % 7;
    WeekdayOrderAt(startsWithMon, w);
    WeekdayOrderDistinct(startsWithMon);
    IndexOfDistinct(WeekdayOrder(startsWithMon), i);
    assert Lane(DAY_ABBR[w], startsWithMon, adjustLeft) == Some(LaneMap(adjustLeft)[i]);
    LaneMapAt(adjustLeft, i);
  }

  /** The position column as arithmetic on the table index. */
  lemma LaneMapAt(adjustLeft: bool, i: int)
    requires 0 <= i < 7
    ensures LaneMap(adjustLeft)[i] == (i + (if adjustLeft then 0 else 1)) % 4
  {
  }

  /** In a list without repeats, the index of the element at `i` is `i`. */
  lemma {:induction false} IndexOfDistinct(order: seq<string>, i: int)
    requires 0 <= i < |order|
    requires forall a, b :: 0 <= a < b < |order| ==> order[a] != order[b]
    ensures IndexOf(order, order[i]) == Some(i)
  {
    if i > 0 {
      assert order[1..][i - 1] == order[i];
      IndexOfDistinct(order[1..], i - 1);
    }
  }

  /** From one weekday to the next the lane rises by one or wraps back to a
      lower lane, in all four table variants. */
  lemma LaneStep(w: int, startsWithMon: bool, adjustLeft: bool)
    requires 0 <= w < 7
    ensures var a, b := LaneOf(w, startsWithMon, adjustLeft), LaneOf((w + 1) % 7, startsWithMon, adjustLeft);
      b == a + 1 || b < a
  {
    var i := if startsWithMon then w else (w + 1) % 7;
    var j := if startsWithMon then (w + 1) % 7 else ((w + 1) % 7 + 1) % 7;
    assert j == (i + 1) % 7;
    IndexStep(i, if adjustLeft then 0 else 1);
  }

  /** The lane step at table index `i` under a right shift `d` of the lanes. */
  lemma IndexStep(i: int, d: int)
    requires 0 <= i < 7 && 0 <= d <= 1
    ensures var a, b := (i + d) % 4, ((i + 1) % 7 + d) % 4; b == a + 1 || b < a
  {
    if d == 0 {
      if i == 0 {} else if i == 1 {} else if i == 2 {} else if i == 3 {} else if i == 4 {} else if i == 5 {} else {}
    } else {
      if i == 0 {} else if i == 1 {} else if i == 2 {} else if i == 3 {} else if i == 4 {} else if i == 5 {} else {}
    }
  }

  /** A row with the position the merge gives it. */
  datatype Placed = Placed(row: Day, position: Option<int>)

  /** `add_position`: `df.merge(wday, how='left')` keeps the rows in order,
      one per row, and looks up each row's weekday in the lane table. */
  function AddPosition(rows: seq<Day>, startsWithMon: bool, adjustLeft: bool): (r: seq<Placed>)
    ensures |r| == |rows|
    ensures forall i :: 0 <= i < |rows| ==> r[i].row == rows[i]
  {
    seq(|rows|, i requires 0 <= i < |rows| => Placed(rows[i], Lane(rows[i].weekday, startsWithMon, adjustLeft)))
  }

  /** A row whose weekday column names its date's weekday gets that
      weekday's lane. */
  lemma AddPositionAt(rows: seq<Day>, startsWithMon: bool, adjustLeft: bool, i: int)
    requires Named(rows) && 0 <= i < |rows|
    ensures WellFormed(DateOf(rows[i]))
    ensures AddPosition(rows, startsWithMon, adjustLeft)[i].position
      == Some(LaneOf(Weekday(DateOf(rows[i])), startsWithMon, adjustLeft))
  {
    NamedAt(rows, i);
    LaneTable(rows[i].weekday, startsWithMon, adjustLeft);
  }

  // ---- add_page ----

  /** The page of row `i`: page 1 at the first row, one more at each row
      whose position is lower than the row before it. */
  function PageAt(position: seq<int>, i: int): int
    requires 0 <= i < |position|
  {
    if i == 0 then 1 else PageAt(position, i - 1) + (if position[i] < position[i - 1] then 1 else 0)
  }

  /** The page column `add_page` fills in. */
  function Pages(position: seq<int>): (r: seq<int>)
    ensures |r| == |position|
  {
    seq(|position|, i requires 0 <= i < |position| => PageAt(position, i))
  }

  /** `add_page`: every row starts on page 1, and at each row whose position
      is lower than the one before, that row and all after it move one page on. */
  method AddPage(position: seq<int>) returns (page: array<int>)
    ensures fresh(page) && page[..] == Pages(position)
  {
    var n := |position|;
    page := new int[n](_ => 1);
    var i := 1;
    while i < n
      invariant 1 <= i && (n > 0 ==> i <= n) && page.Length == n
      invariant forall k :: 0 <= k < n && k < i ==> page[k] == PageAt(position, k)
      invariant forall k :: i <= k < n ==> page[k] == PageAt(position, i - 1)
    {
      assert PageAt(position, i) == PageAt(position, i - 1) + (if position[i] < position[i - 1] then 1 else 0);
      if position[i] < position[i - 1] {
        IncrementFrom(page, i);
      }
      i := i + 1;
    }
  }

  /** `df.loc[i:, page_col] += 1`: one more on row `i` and every row after it. */
  method IncrementFrom(page: array<int>, i: int)
    requires 0 <= i <= page.Length
    modifies page
    ensures forall k :: 0 <= k < page.Length ==> page[k] == old(page[k]) + (if k >= i then 1 else 0)
  {
    var j := i;
    while j < page.Length
      invariant i <= j <= page.Length
      invariant forall k :: 0 <= k < page.Length ==>
        page[k] == old(page[k]) + (if i <= k < j then 1 else 0)
    {
      page[j] := page[j] + 1;
      j := j + 1;
    }
  }

  /** Pages never go back and grow by at most one per row. */
  lemma {:induction false} PagesGrow(position: seq<int>, i: int, j: int)
    requires 0 <= i <= j < |position|
    ensures PageAt(position, i) <= PageAt(position, j) <= PageAt(position, i) + (j - i)
    decreases j - i
  {
    if i < j {
      PagesGrow(position, i, j - 1);
    }
  }

  /** Two rows are on the same page exactly when no position between them
      is lower than the one before. */
  lemma {:induction false} SamePage(position: seq<int>, i: int, j: int)
    requires 0 <= i <= j < |position|
    ensures PageAt(position, i) == PageAt(position, j) <==>
      forall k :: i < k <= j ==> position[k - 1] <= position[k]
    decreases j - i
  {
    if i < j {
      SamePage(position, i, j - 1);
      PagesGrow(position, i, j - 1);
    }
  }

  /** Positions that rise by one or drop at every row. */
  predicate Stepwise(position: seq<int>)
  {
    forall k :: 0 < k < |position| ==> position[k] == position[k - 1] + 1 || position[k] < position[k - 1]
  }

  /** On one page the positions rise by one per row, so the rows of a page
      have distinct positions, and with four lanes a page holds at most four rows. */
  lemma {:induction false} PageCapacity(position: seq<int>, i: int, j: int)
    requires Stepwise(position) && 0 <= i <= j < |position|
    requires forall k :: 0 <= k < |position| ==> 0 <= position[k] < 4
    requires PageAt(position, i) == PageAt(position, j)
    ensures position[j] == position[i] + (j - i)
    ensures j - i < 4
    decreases j - i
  {
    SamePage(position, i, j);
    if i < j {
      SamePage(position, i, j - 1);
      PageCapacity(position, i, j - 1);
    }
  }

  // ---- add_draw_year_month ----

  /** Row `i` prints the year-month label: the first of a month, or a row
      whose position is lower than the one before. */
  function FlagAt(day: seq<int>, position: seq<int>, i: int): bool
    requires |day| == |position| && 0 <= i < |day|
  {
    day[i] == 1 || (i > 0 && position[i] < position[i - 1])
  }

  function Flags(day: seq<int>, position: seq<int>): (r: seq<bool>)
    requires |day| == |position|
    ensures |r| == |day|
  {
    seq(|day|, i requires 0 <= i < |day| => FlagAt(day, position, i))
  }

  /** `add_draw_year_month`: False everywhere, then True where the day is 1,
      then True at every row whose position is lower than the one before. */
  method AddDrawYearMonth(day: seq<int>, position: seq<int>) returns (flag: array<bool>)
    requires |day| == |position|
    ensures fresh(flag) && flag[..] == Flags(day, position)
  {
    var n := |day|;
    flag := new bool[n](k requires 0 <= k < n => day[k] == 1);
    var i := 1;
    while i < n
      invariant 1 <= i && (n > 0 ==> i <= n) && flag.Length == n
      invariant forall k :: 0 <= k < n && k < i ==> flag[k] == FlagAt(day, position, k)
      invariant forall k :: i <= k < n ==> flag[k] == (day[k] == 1)
    {
      if position[i] < position[i - 1] {
        flag[i] := true;
      }
      i := i + 1;
    }
  }

  /** The label is printed on the first day of every month and on the first
      row of every page after the first, and nowhere else. */
  lemma FlagsPages(day: seq<int>, position: seq<int>, i: int)
    requires |day| == |position| && 0 <= i < |day|
    ensures Flags(day, position)[i] <==>
      day[i] == 1 || (i > 0 && PageAt(position, i) == PageAt(position, i - 1) + 1)
  {
  }

  // ---- create_year_df ----

  /** One row of the frame `create_year_df` returns. */
  datatype YearRow = YearRow(year: int, month: int, day: int, weekday: string,
                             position: int, page: int, drawYearMonth: bool)

  /** The dates of `create_year` run from the first of April or of January
      without a gap, and every weekday column names its date's weekday. */
  lemma SpanRun(year: int, startApril: bool)
    ensures |YearSpan(year, startApril)| > 0
    ensures Chain(YearSpan(year, startApril)) && Named(YearSpan(year, startApril))
    ensures DateOf(YearSpan(year, startApril)[0]) == Date(year, if startApril then 4 else 1, 1)
  {
    if startApril {
      FiscalYearRun(year);
    } else {
      YearDaysRun(year);
    }
  }

  /** Rows with a weekday of the table all get a position. */
  lemma PositionsKnown(days: seq<Day>, startsWithMon: bool, adjustLeft: bool)
    requires Named(days)
    ensures forall i :: 0 <= i < |days| ==> AddPosition(days, startsWithMon, adjustLeft)[i].position.Some?
  {
    forall i | 0 <= i < |days|
      ensures AddPosition(days, startsWithMon, adjustLeft)[i].position.Some?
    {
      AddPositionAt(days, startsWithMon, adjustLeft, i);
    }
  }

  /** The position column once every row has one. */
  function Positions(placed: seq<Placed>): (r: seq<int>)
    requires forall i :: 0 <= i < |placed| ==> placed[i].position.Some?
    ensures |r| == |placed|
  {
    seq(|placed|, i requires 0 <= i < |placed| => placed[i].position.value)
  }

  /** The day column. */
  function DayColumn(days: seq<Day>): (r: seq<int>)
    ensures |r| == |days|
  {
    seq(|days|, i requires 0 <= i < |days| => days[i].day)
  }

  /** The frame from its columns. */
  function Frame(days: seq<Day>, position: seq<int>, page: seq<int>, flag: seq<bool>): (r: seq<YearRow>)
    requires |position| == |page| == |flag| == |days|
    ensures |r| == |days|
  {
    seq(|days|, i requires 0 <= i < |days| =>
      YearRow(days[i].year, days[i].month, days[i].day, days[i].weekday, position[i], page[i], flag[i]))
  }

  /** The position column of rows whose weekdays are all in the table. */
  function PositionsOf(days: seq<Day>, startsWithMon: bool, adjustLeft: bool): (r: seq<int>)
    requires Named(days)
    ensures |r| == |days|
  {
    PositionsKnown(days, startsWithMon, adjustLeft);
    Positions(AddPosition(days, startsWithMon, adjustLeft))
  }

  /** `add_position`, `add_page` and `add_draw_year_month` applied to rows. */
  function FrameOf(days: seq<Day>, startsWithMon: bool, adjustLeft: bool): (r: seq<YearRow>)
    requires Named(days)
    ensures |r| == |days|
  {
    var position := PositionsOf(days, startsWithMon, adjustLeft);
    Frame(days, position, Pages(position), Flags(DayColumn(days), position))
  }

  /** What `create_year_df` returns. */
  function YearFrame(year: int, startApril: bool, startsWithMon: bool, adjustLeft: bool): (r: seq<YearRow>)
    ensures |r| == |YearSpan(year, startApril)|
  {
    SpanRun(year, startApril);
    FrameOf(YearSpan(year, startApril), startsWithMon, adjustLeft)
  }

  /** `create_year_df`: the dates, then positions, pages and label flags. */
  method CreateYearDf(year: int, startApril: bool, startsWithMon: bool, adjustLeft: bool)
    returns (frame: seq<YearRow>)
    ensures frame == YearFrame(year, startApril, startsWithMon, adjustLeft)
  {
    var days := CreateYear(year, startApril);
    SpanRun(year, startApril);
    var placed := AddPosition(days, startsWithMon, adjustLeft);
    PositionsKnown(days, startsWithMon, adjustLeft);
    var position := Positions(placed);
    var page := AddPage(position);
    var flag := AddDrawYearMonth(DayColumn(days), position);
    frame := Frame(days, position, page[..], flag[..]);
  }

  /** Every position is the lane of its row's weekday, between 0 and 3. */
  lemma {:induction false} PositionAt(days: seq<Day>, startsWithMon: bool, adjustLeft: bool, k: int)
    requires Named(days) && 0 <= k < |days|
    ensures WellFormed(DateOf(days[k]))
    ensures PositionsOf(days, startsWithMon, adjustLeft)[k] == LaneOf(Weekday(DateOf(days[k])), startsWithMon, adjustLeft)
    ensures 0 <= PositionsOf(days, startsWithMon, adjustLeft)[k] < 4
  {
    AddPositionAt(days, startsWithMon, adjustLeft, k);
  }

  /** Neighbouring rows of a run name two consecutive weekdays. */
  lemma {:induction false} NameStep(days: seq<Day>, k: int) returns (w: int)
    requires Chain(days) && Named(days) && 0 < k < |days|
    ensures 0 <= w < 7
    ensures days[k - 1].weekday == DAY_ABBR[w] && days[k].weekday == DAY_ABBR[(w + 1) % 7]
  {
    ChainStep(days, k);
    w := Weekday(DateOf(days[k - 1]));
    var v := Weekday(DateOf(days[k]));
    assert v == (w + 1) % 7;
    NamedAt(days, k - 1);
    NamedAt(days, k);
    assert days[k].weekday == DAY_ABBR[v];
  }

  /** A row naming weekday `w` gets the lane of `w`. */
  lemma PositionOfName(days: seq<Day>, startsWithMon: bool, adjustLeft: bool, k: int, w: int)
    requires Named(days) && 0 <= k < |days| && 0 <= w < 7 && days[k].weekday == DAY_ABBR[w]
    ensures PositionsOf(days, startsWithMon, adjustLeft)[k] == LaneOf(w, startsWithMon, adjustLeft)
  {
    LaneAt(w, startsWithMon, adjustLeft);
  }

  /** From one day to the next the position rises by one or wraps. */
  lemma {:induction false} PositionNext(days: seq<Day>, startsWithMon: bool, adjustLeft: bool, k: int)
    requires Chain(days) && Named(days) && 0 < k < |days|
    ensures var position := PositionsOf(days, startsWithMon, adjustLeft);
      position[k] == position[k - 1] + 1 || position[k] < position[k - 1]
  {
    var w := NameStep(days, k);
    PositionOfName(days, startsWithMon, adjustLeft, k - 1, w);
    PositionOfName(days, startsWithMon, adjustLeft, k, (w + 1) % 7);
    LaneStep(w, startsWithMon, adjustLeft);
  }

  /** In a run of days the positions are lanes 0 to 3, and from one row to
      the next the position rises by one or wraps. */
  lemma {:induction false} PositionsStep(days: seq<Day>, startsWithMon: bool, adjustLeft: bool)
    requires Chain(days) && Named(days)
    ensures Stepwise(PositionsOf(days, startsWithMon, adjustLeft))
    ensures forall k :: 0 <= k < |days| ==> 0 <= PositionsOf(days, startsWithMon, adjustLeft)[k] < 4
  {
    var position := PositionsOf(days, startsWithMon, adjustLeft);
    forall k | 0 <= k < |days|
      ensures 0 <= position[k] < 4
    {
      PositionAt(days, startsWithMon, adjustLeft, k);
    }
    forall k | 0 < k < |position|
      ensures position[k] == position[k - 1] + 1 || position[k] < position[k - 1]
    {
      PositionNext(days, startsWithMon, adjustLeft, k);
    }
  }

  lemma {:induction false} FrameOfPages(days: seq<Day>, startsWithMon: bool, adjustLeft: bool, i: int, j: int)
    requires Chain(days) && Named(days) && 0 <= i <= j < |days|
    ensures var f := FrameOf(days, startsWithMon, adjustLeft);
      && f[0].page == 1
      && f[i].page <= f[j].page <= f[i].page + (j - i)
      && (f[i].page == f[j].page ==> f[j].position == f[i].position + (j - i) && j - i < 4)
  {
    var position := PositionsOf(days, startsWithMon, adjustLeft);
    PagesGrow(position, i, j);
    PositionsStep(days, startsWithMon, adjustLeft);
    if PageAt(position, i) == PageAt(position, j) {
      PageCapacity(position, i, j);
    }
  }

  lemma {:induction false} FrameOfFlags(days: seq<Day>, startsWithMon: bool, adjustLeft: bool, i: int)
    requires Named(days) && 0 <= i < |days| && days[0].day == 1
    ensures var f := FrameOf(days, startsWithMon, adjustLeft);
      && f[0].drawYearMonth
      && (f[i].drawYearMonth <==> f[i].day == 1 || (i > 0 && f[i].page == f[i - 1].page + 1))
  {
    FlagsPages(DayColumn(days), PositionsOf(days, startsWithMon, adjustLeft), i);
  }

  /** Row `i` of the frame is row `i` of `create_year` with the lane of its
      weekday, a position between 0 and 3. */
  lemma FrameLane(year: int, startApril: bool, startsWithMon: bool, adjustLeft: bool, i: int)
    requires 0 <= i < |YearSpan(year, startApril)|
    ensures var f := YearFrame(year, startApril, startsWithMon, adjustLeft);
      && |f| == |YearSpan(year, startApril)|
      && var d := YearSpan(year, startApril)[i];
      && (f[i].year, f[i].month, f[i].day, f[i].weekday) == (d.year, d.month, d.day, d.weekday)
      && WellFormed(DateOf(d))
      && f[i].position == LaneOf(Weekday(DateOf(d)), startsWithMon, adjustLeft)
      && 0 <= f[i].position < 4
  {
    SpanRun(year, startApril);
    AddPositionAt(YearSpan(year, startApril), startsWithMon, adjustLeft, i);
  }

  /** The pages of the frame start at 1, never go back and grow by at most
      one per row; the rows of one page have positions rising by one, so
      they are distinct and a page holds at most four rows. */
  lemma FramePages(year: int, startApril: bool, startsWithMon: bool, adjustLeft: bool, i: int, j: int)
    requires 0 <= i <= j < |YearSpan(year, startApril)|
    ensures var f := YearFrame(year, startApril, startsWithMon, adjustLeft);
      && f[0].page == 1
      && f[i].page <= f[j].page <= f[i].page + (j - i)
      && (f[i].page == f[j].page ==> f[j].position == f[i].position + (j - i) && j - i < 4)
  {
    SpanRun(year, startApril);
    FrameOfPages(YearSpan(year, startApril), startsWithMon, adjustLeft, i, j);
  }

  /** The first row of the frame prints the year-month label (it is the first
      of a month), and a row prints it exactly when it is the first of a month
      or starts a new page. */
  lemma FrameFlags(year: int, startApril: bool, startsWithMon: bool, adjustLeft: bool, i: int)
    requires 0 <= i < |YearSpan(year, startApril)|
    ensures var f := YearFrame(year, startApril, startsWithMon, adjustLeft);
      && f[0].drawYearMonth
      && (f[i].drawYearMonth <==> f[i].day == 1 || (i > 0 && f[i].page == f[i - 1].page + 1))
  {
    SpanRun(year, startApril);
    FrameOfFlags(YearSpan(year, startApril), startsWithMon, adjustLeft, i);
  }
}
