/** The drawing arithmetic of the weekly planner (vercal.py), as data: the
    clock strings of events, the hour rulings, hour labels and ten-minute
    marks of a day block, the box of an event, and the key under which a
    day's events are looked up. */
module Layout {
  import opened Dates
  import opened Text
  import Event
  import YearGrid

  /** The exceptions the drawing code raises. */
  datatype Fault =
    | BadClock(text: string)  // ValueError from `map(int, s.split(':'))` and its unpacking
    | NoHours                 // ZeroDivisionError: `h_hour / (hour_end - hour_start)` with no hours
    | MissingKey(key: string) // KeyError: an event dict without that key

  datatype Result<T> = Ok(value: T) | Err(fault: Fault)

  /** What the canvas is asked to draw. */
  datatype Mark =
    | Line(x0: real, y0: real, x1: real, y1: real)
    | Label(x: real, y: real, text: string)
    | Circle(x: real, y: real, radius: real)
    | Rect(x: real, y: real, width: real, height: real)
    | ShowPage  // `showPage`: the end of a page

  // ---- string2float ----

  /** `string2float`: "H:M" as hours, `H + M / 60`. Exactly one colon and two
      integers, or ValueError. */
  function ClockHours(s: string): Result<real>
  {
    var parts := Split(s, ':');
    if |parts| != 2 then Err(BadClock(s))
    else
      match (ParseInt(parts[0]), ParseInt(parts[1]))
      case (Some(h), Some(m)) => Ok(h as real + m as real / 60.0)
      case _ => Err(BadClock(s))
  }

  /** `str(n)` holds no colon. */
  lemma IntTextNoColon(n: int)
    ensures ':' !in IntText(n)
  {
    var t := NatText(if n < 0 then -n else n);
    assert forall i :: 0 <= i < |t| ==> IsDigit(t[i]);
    if n < 0 {
      assert forall i :: 0 < i < |IntText(n)| ==> IntText(n)[i] == t[i - 1];
    }
  }

  /** Writing hours and minutes as "H:M" and reading them back gives
      `H + M / 60`. */
  lemma ClockRoundTrip(h: int, m: int)
    ensures ClockHours(IntText(h) + ":" + IntText(m)) == Ok(h as real + m as real / 60.0)
  {
    var parts := [IntText(h), IntText(m)];
    IntTextNoColon(h);
    IntTextNoColon(m);
    assert Join(parts, ':') == IntText(h) + ":" + IntText(m);
    SplitJoin(parts, ':');
    ParseIntText(h);
    ParseIntText(m);
  }

  /** A clock without a colon is refused. */
  lemma ClockWithoutColon(s: string)
    requires ':' !in s
    ensures ClockHours(s) == Err(BadClock(s))
  {
    SplitWithout(s, ':');
  }

  /** With minutes below an hour a clock lands inside its hour, so clocks
      compare as (hour, minute) pairs. */
  lemma ClockOrder(h1: int, m1: int, h2: int, m2: int)
    requires 0 <= m1 < 60 && 0 <= m2 < 60
    ensures var a, b := ClockHours(IntText(h1) + ":" + IntText(m1)), ClockHours(IntText(h2) + ":" + IntText(m2));
      && a.Ok? && b.Ok?
      && h1 as real <= a.value < h1 as real + 1.0
      && (a.value < b.value <==> h1 < h2 || (h1 == h2 && m1 < m2))
  {
    ClockRoundTrip(h1, m1);
    ClockRoundTrip(h2, m2);
  }

  // ---- the hour section ----

  /** `one_hour = h_hour / hours`: the height of an hour. */
  function OneHour(hHour: real, hourStart: int, hourEnd: int): (r: Result<real>)
    ensures r.Ok? <==> hourStart != hourEnd
    ensures r.Ok? ==> r.value * (hourEnd - hourStart) as real == hHour
    ensures r.Err? ==> r.fault == NoHours
  {
    if hourStart == hourEnd then Err(NoHours) else Ok(hHour / (hourEnd - hourStart) as real)
  }

  /** The height of clock time `t` (in hours) in a section whose top is
      `hourStart` o'clock. */
  function Level(top: real, oneHour: real, hourStart: int, t: real): real
  {
    top - (t - hourStart as real) * oneHour
  }

  /** `'0' * n`. */
  function Zeros(n: nat): (s: string)
    ensures |s| == n && forall i :: 0 <= i < n ==> s[i] == '0'
  {
    seq(n, _ => '0')
  }

  /** `s.zfill(width)`: zeros after a leading sign, up to `width` characters. */
  function ZFill(s: string, width: nat): (r: string)
  {
    if |s| >= width then s
    else if |s| > 0 && (s[0] == '+' || s[0] == '-') then [s[0]] + Zeros(width - |s|) + s[1..]
    else Zeros(width - |s|) + s
  }

  /** A leading zero does not change the number a digit string reads as. */
  lemma {:induction false} ParseNatLeadingZero(t: string)
    requires |t| > 0
    ensures ParseNat("0" + t) == ParseNat(t)
    decreases |t|
  {
    var s := "0" + t;
    assert s[..|s| - 1] == "0" + t[..|t| - 1];
    if |t| > 1 && IsDigit(t[|t| - 1]) {
      ParseNatLeadingZero(t[..|t| - 1]);
    }
  }

  /** `str(n).zfill(2)`, which is also `f"{n:02d}"`: two places, zero-padded after any sign. */
  function TwoPlaces(n: int): string
  {
    ZFill(IntText(n), 2)
  }

  /** The label of an hour below ten is a zero and its digit. */
  lemma TwoPlacesOneDigit(n: int)
    requires 0 <= n < 10
    ensures TwoPlaces(n) == "0" + IntText(n) && TwoPlaces(n) == Digits(n, 2)
  {
    DigitsTwo(n);
    assert n / 10 == 0 && n % 10 == n;
    assert IntText(n) == [DigitChar(n)];
    assert Zeros(1) == "0" && DigitChar(0) == '0';
    assert TwoPlaces(n) == Zeros(1) + IntText(n);
  }

  /** The label of an hour from ten to 99 is its two digits. */
  lemma TwoPlacesTwoDigits(n: int)
    requires 10 <= n < 100
    ensures TwoPlaces(n) == Digits(n, 2)
  {
    DigitsTwo(n);
    assert NatText(n / 10) == [DigitChar(n / 10)];
    assert NatText(n) == NatText(n / 10) + [DigitChar(n % 10)];
  }

  /** An hour label reads back as its hour, is at least two characters
      long, and is the two digits of the hours 0 to 99. */
  lemma TwoPlacesReads(n: int)
    ensures ParseInt(TwoPlaces(n)) == Some(n)
    ensures |TwoPlaces(n)| >= 2
    ensures 0 <= n < 100 ==> TwoPlaces(n) == Digits(n, 2)
  {
    ParseIntText(n);
    if 0 <= n < 10 {
      TwoPlacesOneDigit(n);
      ParseNatLeadingZero(IntText(n));
    } else if 10 <= n < 100 {
      TwoPlacesTwoDigits(n);
      assert |NatText(n)| >= 2 by {
        assert NatText(n) == NatText(n / 10) + [DigitChar(n % 10)];
      }
    } else if n >= 100 {
      assert |NatText(n)| >= 2 by {
        assert NatText(n) == NatText(n / 10) + [DigitChar(n % 10)];
      }
    }
  }

  /** The height `i` hours below the top of a section. */
  function Ruling(top: real, oneHour: real, i: int): real
  {
    top - oneHour * i as real
  }

  /** `i` hours below the top is the height of hour `hourStart + i`. */
  lemma RulingLevel(top: real, oneHour: real, hourStart: int, i: int)
    ensures Ruling(top, oneHour, i) == Level(top, oneHour, hourStart, (hourStart + i) as real)
  {
    assert (hourStart + i) as real - hourStart as real == i as real;
  }

  /** With a positive hour, later hours lie lower. */
  lemma RulingDescends(top: real, oneHour: real, i: int, j: int)
    requires 0.0 < oneHour && i < j
    ensures Ruling(top, oneHour, j) < Ruling(top, oneHour, i)
  {
    assert oneHour * j as real - oneHour * i as real == oneHour * (j - i) as real;
  }

  /** `hour_section`: the labels `str(hour_start + i).zfill(2)` one font size
      below the line of hour `i` (when numbers are drawn), then a dashed line
      at the end of every hour. */
  function HourSection(left: real, right: real, top: real, hHour: real,
                       hourStart: int, hourEnd: int, fontSize: real, drawNumbers: bool): Result<seq<Mark>>
  {
    match OneHour(hHour, hourStart, hourEnd)
    case Err(f) => Err(f)
    case Ok(one) =>
      var hours := if hourEnd - hourStart > 0 then hourEnd - hourStart else 0;
      var labels := if drawNumbers then
          seq(hours, i requires 0 <= i < hours => Label(left, Ruling(top, one, i) - fontSize, TwoPlaces(hourStart + i)))
        else [];
      Ok(labels + seq(hours, i requires 0 <= i < hours =>
            Line(left, Ruling(top, one, i + 1), right, Ruling(top, one, i + 1))))
  }

  /** With at least one hour the section draws one line per hour, across the
      block: line `i` at the height where hour `i` ends, the last on the
      bottom of the section. */
  lemma HourLines(left: real, right: real, top: real, hHour: real,
                  hourStart: int, hourEnd: int, fontSize: real, drawNumbers: bool, i: int)
    requires hourStart < hourEnd && 0 <= i < hourEnd - hourStart
    ensures var r := HourSection(left, right, top, hHour, hourStart, hourEnd, fontSize, drawNumbers);
      var hours := hourEnd - hourStart;
      var one := OneHour(hHour, hourStart, hourEnd).value;
      var n := if drawNumbers then hours else 0;
      var y := Level(top, one, hourStart, (hourStart + i + 1) as real);
      && r.Ok? && |r.value| == n + hours
      && r.value[n + i] == Line(left, y, right, y)
      && (i == hours - 1 ==> y == top - hHour)
  {
    var one := OneHour(hHour, hourStart, hourEnd).value;
    RulingLevel(top, one, hourStart, i + 1);
  }

  /** When numbers are drawn, label `i` names hour `hour_start + i`, reads
      back as that hour, and hangs one font size below the start of it. */
  lemma HourLabels(left: real, right: real, top: real, hHour: real,
                   hourStart: int, hourEnd: int, fontSize: real, i: int)
    requires hourStart < hourEnd && 0 <= i < hourEnd - hourStart
    ensures var r := HourSection(left, right, top, hHour, hourStart, hourEnd, fontSize, true);
      var one := OneHour(hHour, hourStart, hourEnd).value;
      && r.Ok? && |r.value| == 2 * (hourEnd - hourStart)
      && r.value[i].Label?
      && r.value[i].x == left
      && r.value[i].y == Level(top, one, hourStart, (hourStart + i) as real) - fontSize
      && ParseInt(r.value[i].text) == Some(hourStart + i)
  {
    var one := OneHour(hHour, hourStart, hourEnd).value;
    RulingLevel(top, one, hourStart, i);
    TwoPlacesReads(hourStart + i);
  }

  /** An empty block draws the lines alone. */
  lemma HourLinesOnly(left: real, right: real, top: real, hHour: real, hourStart: int, hourEnd: int)
    requires hourStart < hourEnd
    ensures var r := HourSection(left, right, top, hHour, hourStart, hourEnd, 0.0, false);
      r.Ok? && |r.value| == hourEnd - hourStart && forall m :: m in r.value ==> m.Line?
  {
  }

  /** The lines of a section of positive height run strictly downwards and
      stay inside it. */
  lemma HourLinesDescend(left: real, right: real, top: real, hHour: real,
                         hourStart: int, hourEnd: int, fontSize: real, drawNumbers: bool, i: int, j: int)
    requires hourStart < hourEnd && 0.0 < hHour
    requires 0 <= i < j < hourEnd - hourStart
    ensures var marks := HourSection(left, right, top, hHour, hourStart, hourEnd, fontSize, drawNumbers).value;
      var n := if drawNumbers then hourEnd - hourStart else 0;
      top - hHour <= marks[n + j].y0 < marks[n + i].y0 < top
  {
    var hours := hourEnd - hourStart;
    var one := OneHour(hHour, hourStart, hourEnd).value;
    PositiveHour(hHour, hourStart, hourEnd);
    RulingDescends(top, one, 0, i + 1);
    RulingDescends(top, one, i + 1, j + 1);
    if j + 1 < hours {
      RulingDescends(top, one, j + 1, hours);
    }
  }

  /** A positive height over a positive number of hours gives a positive hour. */
  lemma PositiveHour(hHour: real, hourStart: int, hourEnd: int)
    requires hourStart < hourEnd && 0.0 < hHour
    ensures 0.0 < OneHour(hHour, hourStart, hourEnd).value
  {
  }

  /** No hours: the division by zero. */
  lemma HourSectionNoHours(left: real, right: real, top: real, hHour: real,
                           hour: int, fontSize: real, drawNumbers: bool)
    ensures HourSection(left, right, top, hHour, hour, hour, fontSize, drawNumbers) == Err(NoHours)
  {
  }

  // ---- ten_minute ----

  /** `ten_minute`: a circle every ten minutes from the top of the section,
      0.12 of the way from the left edge to the right one; radius 0.5 on
      even steps and 1 on odd ones. */
  function TenMinute(left: real, right: real, top: real, hHour: real, hourStart: int, hourEnd: int)
    : Result<seq<Mark>>
  {
    match OneHour(hHour, hourStart, hourEnd)
    case Err(f) => Err(f)
    case Ok(one) =>
      var tenMinutes := one / 6.0;
      var x := left - (left - right) * 0.12;
      var count := if hourEnd - hourStart > 0 then (hourEnd - hourStart) * 6 else 0;
      Ok(seq(count, i requires 0 <= i < count =>
        Circle(x, top - tenMinutes * i as real, ((i % 2) + 1) as real * 0.5)))
  }

  /** Six circles per hour, every sixth on the line where an hour starts,
      alternately small and large, all on one vertical inside the block. */
  lemma TenMinuteShape(left: real, right: real, top: real, hHour: real, hourStart: int, hourEnd: int)
    requires hourStart < hourEnd
    ensures var r := TenMinute(left, right, top, hHour, hourStart, hourEnd);
      var one := OneHour(hHour, hourStart, hourEnd).value;
      && r.Ok? && |r.value| == 6 * (hourEnd - hourStart)
      && (forall k :: 0 <= k < hourEnd - hourStart ==>
            r.value[6 * k].y == Level(top, one, hourStart, (hourStart + k) as real))
      && (forall i :: 0 <= i < |r.value| ==>
            && r.value[i].Circle?
            && r.value[i].x == left + 0.12 * (right - left)
            && r.value[i].radius == (if i % 2 == 0 then 0.5 else 1.0))
      && (left <= right ==> left <= left + 0.12 * (right - left) <= right)
  {
  }

  /** The circles of a section of positive height stay inside it. */
  lemma TenMinuteInside(left: real, right: real, top: real, hHour: real, hourStart: int, hourEnd: int, i: int)
    requires hourStart < hourEnd && 0.0 < hHour && 0 <= i < 6 * (hourEnd - hourStart)
    ensures var marks := TenMinute(left, right, top, hHour, hourStart, hourEnd).value;
      top - hHour < marks[i].y <= top
  {
    var one := OneHour(hHour, hourStart, hourEnd).value;
    PositiveHour(hHour, hourStart, hourEnd);
    assert (one / 6.0) * i as real < (one / 6.0) * (6 * (hourEnd - hourStart)) as real;
    assert (one / 6.0) * (6 * (hourEnd - hourStart)) as real == one * (hourEnd - hourStart) as real;
  }

  // ---- draw_schedule ----

  /** The marks of `draw_schedule` once the clocks `s` and `e` and the hour
      height are known: the box from the start to the end of the event, 0.12
      of the block width in and 0.83 of it wide, and the title one font size
      below the top of the box. */
  function BoxAt(title: string, s: real, e: real, one: real, hourStart: int,
                 topHour: real, left: real, width: real, fontSize: real): (marks: seq<Mark>)
    ensures |marks| == 2
  {
    var y := topHour - (s - hourStart as real) * one;
    var duration := - (e - s) * one;
    [Rect(left + width * 0.12, y, width * 0.83, duration), Label(left + width * 0.13, y - fontSize, title)]
  }

  /** `draw_schedule`: the hour height, then the start clock, then the end
      clock, each of which can fail. */
  function EventBox(title: string, start: string, end: string, hourStart: int, hourEnd: int,
                    topHour: real, left: real, width: real, hHour: real, fontSize: real): (r: Result<seq<Mark>>)
    ensures r.Ok? ==> |r.value| == 2
  {
    match OneHour(hHour, hourStart, hourEnd)
    case Err(f) => Err(f)
    case Ok(one) =>
      match ClockHours(start)
      case Err(f) => Err(f)
      case Ok(s) =>
        match ClockHours(end)
        case Err(f) => Err(f)
        case Ok(e) => Ok(BoxAt(title, s, e, one, hourStart, topHour, left, width, fontSize))
  }

  /** A box is drawn exactly when there are hours and both clocks read;
      otherwise the first failure is raised. */
  lemma EventBoxFails(title: string, start: string, end: string, hourStart: int, hourEnd: int,
                      topHour: real, left: real, width: real, hHour: real, fontSize: real)
    ensures var r := EventBox(title, start, end, hourStart, hourEnd, topHour, left, width, hHour, fontSize);
      && (r.Ok? <==> hourStart != hourEnd && ClockHours(start).Ok? && ClockHours(end).Ok?)
      && (hourStart == hourEnd ==> r == Err(NoHours))
      && (hourStart != hourEnd && ClockHours(start).Err? ==> r == Err(ClockHours(start).fault))
      && (hourStart != hourEnd && ClockHours(start).Ok? && ClockHours(end).Err? ==> r == Err(ClockHours(end).fault))
  {
  }

  /** The box's top edge is at the start time's height and its bottom edge
      at the end time's; an event inside the section's hours lies inside the
      section, and the box lies inside the block's width. */
  lemma BoxPlacement(title: string, s: real, e: real, one: real, hHour: real, hourStart: int, hourEnd: int,
                     topHour: real, left: real, width: real, fontSize: real)
    requires hourStart != hourEnd && one * (hourEnd - hourStart) as real == hHour
    ensures var marks := BoxAt(title, s, e, one, hourStart, topHour, left, width, fontSize);
      && marks[0].Rect? && marks[1] == Label(left + width * 0.13, marks[0].y - fontSize, title)
      && marks[0].y == Level(topHour, one, hourStart, s)
      && marks[0].y + marks[0].height == Level(topHour, one, hourStart, e)
      && (0.0 <= width ==> left <= marks[0].x && marks[0].x + marks[0].width <= left + width)
      && (hourStart < hourEnd && 0.0 < hHour && hourStart as real <= s <= e <= hourEnd as real ==>
            topHour - hHour <= marks[0].y + marks[0].height <= marks[0].y <= topHour)
  {
    assert (s - hourStart as real) * one + (e - s) * one == (e - hourStart as real) * one;
    if hourStart < hourEnd && 0.0 < hHour && hourStart as real <= s <= e <= hourEnd as real {
      PositiveHour(hHour, hourStart, hourEnd);
      assert 0.0 <= (s - hourStart as real) * one;
      assert 0.0 <= (e - s) * one;
      assert 0.0 <= (hourEnd as real - e) * one;
      assert (e - hourStart as real) * one + (hourEnd as real - e) * one == hHour;
    }
  }

  // ---- the block skeleton ----

  /** Millimetres in points: `reportlab.lib.units.mm`. */
  const MM: real := 72.0 / 25.4

  /** The default heights of the year-month row, the weekday-day row and the
      memo rows of a block. */
  const H_YEAR_MONTH: real := 5.0 * MM
  const H_WDAY_DAY: real := 5.0 * MM
  const H_MEMO: real := 15.0 * MM

  /** `draw_common_skeleton` with the default heights: the top of the hour
      section and its height. */
  function Skeleton(top: real, height: real): (real, real)
  {
    var topHour := top - (H_YEAR_MONTH + H_WDAY_DAY + H_MEMO);
    (topHour, topHour - (top - height))
  }

  /** The hour section fills the block below the 25 mm of headings, down to
      the block's bottom edge. */
  lemma SkeletonFills(top: real, height: real)
    ensures var (topHour, hHour) := Skeleton(top, height);
      && topHour == top - 25.0 * MM
      && hHour == height - 25.0 * MM
      && topHour - hHour == top - height
  {
  }

  // ---- the events of a day ----

  /** `f"{int(year)}-{int(month):02d}-{int(day):02d}"`: `{n:02d}` pads like
      `zfill(2)`. */
  function DateKey(year: int, month: int, day: int): string
  {
    IntText(year) + "-" + TwoPlaces(month) + "-" + TwoPlaces(day)
  }

  /** For a four-digit year the key is the date as `strftime('%Y-%m-%d')`
      writes it, the form the event rows carry. */
  lemma DateKeyFormat(d: Date)
    requires Valid(d) && 1000 <= d.year
    ensures DateKey(d.year, d.month, d.day) == FormatDate(d)
  {
    IntTextFourDigits(d.year);
    TwoPlacesReads(d.month);
    TwoPlacesReads(d.day);
  }

  /** `df_event[df_event['date'] == date_today]`: the events of every group
      under the day's key. */
  function DayEvents(groups: seq<Event.Group>, row: YearGrid.YearRow): seq<Event.EventDict>
  {
    Event.Matching(groups, DateKey(row.year, row.month, row.day))
  }

  /** A day draws exactly the events whose rows carry its date, in row
      order, when the events are grouped by `format_events` (which raises
      on a frame without rows). */
  lemma DayEventsOf(rows: seq<Event.Occurrence>, row: YearGrid.YearRow)
    requires Valid(Date(row.year, row.month, row.day)) && 1000 <= row.year
    ensures Event.FormatEvents(rows).Err? <==> |rows| == 0
    ensures Event.FormatEvents(rows).Ok? ==>
      DayEvents(Event.FormatEvents(rows).value, row) == Event.EventsOf(rows, FormatDate(Date(row.year, row.month, row.day)))
  {
    DateKeyFormat(Date(row.year, row.month, row.day));
    Event.FormatEventsMatching(rows, FormatDate(Date(row.year, row.month, row.day)));
  }

  /** `d[key]`. */
  function Lookup(d: Event.EventDict, key: string): (r: Option<string>)
    ensures r.Some? <==> exists v :: (key, v) in d
    ensures r.Some? ==> (key, r.value) in d
  {
    if |d| == 0 then None
    else if d[0].0 == key then Some(d[0].1)
    else Lookup(d[1..], key)
  }

  /** The dict of a row gives back its start, its label and its end when
      the row has one. */
  lemma LookupCreated(row: Event.Occurrence)
    ensures Lookup(Event.CreateEventDict(row), "event_start") == Some(row.eventStart)
    ensures Lookup(Event.CreateEventDict(row), "event") == Some(row.event)
    ensures Lookup(Event.CreateEventDict(row), "event_end") == row.eventEnd
  {
  }

  /** The marks of one event dict: `event['event']`, `event['event_start']`,
      `event['event_end']`, then `draw_schedule`. */
  function EventMarks(d: Event.EventDict, hourStart: int, hourEnd: int,
                      topHour: real, left: real, width: real, hHour: real, fontSize: real): (r: Result<seq<Mark>>)
    ensures r.Ok? ==> |r.value| == 2
  {
    match (Lookup(d, "event"), Lookup(d, "event_start"), Lookup(d, "event_end"))
    case (None, _, _) => Err(MissingKey("event"))
    case (_, None, _) => Err(MissingKey("event_start"))
    case (_, _, None) => Err(MissingKey("event_end"))
    case (Some(title), Some(start), Some(end)) =>
      EventBox(title, start, end, hourStart, hourEnd, topHour, left, width, hHour, fontSize)
  }

  /** An event dict `draw_schedule` can draw: its three keys are present
      and both clocks read. */
  predicate Drawable(d: Event.EventDict)
  {
    && Lookup(d, "event").Some? && Lookup(d, "event_start").Some? && Lookup(d, "event_end").Some?
    && ClockHours(Lookup(d, "event_start").value).Ok? && ClockHours(Lookup(d, "event_end").value).Ok?
  }

  /** With hours to divide, an event is drawn exactly when its dict is
      drawable, and then as the box of its clocks; without hours it fails
      unless a key is missing first. */
  lemma EventMarksOk(d: Event.EventDict, hourStart: int, hourEnd: int,
                     topHour: real, left: real, width: real, hHour: real, fontSize: real)
    ensures var r := EventMarks(d, hourStart, hourEnd, topHour, left, width, hHour, fontSize);
      && (hourStart != hourEnd ==> (r.Ok? <==> Drawable(d)))
      && (hourStart == hourEnd ==> r.Err?)
      && (r.Ok? ==> r.value == BoxAt(Lookup(d, "event").value, ClockHours(Lookup(d, "event_start").value).value,
                                     ClockHours(Lookup(d, "event_end").value).value,
                                     OneHour(hHour, hourStart, hourEnd).value, hourStart, topHour, left, width, fontSize))
  {
  }

  /** One drawing step after another: the marks of both, unless the first
      fails, which ends the drawing, or the second does. */
  function Then(first: Result<seq<Mark>>, second: Result<seq<Mark>>): (r: Result<seq<Mark>>)
    ensures r.Ok? <==> first.Ok? && second.Ok?
    ensures first.Err? ==> r == first
    ensures first.Ok? && second.Err? ==> r == second
    ensures r.Ok? ==> r.value == first.value + second.value
  {
    match first
    case Err(f) => Err(f)
    case Ok(marks) =>
      match second
      case Err(f) => Err(f)
      case Ok(rest) => Ok(marks + rest)
  }

  /** The marks of a sequence of drawing steps, in order; the first step
      that fails ends the drawing. */
  function Collect(steps: seq<Result<seq<Mark>>>): Result<seq<Mark>>
  {
    if |steps| == 0 then Ok([]) else Then(steps[0], Collect(steps[1..]))
  }

  /** Steps of two marks each collect into two marks per step, step `k`
      giving marks `2k` and `2k + 1`. */
  lemma {:induction false} CollectEach(steps: seq<Result<seq<Mark>>>, k: int)
    requires Collect(steps).Ok? && 0 <= k < |steps|
    requires forall i :: 0 <= i < |steps| && steps[i].Ok? ==> |steps[i].value| == 2
    ensures |Collect(steps).value| == 2 * |steps|
    ensures steps[k] == Ok(Collect(steps).value[2 * k..2 * k + 2])
    decreases |steps|
  {
    var marks := Collect(steps).value;
    var rest := Collect(steps[1..]).value;
    assert marks == steps[0].value + rest;
    if |steps| > 1 {
      assert forall i :: 0 <= i < |steps| - 1 ==> steps[1..][i] == steps[i + 1];
      CollectEach(steps[1..], if k == 0 then 0 else k - 1);
    }
    if k > 0 {
      assert steps[1..][k - 1] == steps[k];
      assert marks[2 * k..2 * k + 2] == rest[2 * (k - 1)..2 * (k - 1) + 2];
    } else {
      assert marks[..2] == steps[0].value;
    }
  }

  /** Collecting fails exactly when some step fails, and then with the
      fault of the first one that does. */
  lemma {:induction false} CollectFails(steps: seq<Result<seq<Mark>>>) returns (k: int)
    requires Collect(steps).Err?
    ensures 0 <= k < |steps| && steps[k] == Collect(steps)
    ensures forall j :: 0 <= j < k ==> steps[j].Ok?
    decreases |steps|
  {
    if steps[0].Err? {
      k := 0;
    } else {
      var k' := CollectFails(steps[1..]);
      k := k' + 1;
      assert forall j :: 0 < j <= k' ==> steps[1..][j - 1] == steps[j];
    }
  }

  /** The loop of `create_day` over the events of a day. */
  function DayBoxes(events: seq<Event.EventDict>, hourStart: int, hourEnd: int,
                    topHour: real, left: real, width: real, hHour: real, fontSize: real): Result<seq<Mark>>
  {
    Collect(seq(|events|, i requires 0 <= i < |events| =>
      EventMarks(events[i], hourStart, hourEnd, topHour, left, width, hHour, fontSize)))
  }

  /** A day that draws its events draws two marks per event, marks `2k` and
      `2k + 1` being those of event `k`. */
  lemma DayBoxesEach(events: seq<Event.EventDict>, hourStart: int, hourEnd: int,
                     topHour: real, left: real, width: real, hHour: real, fontSize: real, k: int)
    requires DayBoxes(events, hourStart, hourEnd, topHour, left, width, hHour, fontSize).Ok?
    requires 0 <= k < |events|
    ensures var marks := DayBoxes(events, hourStart, hourEnd, topHour, left, width, hHour, fontSize).value;
      && |marks| == 2 * |events|
      && EventMarks(events[k], hourStart, hourEnd, topHour, left, width, hHour, fontSize) == Ok(marks[2 * k..2 * k + 2])
  {
    CollectEach(seq(|events|, i requires 0 <= i < |events| =>
      EventMarks(events[i], hourStart, hourEnd, topHour, left, width, hHour, fontSize)), k);
  }

  /** A day fails exactly when one of its events fails, with the fault of
      the first such event. */
  lemma DayBoxesFails(events: seq<Event.EventDict>, hourStart: int, hourEnd: int,
                      topHour: real, left: real, width: real, hHour: real, fontSize: real)
    returns (k: int)
    requires DayBoxes(events, hourStart, hourEnd, topHour, left, width, hHour, fontSize).Err?
    ensures 0 <= k < |events|
    ensures EventMarks(events[k], hourStart, hourEnd, topHour, left, width, hHour, fontSize)
      == DayBoxes(events, hourStart, hourEnd, topHour, left, width, hHour, fontSize)
    ensures forall j :: 0 <= j < k ==> EventMarks(events[j], hourStart, hourEnd, topHour, left, width, hHour, fontSize).Ok?
  {
    var steps := seq(|events|, i requires 0 <= i < |events| =>
      EventMarks(events[i], hourStart, hourEnd, topHour, left, width, hHour, fontSize));
    k := CollectFails(steps);
    forall j | 0 <= j < k
      ensures EventMarks(events[j], hourStart, hourEnd, topHour, left, width, hHour, fontSize).Ok?
    {
      assert steps[j].Ok?;
    }
  }

  /** Collecting succeeds exactly when every step does. */
  lemma CollectOk(steps: seq<Result<seq<Mark>>>)
    ensures Collect(steps).Ok? <==> forall i :: 0 <= i < |steps| ==> steps[i].Ok?
  {
    if Collect(steps).Err? {
      var k := CollectFails(steps);
    } else if exists i :: 0 <= i < |steps| && steps[i].Err? {
      var i :| 0 <= i < |steps| && steps[i].Err?;
      CollectHasFailure(steps, i);
    }
  }

  /** When every step that fails fails alike, so does the collection. */
  lemma CollectFault(steps: seq<Result<seq<Mark>>>, fault: Fault)
    requires forall i :: 0 <= i < |steps| && steps[i].Err? ==> steps[i] == Err(fault)
    requires exists i :: 0 <= i < |steps| && steps[i].Err?
    ensures Collect(steps) == Err(fault)
  {
    var i :| 0 <= i < |steps| && steps[i].Err?;
    CollectHasFailure(steps, i);
    var k := CollectFails(steps);
  }

  /** With hours to divide, a day draws its events exactly when every one of
      them is drawable. */
  lemma DayBoxesOk(events: seq<Event.EventDict>, hourStart: int, hourEnd: int,
                   topHour: real, left: real, width: real, hHour: real, fontSize: real)
    requires hourStart != hourEnd
    ensures DayBoxes(events, hourStart, hourEnd, topHour, left, width, hHour, fontSize).Ok?
      <==> forall k :: 0 <= k < |events| ==> Drawable(events[k])
  {
    var steps := seq(|events|, i requires 0 <= i < |events| =>
      EventMarks(events[i], hourStart, hourEnd, topHour, left, width, hHour, fontSize));
    CollectOk(steps);
    forall k | 0 <= k < |events|
      ensures steps[k].Ok? <==> Drawable(events[k])
    {
      EventMarksOk(events[k], hourStart, hourEnd, topHour, left, width, hHour, fontSize);
    }
  }

  /** A failing step makes the whole collection fail. */
  lemma {:induction false} CollectHasFailure(steps: seq<Result<seq<Mark>>>, k: int)
    requires 0 <= k < |steps| && steps[k].Err?
    ensures Collect(steps).Err?
    decreases k
  {
    if k > 0 && steps[0].Ok? {
      assert steps[1..][k - 1] == steps[k];
      CollectHasFailure(steps[1..], k - 1);
    }
  }

  /** An event row without an end time stops the drawing of its day: the
      lookup of `event_end` raises. */
  lemma NoEndFails(events: seq<Event.EventDict>, row: Event.Occurrence, k: int, hourStart: int, hourEnd: int,
                   topHour: real, left: real, width: real, hHour: real, fontSize: real)
    requires 0 <= k < |events| && events[k] == Event.CreateEventDict(row) && row.eventEnd.None?
    ensures EventMarks(events[k], hourStart, hourEnd, topHour, left, width, hHour, fontSize) == Err(MissingKey("event_end"))
    ensures DayBoxes(events, hourStart, hourEnd, topHour, left, width, hHour, fontSize).Err?
  {
    LookupCreated(row);
    CollectHasFailure(seq(|events|, i requires 0 <= i < |events| =>
      EventMarks(events[i], hourStart, hourEnd, topHour, left, width, hHour, fontSize)), k);
  }
}
