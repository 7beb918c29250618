/** The canvas side of the weekly planner (vercal.py): `memo_section`,
    `date_section`, the blocks `create_day` and `draw_empty_block` build from
    the sections in Layout, and the pages of `calendar_weekly_vertical`.
    Each is the sequence of marks the canvas receives, in order, or the
    exception that stops the drawing. */
module Drawing {
  import opened Dates
  import opened Text
  import opened Layout
  import Event
  import YearGrid
  import Pages

  /** The event frame handed to `calendar_weekly_vertical`: the default
      `pd.DataFrame()`, which has no `date` column, or the groups that
      `format_events` returns. */
  datatype EventTable = Blank | Table(groups: seq<Event.Group>)

  /** `circle_no`: the circles of the memo rows. */
  const MEMO_CIRCLES: nat := 3

  /** `offset`: the gap between a block's right edge and the next lane. */
  const OFFSET: real := 1.0 * MM

  /** The font size of the hour labels and event titles, from the block's. */
  function HourFont(fontSize: real): real
  {
    fontSize * 0.7
  }

  // ---- memo_section and date_section ----

  /** `memo_section`: a line where the memo rows start, one where they end,
      then a column of circles, one per memo row. */
  function MemoSection(left: real, right: real, top: real): (marks: seq<Mark>)
    ensures |marks| == 2 + MEMO_CIRCLES
  {
    var distance := H_MEMO / MEMO_CIRCLES as real;
    var topLine := top - (H_YEAR_MONTH + H_WDAY_DAY);
    var bottomLine := top - (H_YEAR_MONTH + H_WDAY_DAY + H_MEMO);
    var topMemo := topLine - distance * 0.5;
    [Line(left, topLine, right, topLine), Line(left, bottomLine, right, bottomLine)]
      + seq(MEMO_CIRCLES, i requires 0 <= i < MEMO_CIRCLES =>
            Circle(left + distance * 0.5, topMemo - distance * i as real, distance / 3.0))
  }

  /** The memo rows lie below the two heading rows and end where the hour
      section of `draw_common_skeleton` starts; circle `i` sits inside memo
      row `i`, clear of the left edge. */
  lemma MemoShape(left: real, right: real, top: real, height: real, i: int)
    requires 0 <= i < MEMO_CIRCLES
    ensures var marks := MemoSection(left, right, top);
      var topLine := top - (H_YEAR_MONTH + H_WDAY_DAY);
      var row := H_MEMO / MEMO_CIRCLES as real;
      var c := marks[2 + i];
      && marks[0] == Line(left, topLine, right, topLine)
      && marks[1] == Line(left, Skeleton(top, height).0, right, Skeleton(top, height).0)
      && c.Circle? && 0.0 < c.radius
      && topLine - row * (i + 1) as real < c.y - c.radius
      && c.y + c.radius < topLine - row * i as real
      && left < c.x - c.radius
  {
  }

  /** `date_section`: `{year}-{month.zfill(2)}` one font size below the top
      when the row asks for it, then `{day.zfill(2)} {wday}` one font size
      below the weekday-day row's top. */
  function DateSection(left: real, top: real, row: YearGrid.YearRow, fontSize: real): (marks: seq<Mark>)
  {
    var yearMonth := IntText(row.year) + "-" + TwoPlaces(row.month);
    var dayLine := TwoPlaces(row.day) + " " + row.weekday;
    (if row.drawYearMonth then [Label(left, top - fontSize, yearMonth)] else [])
      + [Label(left, top - H_WDAY_DAY - fontSize, dayLine)]
  }

  /** For a date with a four-digit year, the year-month label is the first
      seven characters of the date as the event rows write it, and the day
      label starts with its last two, then the weekday. */
  lemma DateSectionText(left: real, top: real, row: YearGrid.YearRow, fontSize: real)
    requires Valid(Date(row.year, row.month, row.day)) && 1000 <= row.year
    ensures var marks := DateSection(left, top, row, fontSize);
      var text := FormatDate(Date(row.year, row.month, row.day));
      && |marks| == (if row.drawYearMonth then 2 else 1)
      && marks[|marks| - 1] == Label(left, top - H_WDAY_DAY - fontSize, text[8..] + " " + row.weekday)
      && (row.drawYearMonth ==> marks[0] == Label(left, top - fontSize, text[..7]))
  {
    var d := Date(row.year, row.month, row.day);
    IntTextFourDigits(row.year);
    TwoPlacesReads(row.month);
    TwoPlacesReads(row.day);
    var text := FormatDate(d);
    assert text == Digits(row.year, 4) + "-" + Digits(row.month, 2) + "-" + Digits(row.day, 2);
    assert text[..7] == Digits(row.year, 4) + "-" + Digits(row.month, 2);
    assert text[8..] == Digits(row.day, 2);
  }

  // ---- create_day and draw_empty_block ----

  /** The events of a day in `create_day`: the frame is filtered on its
      `date` column, which the default empty frame lacks (KeyError). */
  function DayEventMarks(table: EventTable, row: YearGrid.YearRow, hourStart: int, hourEnd: int,
                         topHour: real, left: real, width: real, hHour: real, fontSize: real): Result<seq<Mark>>
  {
    match table
    case Blank => Err(MissingKey("date"))
    case Table(groups) => DayBoxes(DayEvents(groups, row), hourStart, hourEnd, topHour, left, width, hHour, fontSize)
  }

  /** What `create_day` draws before the events: the memo rows, the
      ten-minute circles, the date labels and the hour section with its
      numbers. */
  function DayHead(left: real, right: real, top: real, row: YearGrid.YearRow, topHour: real, hHour: real,
                   fontSize: real, hourStart: int, hourEnd: int): Result<seq<Mark>>
  {
    Then(Ok(MemoSection(left, right, top)),
    Then(TenMinute(left, right, topHour, hHour, hourStart, hourEnd),
    Then(Ok(DateSection(left, top, row, fontSize)),
         HourSection(left, right, topHour, hHour, hourStart, hourEnd, HourFont(fontSize), true))))
  }

  /** A block of `w_day` by `h_day`. A day block is `create_day`: the memo
      rows, the ten-minute circles, the date labels, the hour section with
      its numbers, then the day's events. An empty block is
      `draw_empty_block`: the memo rows and the hour lines alone. */
  function BlockMarks(b: Pages.Block, wDay: real, hDay: real, fontSize: real,
                      hourStart: int, hourEnd: int, table: EventTable): Result<seq<Mark>>
  {
    var right := b.left + wDay - OFFSET;
    var (topHour, hHour) := Skeleton(b.top, hDay);
    match b
    case DayBlock(left, top, row) =>
      Then(DayHead(left, right, top, row, topHour, hHour, fontSize, hourStart, hourEnd),
           DayEventMarks(table, row, hourStart, hourEnd, topHour, left, wDay, hHour, HourFont(fontSize)))
    case EmptyBlock(left, _, _) =>
      Then(Ok(MemoSection(left, right, b.top)), HourSection(left, right, topHour, hHour, hourStart, hourEnd, 0.0, false))
  }

  /** A day whose events cannot be drawn: the frame has no `date` column, or
      one of the day's events lacks a key or has a clock that does not read. */
  predicate DayFails(table: EventTable, row: YearGrid.YearRow)
  {
    || table.Blank?
    || exists k :: 0 <= k < |DayEvents(table.groups, row)| && !Drawable(DayEvents(table.groups, row)[k])
  }

  /** A block fails exactly when there are no hours to divide, or it is a
      day whose events cannot be drawn. Without hours every block raises
      ZeroDivisionError: a day block in `ten_minute`, an empty one in
      `hour_section`. With hours and no `date` column a day block raises
      KeyError. */
  lemma BlockFails(b: Pages.Block, wDay: real, hDay: real, fontSize: real,
                   hourStart: int, hourEnd: int, table: EventTable)
    ensures var r := BlockMarks(b, wDay, hDay, fontSize, hourStart, hourEnd, table);
      && (r.Err? <==> hourStart == hourEnd || (b.DayBlock? && DayFails(table, b.row)))
      && (hourStart == hourEnd ==> r == Err(NoHours))
      && (hourStart != hourEnd && b.DayBlock? && table.Blank? ==> r == Err(MissingKey("date")))
  {
    var right := b.left + wDay - OFFSET;
    var (topHour, hHour) := Skeleton(b.top, hDay);
    if b.DayBlock? && table.Table? && hourStart != hourEnd {
      DayBoxesOk(DayEvents(table.groups, b.row), hourStart, hourEnd, topHour, b.left, wDay, hHour, HourFont(fontSize));
    }
  }

  /** Marks that end with the boxes of a day's events hold event `k`'s box
      at `2k` marks into that tail. */
  lemma {:induction false} TailBoxPlaced(marks: seq<Mark>, events: seq<Event.EventDict>, hourStart: int, hourEnd: int,
                      topHour: real, left: real, width: real, hHour: real, fontSize: real, k: int)
    requires 0 <= k < |events|
    requires DayBoxes(events, hourStart, hourEnd, topHour, left, width, hHour, fontSize).Ok?
    requires EndsWith(marks, DayBoxes(events, hourStart, hourEnd, topHour, left, width, hHour, fontSize).value)
    requires hourStart != hourEnd
    ensures var d := events[k];
      var at := |marks| - 2 * |events| + 2 * k;
      && Drawable(d) && 0 <= at && at + 2 <= |marks|
      && marks[at..at + 2]
         == BoxAt(Lookup(d, "event").value, ClockHours(Lookup(d, "event_start").value).value,
                  ClockHours(Lookup(d, "event_end").value).value, OneHour(hHour, hourStart, hourEnd).value,
                  hourStart, topHour, left, width, fontSize)
  {
    var boxes := DayBoxes(events, hourStart, hourEnd, topHour, left, width, hHour, fontSize).value;
    DayBoxesEach(events, hourStart, hourEnd, topHour, left, width, hHour, fontSize, k);
    EventMarksOk(events[k], hourStart, hourEnd, topHour, left, width, hHour, fontSize);
    EndsWithSlice(marks, boxes, 2 * k);
  }

  /** Where a day block draws its events: a day block that draws has hours
      to divide, and after the memo rows, the circles, the date labels and
      the hour section come the boxes of the day's events, last. */
  lemma DayBlockEnds(b: Pages.Block, wDay: real, hDay: real, fontSize: real,
                     hourStart: int, hourEnd: int, groups: seq<Event.Group>)
    requires b.DayBlock?
    requires BlockMarks(b, wDay, hDay, fontSize, hourStart, hourEnd, Table(groups)).Ok?
    ensures var topHour := Skeleton(b.top, hDay).0;
      var hHour := Skeleton(b.top, hDay).1;
      var boxes := DayBoxes(DayEvents(groups, b.row), hourStart, hourEnd, topHour, b.left, wDay, hHour, HourFont(fontSize));
      && hourStart != hourEnd && boxes.Ok?
      && EndsWith(BlockMarks(b, wDay, hDay, fontSize, hourStart, hourEnd, Table(groups)).value, boxes.value)
  {
    var right := b.left + wDay - OFFSET;
    var topHour, hHour := Skeleton(b.top, hDay).0, Skeleton(b.top, hDay).1;
    var head := DayHead(b.left, right, b.top, b.row, topHour, hHour, fontSize, hourStart, hourEnd);
    var boxes := DayBoxes(DayEvents(groups, b.row), hourStart, hourEnd, topHour, b.left, wDay, hHour, HourFont(fontSize));
    assert BlockMarks(b, wDay, hDay, fontSize, hourStart, hourEnd, Table(groups)) == Then(head, boxes);
    assert head.Ok?;
    assert TenMinute(b.left, right, topHour, hHour, hourStart, hourEnd).Ok?;
  }

  /** `s` ends with `t`. */
  predicate EndsWith(s: seq<Mark>, t: seq<Mark>)
  {
    |t| <= |s| && s[|s| - |t|..] == t
  }

  /** Marks `i` and `i + 1` of a tail are those of the whole sequence, counted
      from where the tail starts. */
  lemma {:induction false} EndsWithSlice(s: seq<Mark>, t: seq<Mark>, i: int)
    requires EndsWith(s, t) && 0 <= i && i + 2 <= |t|
    ensures s[|s| - |t| + i..|s| - |t| + i + 2] == t[i..i + 2]
  {
    assert t[i..i + 2] == s[|s| - |t|..][i..i + 2];
  }

  // ---- the pages of calendar_weekly_vertical ----

  /** The blocks of a page, each drawn in turn. */
  function BlockSteps(blocks: seq<Pages.Block>, wDay: real, hDay: real, fontSize: real,
                      hourStart: int, hourEnd: int, table: EventTable): (steps: seq<Result<seq<Mark>>>)
    ensures |steps| == |blocks|
  {
    seq(|blocks|, i requires 0 <= i < |blocks| => BlockMarks(blocks[i], wDay, hDay, fontSize, hourStart, hourEnd, table))
  }

  /** One page: its blocks, then `showPage`. */
  function PageMarks(page: Pages.PagePlan, wDay: real, hDay: real, fontSize: real,
                     hourStart: int, hourEnd: int, table: EventTable): Result<seq<Mark>>
  {
    Collect(BlockSteps(page.blocks, wDay, hDay, fontSize, hourStart, hourEnd, table) + [Ok([ShowPage])])
  }

  /** The pages of a plan, in order. */
  function PlanMarks(plan: seq<Pages.PagePlan>, wDay: real, hDay: real, fontSize: real,
                     hourStart: int, hourEnd: int, table: EventTable): Result<seq<Mark>>
  {
    Collect(seq(|plan|, k requires 0 <= k < |plan| => PageMarks(plan[k], wDay, hDay, fontSize, hourStart, hourEnd, table)))
  }

  /** The marks of every page of `frame` on a page of `width` by `height`
      with `margin`: `w_day = (width - 2 margin) / 4` and
      `h_day = height - 2 margin`. */
  function FrameMarks(frame: seq<Pages.Row>, width: real, height: real, margin: real, fontSize: real,
                      hourStart: int, hourEnd: int, table: EventTable): Result<seq<Mark>>
  {
    PlanMarks(Pages.Plan(frame, width, height, margin),
              Pages.LaneWidth(width, margin), Pages.DayHeight(height, margin), fontSize, hourStart, hourEnd, table)
  }

  /** `calendar_weekly_vertical`: the year frame, its plan, and the marks of
      every page. */
  function CalendarMarks(year: int, startApril: bool, startsWithMon: bool, adjustLeft: bool,
                         width: real, height: real, margin: real, fontSize: real,
                         hourStart: int, hourEnd: int, table: EventTable): Result<seq<Mark>>
  {
    FrameMarks(YearGrid.YearFrame(year, startApril, startsWithMon, adjustLeft), width, height, margin,
               fontSize, hourStart, hourEnd, table)
  }

  /** Some drawing step fails. */
  predicate Errs(steps: seq<Result<seq<Mark>>>)
  {
    exists i :: 0 <= i < |steps| && steps[i].Err?
  }

  /** Every drawing step that fails raises `f`. */
  predicate ErrsWith(steps: seq<Result<seq<Mark>>>, f: Fault)
  {
    forall i :: 0 <= i < |steps| && steps[i].Err? ==> steps[i] == Err(f)
  }

  /** Collecting fails exactly when a step does; when every failing step
      raises `f`, so does the collection. */
  lemma {:induction false} CollectErrs(steps: seq<Result<seq<Mark>>>, f: Fault)
    ensures Collect(steps).Err? <==> Errs(steps)
    ensures Errs(steps) && ErrsWith(steps, f) ==> Collect(steps) == Err(f)
  {
    CollectOk(steps);
    if Errs(steps) && ErrsWith(steps, f) {
      CollectFault(steps, f);
    }
  }

  /** A step that cannot fail changes neither predicate. */
  lemma {:induction false} ErrsAppendOk(steps: seq<Result<seq<Mark>>>, last: Result<seq<Mark>>, f: Fault)
    requires last.Ok?
    ensures Errs(steps + [last]) <==> Errs(steps)
    ensures ErrsWith(steps + [last], f) <==> ErrsWith(steps, f)
  {
    var all := steps + [last];
    assert forall i :: 0 <= i < |steps| ==> all[i] == steps[i];
    if Errs(all) {
      var i :| 0 <= i < |all| && all[i].Err?;
      assert i < |steps| && steps[i].Err?;
    }
  }

  /** A page fails exactly when one of its blocks does; when every failing
      block raises the same exception, so does the page. */
  lemma PageFails(page: Pages.PagePlan, wDay: real, hDay: real, fontSize: real,
                  hourStart: int, hourEnd: int, table: EventTable, f: Fault)
    ensures var r := PageMarks(page, wDay, hDay, fontSize, hourStart, hourEnd, table);
      var blocks := BlockSteps(page.blocks, wDay, hDay, fontSize, hourStart, hourEnd, table);
      && (r.Err? <==> Errs(blocks))
      && (Errs(blocks) && ErrsWith(blocks, f) ==> r == Err(f))
  {
    var blocks := BlockSteps(page.blocks, wDay, hDay, fontSize, hourStart, hourEnd, table);
    ErrsAppendOk(blocks, Ok([ShowPage]), f);
    CollectErrs(blocks + [Ok([ShowPage])], f);
  }

  /** A plan fails exactly when a block of one of its pages does; when every
      failing block raises the same exception, so does the plan. */
  lemma {:induction false} PlanFails(plan: seq<Pages.PagePlan>, wDay: real, hDay: real, fontSize: real,
                  hourStart: int, hourEnd: int, table: EventTable, f: Fault)
    ensures var r := PlanMarks(plan, wDay, hDay, fontSize, hourStart, hourEnd, table);
      && (r.Err? <==> exists k :: 0 <= k < |plan| && Errs(BlockSteps(plan[k].blocks, wDay, hDay, fontSize, hourStart, hourEnd, table)))
      && ((exists k :: 0 <= k < |plan| && Errs(BlockSteps(plan[k].blocks, wDay, hDay, fontSize, hourStart, hourEnd, table)))
          && (forall k :: 0 <= k < |plan| ==> ErrsWith(BlockSteps(plan[k].blocks, wDay, hDay, fontSize, hourStart, hourEnd, table), f))
          ==> r == Err(f))
  {
    var steps := seq(|plan|, k requires 0 <= k < |plan| => PageMarks(plan[k], wDay, hDay, fontSize, hourStart, hourEnd, table));
    forall k | 0 <= k < |plan|
      ensures steps[k].Err? <==> Errs(BlockSteps(plan[k].blocks, wDay, hDay, fontSize, hourStart, hourEnd, table))
      ensures (Errs(BlockSteps(plan[k].blocks, wDay, hDay, fontSize, hourStart, hourEnd, table))
        && ErrsWith(BlockSteps(plan[k].blocks, wDay, hDay, fontSize, hourStart, hourEnd, table), f))
        ==> steps[k] == Err(f)
    {
      PageFails(plan[k], wDay, hDay, fontSize, hourStart, hourEnd, table, f);
    }
    CollectErrs(steps, f);
  }

  /** Some row among `rows` is a day that cannot draw its events. */
  predicate RowsFail(table: EventTable, rows: seq<Pages.Row>)
  {
    exists j :: 0 <= j < |rows| && DayFails(table, rows[j])
  }

  /** How the drawing of `rows` ends: in an error exactly when there are no
      hours to divide or one of the rows' days cannot draw its events;
      without hours with ZeroDivisionError, with hours and no `date` column
      with KeyError. */
  predicate FailsAsRows(r: Result<seq<Mark>>, hourStart: int, hourEnd: int, table: EventTable, rows: seq<Pages.Row>)
  {
    && r.Err? == (hourStart == hourEnd || RowsFail(table, rows))
    && (hourStart == hourEnd ==> r == Err(NoHours))
    && (hourStart != hourEnd && table.Blank? ==> r == Err(MissingKey("date")))
  }

  /** Why a block fails: no hours to divide, or a day that cannot draw its
      events. */
  predicate Faulty(b: Pages.Block, hourStart: int, hourEnd: int, table: EventTable)
  {
    hourStart == hourEnd || (b.DayBlock? && DayFails(table, b.row))
  }

  /** The blocks of one page, block by block. */
  lemma {:induction false} BlocksFail(blocks: seq<Pages.Block>, wDay: real, hDay: real, fontSize: real,
                   hourStart: int, hourEnd: int, table: EventTable)
    ensures var steps := BlockSteps(blocks, wDay, hDay, fontSize, hourStart, hourEnd, table);
      && (Errs(steps) <==> exists i :: 0 <= i < |blocks| && Faulty(blocks[i], hourStart, hourEnd, table))
      && (hourStart == hourEnd ==> ErrsWith(steps, NoHours))
      && (hourStart != hourEnd && table.Blank? ==> ErrsWith(steps, MissingKey("date")))
  {
    var steps := BlockSteps(blocks, wDay, hDay, fontSize, hourStart, hourEnd, table);
    forall i | 0 <= i < |blocks|
      ensures && (steps[i].Err? <==> Faulty(blocks[i], hourStart, hourEnd, table))
        && (hourStart == hourEnd ==> steps[i] == Err(NoHours))
        && (hourStart != hourEnd && table.Blank? && steps[i].Err? ==> steps[i] == Err(MissingKey("date")))
    {
      BlockFails(blocks[i], wDay, hDay, fontSize, hourStart, hourEnd, table);
    }
  }

  /** The blocks of a plan fail exactly when there are no hours and some
      page has a block, or some row the plan draws is a day that fails. */
  lemma {:induction false} PlanRowsFail(plan: seq<Pages.PagePlan>, hourStart: int, hourEnd: int, table: EventTable)
    ensures (exists k, i :: 0 <= k < |plan| && 0 <= i < |plan[k].blocks| && Faulty(plan[k].blocks[i], hourStart, hourEnd, table))
      <==> ((hourStart == hourEnd && exists k :: 0 <= k < |plan| && |plan[k].blocks| > 0)
            || (exists j :: 0 <= j < |Pages.PlanRows(plan)| && DayFails(table, Pages.PlanRows(plan)[j])))
  {
    var rows := Pages.PlanRows(plan);
    if exists j :: 0 <= j < |rows| && DayFails(table, rows[j]) {
      var j :| 0 <= j < |rows| && DayFails(table, rows[j]);
      var x := rows[j];
      Pages.PlanRowsHas(plan, x);
      var k, i :| 0 <= k < |plan| && 0 <= i < |plan[k].blocks| && plan[k].blocks[i].DayBlock? && plan[k].blocks[i].row == x;
      assert Faulty(plan[k].blocks[i], hourStart, hourEnd, table);
    }
    if hourStart == hourEnd && exists k :: 0 <= k < |plan| && |plan[k].blocks| > 0 {
      var k :| 0 <= k < |plan| && |plan[k].blocks| > 0;
      assert Faulty(plan[k].blocks[0], hourStart, hourEnd, table);
    }
    if hourStart != hourEnd && exists k, i :: 0 <= k < |plan| && 0 <= i < |plan[k].blocks| && Faulty(plan[k].blocks[i], hourStart, hourEnd, table) {
      var k, i :| 0 <= k < |plan| && 0 <= i < |plan[k].blocks| && Faulty(plan[k].blocks[i], hourStart, hourEnd, table);
      var x := plan[k].blocks[i].row;
      Pages.PlanRowsHas(plan, x);
      var j :| 0 <= j < |rows| && rows[j] == x;
    }
  }

  /** The pages of a plan fail exactly when there are no hours and some
      page has a block, or some row the plan draws is a day that fails;
      without hours with ZeroDivisionError, with hours and the default event
      frame with KeyError. */
  lemma {:induction false} PlanMarksFail(plan: seq<Pages.PagePlan>, rows: seq<Pages.Row>, wDay: real, hDay: real, fontSize: real,
                      hourStart: int, hourEnd: int, table: EventTable)
    requires rows == Pages.PlanRows(plan)
    ensures var r := PlanMarks(plan, wDay, hDay, fontSize, hourStart, hourEnd, table);
      && (r.Err? <==> ((hourStart == hourEnd && exists k :: 0 <= k < |plan| && |plan[k].blocks| > 0)
                      || RowsFail(table, rows)))
      && (r.Err? && hourStart == hourEnd ==> r == Err(NoHours))
      && (r.Err? && hourStart != hourEnd && table.Blank? ==> r == Err(MissingKey("date")))
  {
    forall k | 0 <= k < |plan|
      ensures var steps := BlockSteps(plan[k].blocks, wDay, hDay, fontSize, hourStart, hourEnd, table);
        && (Errs(steps) <==> exists i :: 0 <= i < |plan[k].blocks| && Faulty(plan[k].blocks[i], hourStart, hourEnd, table))
        && (hourStart == hourEnd ==> ErrsWith(steps, NoHours))
        && (hourStart != hourEnd && table.Blank? ==> ErrsWith(steps, MissingKey("date")))
    {
      BlocksFail(plan[k].blocks, wDay, hDay, fontSize, hourStart, hourEnd, table);
    }
    PlanRowsFail(plan, hourStart, hourEnd, table);
    var f := if hourStart == hourEnd then NoHours else MissingKey("date");
    PlanFails(plan, wDay, hDay, fontSize, hourStart, hourEnd, table, f);
  }

  /** The plan of a paged frame has a block on its first page and draws
      the frame's rows. */
  lemma {:induction false} PagedPlan(frame: seq<Pages.Row>, width: real, height: real, margin: real)
    requires Pages.Paged(frame)
    ensures var plan := Pages.Plan(frame, width, height, margin);
      |frame| > 0 && |plan| > 0 && |plan[0].blocks| > 0 && Pages.PlanRows(plan) == frame
  {
    var plan := Pages.Plan(frame, width, height, margin);
    Pages.PlanNumbered(frame, width, height, margin);
    Pages.PlanCovers(frame, width, height, margin);
    assert Pages.Full(plan[0], 1);
  }

  /** The marks of a plan with a block on its first page fail exactly
      where its rows do. */
  lemma {:induction false} FramedPlanFails(plan: seq<Pages.PagePlan>, frame: seq<Pages.Row>, r: Result<seq<Mark>>,
                        wDay: real, hDay: real, fontSize: real, hourStart: int, hourEnd: int, table: EventTable)
    requires |frame| > 0 && |plan| > 0 && |plan[0].blocks| > 0 && Pages.PlanRows(plan) == frame
    requires r == PlanMarks(plan, wDay, hDay, fontSize, hourStart, hourEnd, table)
    ensures FailsAsRows(r, hourStart, hourEnd, table, frame)
  {
    PlanMarksFail(plan, frame, wDay, hDay, fontSize, hourStart, hourEnd, table);
    var first := frame[0];
    assert DayFails(table, first) <== table.Blank?;
  }

  /** The marks of a paged frame are those of a plan with a block on its
      first page that draws the frame's rows. */
  lemma {:induction false} FramePlan(frame: seq<Pages.Row>, width: real, height: real, margin: real, fontSize: real,
                  hourStart: int, hourEnd: int, table: EventTable) returns (plan: seq<Pages.PagePlan>, r: Result<seq<Mark>>)
    requires Pages.Paged(frame)
    ensures r == FrameMarks(frame, width, height, margin, fontSize, hourStart, hourEnd, table)
    ensures r == PlanMarks(plan, Pages.LaneWidth(width, margin), Pages.DayHeight(height, margin), fontSize, hourStart, hourEnd, table)
    ensures |frame| > 0 && |plan| > 0 && |plan[0].blocks| > 0 && Pages.PlanRows(plan) == frame
  {
    plan := Pages.Plan(frame, width, height, margin);
    r := FrameMarks(frame, width, height, margin, fontSize, hourStart, hourEnd, table);
    PagedPlan(frame, width, height, margin);
  }

  /** The marks of a paged frame fail exactly when there are no hours to
      divide, or one of its days cannot draw its events: without hours with
      ZeroDivisionError, with hours and the default event frame, which has
      no `date` column, with KeyError. */
  lemma {:induction false} FrameFails(frame: seq<Pages.Row>, width: real, height: real, margin: real, fontSize: real,
                   hourStart: int, hourEnd: int, table: EventTable)
    requires Pages.Paged(frame)
    ensures FailsAsRows(FrameMarks(frame, width, height, margin, fontSize, hourStart, hourEnd, table), hourStart, hourEnd, table, frame)
  {
    var plan, r := FramePlan(frame, width, height, margin, fontSize, hourStart, hourEnd, table);
    FramedPlanFails(plan, frame, r, Pages.LaneWidth(width, margin), Pages.DayHeight(height, margin), fontSize, hourStart, hourEnd, table);
  }

  /** The calendar of a year fails exactly when there are no hours to
      divide, or one of the year's days cannot draw its events: without
      hours with ZeroDivisionError, with hours and the default event frame,
      which has no `date` column, with KeyError. */
  lemma CalendarFails(year: int, startApril: bool, startsWithMon: bool, adjustLeft: bool,
                      width: real, height: real, margin: real, fontSize: real,
                      hourStart: int, hourEnd: int, table: EventTable)
    ensures FailsAsRows(CalendarMarks(year, startApril, startsWithMon, adjustLeft, width, height, margin, fontSize, hourStart, hourEnd, table),
                        hourStart, hourEnd, table, YearGrid.YearFrame(year, startApril, startsWithMon, adjustLeft))
  {
    Pages.YearFramePaged(year, startApril, startsWithMon, adjustLeft);
    FrameFails(YearGrid.YearFrame(year, startApril, startsWithMon, adjustLeft), width, height, margin,
               fontSize, hourStart, hourEnd, table);
  }
}
