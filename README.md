# Weekly vertical planner — a Dafny model of its core

The planner prints a year as an A5 booklet. Each page holds four vertical
day blocks side by side. A block has a date heading, memo rows, an hour
section ruled from `hour_start` to `hour_end` with a circle every ten
minutes, and boxes for the events of that day. The events come from a
sheet of weekly recurrence rules. Each rule gives a period, a weekday, a
clock range, a label and `;`-separated exception dates.

This project models and proves properties of four parts of that program.

- **The year grid and page plan** (`vercal.py`):
  - the days of a calendar year or of an April-to-March fiscal year;
  - each day's lane (0–3) on its page;
  - page numbering, where a new page starts when the lane goes down;
  - the "draw year and month" flag;
  - for every page, which days fill which lanes, which lanes are drawn empty, and where each block sits.
- **The drawing arithmetic** (`vercal.py`):
  - reading `"H:M"` clocks;
  - the hour labels and rulings;
  - the ten-minute circles;
  - the box of an event;
  - the key under which a day's events are looked up.
- **The drawing of the pages** (`vercal.py`):
  - `memo_section` and `date_section`;
  - the marks of a day block (`create_day`) and of an empty block (`draw_empty_block`);
  - the marks of every page of `calendar_weekly_vertical`, in drawing order;
  - exactly when the drawing of a year stops with an exception, and which.
- **The event schedule** (`event.py`):
  - expanding one rule into its dates;
  - parsing and removing the exception dates;
  - concatenating the rules' rows;
  - grouping the rows by date into event dicts.

Files and modules:

| file | module | contents |
|---|---|---|
| `dates.dfy` | `Dates` | proleptic Gregorian dates, Python's ordinal and weekday, `calendar.weekday`, `calendar.monthrange`, adding days with the 9999-12-31 limit |
| `text.dfy` | `Text` | `strftime('%Y-%m-%d')`, `strptime(…, '%Y-%m-%d')`, `int()`/`str()` on decimal text, `str.split`, ASCII `lower()`, Python string order |
| `event.dfy` | `Event` | `generate_dates`, `exclude_dates`, `generate_schedule`, `format_events`, `create_event_dict` |
| `yeargrid.dfy` | `YearGrid` | `generate_dates`, `create_year`, `add_position`, `add_page`, `add_draw_year_month`, `create_year_df` |
| `layout.dfy` | `Layout` | `string2float`, `hour_section`, `ten_minute`, `draw_schedule`, `draw_common_skeleton`, the event lookup of `create_day` |
| `pages.dfy` | `Pages` | the page loop of `calendar_weekly_vertical`: day blocks, empty blocks, block positions |
| `drawing.dfy` | `Drawing` | `memo_section`, `date_section`, `create_day`, `draw_empty_block` and the pages of `calendar_weekly_vertical` as sequences of marks |

Errors the source raises are modelled as `Result` values:

- an unknown weekday symbol (KeyError);
- a malformed date (ValueError from `strptime`);
- a date past 9999-12-31 (OverflowError from adding a `timedelta`);
- a rule whose period holds no matching day (KeyError `'date'` in `exclude_dates`);
- an empty rule sheet (ValueError from `pd.concat([])`);
- a schedule with no rows (TypeError in `format_events`: grouping an
  empty frame gives a frame, whose `reset_index` takes no `name`);
- a clock that is not `H:M` (ValueError);
- `hour_start == hour_end` (ZeroDivisionError);
- an event dict without `event_end` (KeyError);
- the default event frame of `create_day` and `calendar_weekly_vertical`,
  `pd.DataFrame()`, which has no `date` column (KeyError on the first day
  drawn).

The commented usage example in `event.py` writes its exception dates
separated by commas. The code splits on `;`, so such a cell is one
malformed date and the rule raises
(`Event.CommaSeparatedExceptionsRejected`).

Four behaviours of the code are easy to miss. The model follows the code:

- An event without an end: `create_event_dict` leaves the `event_end` key
  out, and `create_day` then raises KeyError when it draws that event
  (`Layout.NoEndFails`). No marker is drawn for it.
- A blank `except` string is not "no exceptions". The code splits `""`
  into one empty piece, which `strptime` rejects
  (`Event.EmptyExceptionsRejected`). Only a missing (non-string) cell means
  no exceptions.
- A period with no day on the rule's weekday does not give an empty
  frame. The code builds a frame without a `date` column, and
  `exclude_dates` raises KeyError (`Event.ExpandRule`, error
  `MissingDateColumn`).
- Exception dates are separated by `;` only. A comma does not separate
  them.

Integers are unbounded, as in Python. The point arithmetic of the drawing
code is modelled with `real` numbers.

## Model

| member | source | states |
|---|---|---|
| Dates.DaysInMonth | vercal.py:31 | a month has 28–31 days; fewer than 30 only in February, which has 29 exactly in leap years (`calendar.monthrange`) |
| Dates.CalendarWeekdayIs | vercal.py:32 | `calendar.weekday(y, m, d)`, computed on a year shifted into 2000–2399, equals the weekday of the date itself |
| Dates.CycleShift | vercal.py:32 | moving a date by whole 400-year cycles keeps it well formed, moves its ordinal by 146097 days per cycle and keeps its weekday |
| Dates.NextDayOrdinal | vercal.py:30-31 | the day after a date has the next ordinal, across month and year ends |
| Dates.PlusDays | event.py:44 | adding `n` days succeeds exactly when the result is not past 9999-12-31, and then the result is a valid date whose ordinal is `n` more |
| Dates.AddDaysWeekday | event.py:43-44 | `n` days after a date the weekday has advanced by `n` modulo 7 |
| Dates.AddDaysAdd | event.py:54 | adding `m` days and then `n` days is adding `m + n` days |
| Dates.AddDaysValid | event.py:54 | adding days that stay within 9999-12-31 gives a valid date `n` ordinals later |
| Dates.OrdinalOrder | event.py:46 | comparing two dates agrees with comparing their ordinals |
| Dates.OrdinalInjective | event.py:46 | two dates with the same ordinal are the same date |
| Dates.ValidByOrdinal | event.py:41-42 | a well-formed date is valid (year 1–9999) exactly when its ordinal is between 1 and that of 9999-12-31 |
| Text.FormatDate | event.py:48 | `strftime('%Y-%m-%d')` writes ten characters with dashes at positions 4 and 7 |
| Text.ParseDate | event.py:41 | every date `strptime` accepts is a valid date |
| Text.ParseDateLength | event.py:41 | `strptime` accepts only strings of 8 to 10 characters |
| Text.ParseFormat | event.py:28 | `strptime` reads back every date `strftime` writes |
| Text.FormatInjective | event.py:28 | two dates are written the same exactly when they are equal |
| Text.ParseNat | vercal.py:60 | a digit string reads as a number exactly when it is non-empty and all digits |
| Text.ParseNatText | vercal.py:60 | `int(str(n)) == n` for natural numbers |
| Text.ParseIntText | vercal.py:60 | `int(str(n)) == n` for every integer, signs included |
| Text.IntTextFourDigits | vercal.py:153 | `str(y)` of a four-digit year is its four digits |
| Text.NatText | vercal.py:108 | `str(n)` is a non-empty digit string without a leading zero |
| Text.Split | event.py:24 | `str.split(sep)` gives at least one part and no part holds the separator |
| Text.SplitWithout | vercal.py:60 | a string without the separator splits into itself alone |
| Text.JoinSplit | event.py:24 | joining the parts of a split with the separator gives back the string |
| Text.SplitJoin | vercal.py:60 | splitting a join of separator-free parts gives back the parts |
| Text.LowerIdempotent | event.py:40 | `lower()` lower-cases text once and for all: a second `lower()` changes nothing, only `A`–`Z` change, each to its own lower-case letter |
| Text.LessIrreflexive | event.py:71 | no string sorts before itself |
| Text.LessTransitive | event.py:71 | Python's string order is transitive |
| Text.LessTotal | event.py:71 | of two different strings exactly one sorts first, so `groupby` has one order for the dates |
| Event.WeekdayNumber | event.py:39-40 | the weekday symbol is known exactly when its lower-case form is one of the seven abbreviations, and its number names that abbreviation |
| Event.WeekdayAnyCase | event.py:40 | a weekday symbol is read in any case: it names the same day as its lower-case form, so `WED`, `Wed` and `wed` are all Wednesday |
| Event.Offset | event.py:43 | the days to the first target weekday are 0 to 6 |
| Event.Visit | event.py:44 | the `k`-th emitted date lies `Offset + 7k` days after the start |
| Event.VisitCountBound | event.py:46 | the `k`-th date is emitted exactly when it is not after the end of the period |
| Event.VisitInPeriod | event.py:46 | every emitted date is valid and within the period |
| Event.VisitWeekday | event.py:43-44 | every emitted date falls on the target weekday |
| Event.VisitFirst | event.py:43-44 | no day from the start up to the first emitted date falls on the target weekday |
| Event.VisitStep | event.py:54 | consecutive emitted dates are seven ordinals apart and fall on the same weekday |
| Event.VisitIndex | event.py:43-54 | every day on or after the start that falls on the target weekday is one of the emitted dates |
| Event.GenerateDates | event.py:35-55 | the method (lookup, parse, offset, the weekly loop) returns or raises exactly what the closed-form expansion `Expand` gives |
| Event.WeeklyDates | event.py:43-55 | from parsed dates, the first step and the loop give the expansion, including the OverflowError past 9999-12-31 |
| Event.WeeklyLoop | event.py:45-54 | the `while` loop emits the dates `Visits(…, VisitCount)` one week apart, or overflows exactly when the next date passes 9999-12-31 |
| Event.FirstStep | event.py:43-44 | the first date is the first visit; it overflows only when no date of the period can be emitted |
| Event.NextStep | event.py:54 | the next date is the next visit; it overflows only after the last date of the period |
| Event.ExpandRow | event.py:46-53 | row `k` of the expansion carries the `k`-th date, written with `strftime`, and the rule's own columns |
| Event.ExpandComplete | event.py:46-54 | every date of the period on the target weekday appears among the rows |
| Event.ExpandEmpty | event.py:46 | a period that ends before the first target weekday gives no rows |
| Event.ExpandSingleDay | event.py:35-55 | a one-day period on its own weekday gives exactly one row, for that day |
| Event.ExpandNoOverflow | event.py:44-54 | a period at least a week before 9999-12-31 never overflows |
| Event.ExpandOverflow | event.py:54 | a period ending on 9999-12-31 that is itself the target weekday raises OverflowError |
| Event.NormaliseDates | event.py:27-30 | normalising the exception pieces keeps their number |
| Event.NormaliseDatesSound | event.py:27-30 | each normalised exception is the canonical text of the date its piece names |
| Event.NormaliseDatesError | event.py:27-30 | normalising fails exactly when some piece is not a date, and it reports the first such piece |
| Event.NormaliseDatesIdempotent | event.py:28 | normalising normalised dates changes nothing |
| Event.CommaSeparatedExceptionsRejected | event.py:23-30 | an `except` cell with comma-separated dates is one malformed date |
| Event.EmptyExceptionsRejected | event.py:23-30 | an empty `except` string is one malformed date |
| Event.ExcludeDates | event.py:57-61 | the kept rows are rows of the input whose date is not an exception, and there are no more of them |
| Event.ExcludeDatesKeeps | event.py:61 | a row is kept exactly when it is an input row whose date is not an exception |
| Event.ExcludeDatesAppend | event.py:61 | filtering keeps row order: filtering a concatenation concatenates the filtered parts |
| Event.ExcludeDatesNothing | event.py:61 | no exceptions keep every row, and filtering twice is filtering once |
| Event.ExcludeDatesNoMatch | event.py:61 | exception dates that match no row leave the frame unchanged, row for row |
| Event.ExcludeDatesCount | event.py:61 | a row is kept exactly as many times as it occurs in the frame when its date is not an exception, and never when it is |
| Event.Outcomes | event.py:14-32 | there is one outcome per rule |
| Event.OutcomesAt | event.py:14-32 | outcome `i` is that of rule `i` alone |
| Event.OutcomesAppend | event.py:14-32 | the outcomes of concatenated rule sheets are the concatenated outcomes |
| Event.RunRule | event.py:15-32 | one pass of the loop body returns or raises what the rule's expansion, exception parsing and filter give |
| Event.GenerateSchedule | event.py:5-33 | the loop returns or raises exactly what `Schedule` gives: no rules raise, otherwise the first failing rule's error or all rows in rule order |
| Event.GatherStops | event.py:14-33 | once a rule has raised, later rules change nothing |
| Event.GatherFailsAt | event.py:14-33 | one failing rule makes the whole schedule fail |
| Event.GatherFirstError | event.py:14-33 | a failed schedule reports the error of its first failing rule, and every rule before it succeeded |
| Event.GatherAllOk | event.py:14-33 | a successful schedule means every rule succeeded |
| Event.GatherHas | event.py:14-33 | a successful schedule contains every row of every rule |
| Event.GatherSource | event.py:14-33 | every row of a successful schedule comes from some rule |
| Event.ScheduleAppend | event.py:5-33 | the schedule of two non-empty sheets is the first schedule followed by the second, or the first error |
| Event.ScheduleStops | event.py:14-33 | an error in the first `i + 1` rules is the schedule's error |
| Event.ScheduleHasRows | event.py:5-33 | a successful schedule contains, with multiplicity, every row each rule expands to |
| Event.ScheduleRowSource | event.py:5-33 | each row of a successful schedule comes from some rule's expansion |
| Event.ScheduleFailsAt | event.py:5-33 | any failing rule makes `generate_schedule` raise |
| Event.ScheduleFirstError | event.py:5-33 | a failing schedule raises the error of its first failing rule, every earlier rule having succeeded |
| Event.ExpandRuleSound | event.py:14-32 | every row of a rule is a valid date inside the period, on the rule's weekday, not an exception, and carries the rule's columns |
| Event.ExpandRuleComplete | event.py:14-32 | every day of the period on the rule's weekday that is not an exception has a row |
| Event.CreateEventDict | event.py:75-83 | the dict has `event_start` first and `event` last, and holds `event_end` exactly when the row has one, with its value |
| Event.InsertAscending | event.py:71-72 | adding a row keeps the groups in strictly ascending date order and adds no date other than the row's |
| Event.InsertMatching | event.py:71-72 | adding a row appends its dict to its own date's group and changes no other group |
| Event.InsertOccupied | event.py:71-72 | adding a row keeps every group non-empty and adds exactly one dict |
| Event.MatchingAbsent | event.py:71-72 | a date without a group has no events |
| Event.FormatEventsShape | event.py:63-73 | `format_events` raises TypeError exactly on a frame without rows; otherwise it gives groups in ascending date order, none empty, with one dict per input row |
| Event.FormatEventsMatching | event.py:63-73 | `format_events` raises exactly on a frame without rows; otherwise the group of a date lists the dicts of exactly the rows with that date, in row order |
| Event.MatchingPresent | event.py:71-72 | a date has events exactly when it has a group |
| Event.EventsOfPresent | event.py:71-72 | a date has dicts exactly when some row carries it |
| Event.FormatEventsDates | event.py:63-73 | `format_events` raises exactly on a frame without rows; otherwise the grouped dates are exactly the dates of the rows |
| Event.EmptyScheduleRaises | event.py:63-73 | a one-day rule on its own weekday whose date is also its exception gives a schedule without rows, on which `format_events` raises |
| YearGrid.DayRowNamed | vercal.py:32-34 | a row carries its date and the lower-case abbreviation of that date's weekday |
| YearGrid.GenerateDates | vercal.py:28-35 | the nested month/day loops produce the year's rows `YearDays` |
| YearGrid.YearDaysRun | vercal.py:28-35 | the rows of a year are consecutive days from January 1 to December 31, one per day of the year, each named by its weekday |
| YearGrid.YearDaysComplete | vercal.py:28-35 | every day of the year has a row |
| YearGrid.ChainOrdered | vercal.py:28-35 | rows appear in strictly increasing date order |
| YearGrid.ChainStep | vercal.py:32-33 | consecutive rows have consecutive weekdays |
| YearGrid.CreateYear | vercal.py:21-26 | the method returns the calendar year, or April to December followed by January to March of the next year |
| YearGrid.FiscalMonths | vercal.py:24-26 | the fiscal year is months 4–12 of `year` followed by months 1–3 of `year + 1` |
| YearGrid.FiscalThisYear | vercal.py:24 | `query('month > 3')` keeps exactly April to December, in order |
| YearGrid.FiscalNextYear | vercal.py:25 | `query('month < 4')` keeps exactly January to March, in order |
| YearGrid.FiscalYearRun | vercal.py:21-26 | the fiscal year runs day by day from April 1 to March 31 and has as many days as the next calendar year |
| YearGrid.FiscalYearComplete | vercal.py:21-26 | every day from April of `year` to March of `year + 1` has a row |
| YearGrid.MonthsAfterAppend | vercal.py:24 | the month filter keeps row order |
| YearGrid.MonthsUntilAppend | vercal.py:25 | the month filter keeps row order |
| YearGrid.IndexOf | vercal.py:48 | the weekday lookup finds a matching entry, and finds none exactly when the weekday is absent |
| YearGrid.WeekdayOrderAt | vercal.py:45 | each weekday sits at its place in the Monday-first or Sunday-first order |
| YearGrid.WeekdayOrderDistinct | vercal.py:45 | the weekday order lists no weekday twice |
| YearGrid.WeekdayOrderSame | vercal.py:45 | both orders list exactly the seven abbreviations |
| YearGrid.LaneTable | vercal.py:44-48 | a weekday gets a lane exactly when it is one of the seven abbreviations, and the lane is that of its weekday number |
| YearGrid.LaneAt | vercal.py:44-48 | each weekday number gets its lane through the merge |
| YearGrid.LaneMapAt | vercal.py:46 | lane `i` of the table is `i` modulo 4, shifted one lane right when not adjusted left |
| YearGrid.LaneStep | vercal.py:45-46 | from one day to the next the lane goes up by one or goes down |
| YearGrid.AddPosition | vercal.py:44-48 | the merge keeps the rows and their order |
| YearGrid.AddPositionAt | vercal.py:44-48 | every day's lane is the lane of its weekday |
| YearGrid.AddPage | vercal.py:37-42 | the loop over an array fills in `Pages`: page 1, plus one for every earlier drop in lane |
| YearGrid.IncrementFrom | vercal.py:41 | `df.loc[i:, page] += 1` adds one to every entry from `i` on and changes no other |
| YearGrid.PagesGrow | vercal.py:37-42 | pages never decrease and rise by at most one per row |
| YearGrid.SamePage | vercal.py:37-42 | two rows share a page exactly when the lane does not drop between them |
| YearGrid.PageCapacity | vercal.py:37-42 | with lanes rising one at a time, rows on one page sit in consecutive lanes, so a page holds at most four |
| YearGrid.AddDrawYearMonth | vercal.py:50-56 | the loop fills in `Flags`: set on the first of a month or where the lane drops |
| YearGrid.FlagsPages | vercal.py:50-56 | a row is flagged exactly when it is the first of a month or starts a new page |
| YearGrid.SpanRun | vercal.py:21-26 | both year shapes run day by day from their first day, January 1 or April 1 |
| YearGrid.PositionsStep | vercal.py:44-48 | along consecutive days every lane is 0–3 and rises one at a time or drops |
| YearGrid.CreateYearDf | vercal.py:13-19 | the method composes the four steps into `YearFrame` |
| YearGrid.FrameLane | vercal.py:13-19 | each frame row carries its day and the lane (0–3) of its weekday |
| YearGrid.FramePages | vercal.py:13-19 | the first page is 1; pages rise by at most one per row; rows on one page sit in consecutive lanes, at most four |
| YearGrid.FrameFlags | vercal.py:13-19 | the first row is flagged; a row is flagged exactly when it is the first of a month or starts a page |
| Layout.ClockRoundTrip | vercal.py:59-61 | `"H:M"` written from integers reads as `H + M / 60` |
| Layout.ClockWithoutColon | vercal.py:59-61 | text without a colon raises ValueError |
| Layout.ClockOrder | vercal.py:59-61 | a clock with minutes 0–59 lies within its hour, and clocks compare as (hour, minute) pairs |
| Layout.OneHour | vercal.py:103-104 | the hour height exists exactly when there are hours, and then it times the hour count is the section height; otherwise ZeroDivisionError |
| Layout.TwoPlacesReads | vercal.py:108 | `str(n).zfill(2)` reads back as `n`, has at least two characters, and is the two digits of `n` below 100 |
| Layout.TwoPlacesOneDigit | vercal.py:108 | a one-digit number gets one leading zero |
| Layout.RulingLevel | vercal.py:110 | the ruling `i` hours below the top is at the height of clock time `hour_start + i` |
| Layout.RulingDescends | vercal.py:110 | with a positive hour height, later rulings lie lower |
| Layout.HourLines | vercal.py:99-110 | one line per hour across the block, line `i` where hour `i` ends and the last on the bottom of the section |
| Layout.HourLabels | vercal.py:105-108 | with numbers, label `i` is at the left edge one font size below hour `i`'s height and reads as `hour_start + i` |
| Layout.HourLinesOnly | vercal.py:170 | an empty block's section draws only the lines, one per hour |
| Layout.HourLinesDescend | vercal.py:109-110 | the lines descend hour by hour, each below the top and no lower than the bottom edge (the last line is the bottom edge) |
| Layout.HourSectionNoHours | vercal.py:103-104 | `hour_start == hour_end` raises ZeroDivisionError |
| Layout.TenMinuteShape | vercal.py:85-97 | six circles per hour, every sixth at the start of an hour, all 0.12 of the way across the block, radius 0.5 and 1 alternately |
| Layout.TenMinuteInside | vercal.py:93-96 | every circle lies within the hour section, at or below the top and above the bottom |
| Layout.EventBoxFails | vercal.py:112-119 | an event's box is drawn exactly when there are hours and both clocks read; otherwise the first failure is raised |
| Layout.BoxPlacement | vercal.py:115-124 | the box runs from the start clock's height to the end clock's inside the block's width, stays inside the hour section for times within it, and the title is one font size below its top |
| Layout.SkeletonFills | vercal.py:127-134 | the hour section begins 25 mm below the top of the block and reaches its bottom edge |
| Layout.DateKeyFormat | vercal.py:153 | for years 1000–9999 the key of a day is its date as the event rows write it |
| Layout.DayEventsOf | vercal.py:153-154 | a day looks up exactly the events whose rows carry its date, in row order |
| Layout.Lookup | vercal.py:159 | a dict lookup succeeds exactly when the key is present, with its value |
| Layout.LookupCreated | vercal.py:159 | a row's dict yields its start, label and end when it has one |
| Layout.EventMarksOk | vercal.py:158-160 | with hours to divide, an event dict is drawn exactly when its three keys are present and its clocks read; without hours it raises; a drawn dict is the box of its title at its two clock values |
| Layout.DayBoxesEach | vercal.py:156-160 | a day draws two marks per event, in event order |
| Layout.DayBoxesFails | vercal.py:156-160 | a failing day reports the first event that fails, all earlier events having drawn |
| Layout.NoEndFails | vercal.py:156-160 | an event dict made from a row without `event_end` raises KeyError, and so does its day |
| Pages.PlanCalendar | vercal.py:178-206 | the method builds the year frame and returns the page plan `Plan` of it |
| Pages.PlanPages | vercal.py:187-206 | the loop over `unique()` pages returns `Plan` for any frame |
| Pages.PageBlocks | vercal.py:191-206 | the two loops of one page give its day blocks in row order followed by the empty lanes in lane order |
| Pages.DayBlocksStep | vercal.py:191-198 | each loop step adds the day's block at its lane's left edge |
| Pages.EmptyLanesStep | vercal.py:202-206 | a lane gets an empty block exactly when no day of the page uses it |
| Pages.BlocksPlaced | vercal.py:193-205 | every block of a page sits at `margin + w_day * lane` and at the page's top |
| Pages.BlocksLanes | vercal.py:191-206 | the blocks' lanes are the days' lanes followed by the unused lanes |
| Pages.CountEmpty | vercal.py:202-203 | each lane below four appears once among the empty lanes exactly when no day uses it |
| Pages.FourLanes | vercal.py:200-206 | distinct day lanes within 0–3 plus the empty lanes cover each of the four lanes exactly once |
| Pages.PageFull | vercal.py:191-206 | a page whose days sit in increasing lanes 0–3 draws exactly four blocks, one per lane |
| Pages.FrameOfPaged | vercal.py:36-48 | for any run of consecutive days named by their weekday, the rows built from it start on page 1, keep their pages in order, rise one page at a time, and hold increasing lanes 0–3 on each page |
| Pages.YearFramePaged | vercal.py:13-19 | a year frame starts on page 1, keeps its pages in order, rises one page at a time, and on each page has increasing lanes 0–3 |
| Pages.OnPageRising | vercal.py:189 | the rows selected for one page keep increasing lanes 0–3 |
| Pages.UniqueRun | vercal.py:187 | `unique()` of a sorted page column that starts at 1 and rises by at most one is 1, 2, …, last |
| Pages.PagesNumbered | vercal.py:187 | a year frame's pages are numbered 1 to the last page with none skipped |
| Pages.BlocksRows | vercal.py:191-206 | the day blocks of a page are its rows, in order |
| Pages.PlanRowsOf | vercal.py:187-198 | the days drawn across the pages are the rows of those pages, page after page |
| Pages.RowsAll | vercal.py:187-189 | taking the rows of pages 1 to `n` in turn gives back a frame sorted by page |
| Pages.PlanOfAt | vercal.py:187-206 | entry `k` of the plan is the blocks of page `pages[k]` |
| Pages.PlanNumbered | vercal.py:187-206 | there is one entry per page, entry `k` is page `k + 1`, and it draws four blocks, one in each lane |
| Pages.PlanCovers | vercal.py:187-198 | every day of the frame is drawn exactly once, in frame order |
| Pages.PlanPlaced | vercal.py:181-205 | every block is `w_day = (width - 2·margin) / 4` wide per lane, left edge `margin + w_day * lane`, top `margin + h_day` |
| Pages.YearPlan | vercal.py:173-210 | a year's plan has at least one page; every page is full with four lanes; its day blocks are every day of the year once, in order |
| Layout.DayBoxesOk | vercal.py:156-160 | with hours to divide, a day's events all draw exactly when every one of its dicts is drawable |
| Drawing.MemoShape | vercal.py:73-83 | the first memo line lies `h_year_month + h_wday_day` below the top and the second where the hour section of `draw_common_skeleton` starts; circle `i` has a positive radius, lies inside memo row `i` and clear of the left edge |
| Drawing.DateSectionText | vercal.py:67-71 | for a four-digit year the year-month label is the first seven characters of the date as the event rows write it, and the day label is its last two characters, a space and the weekday; the year-month label is drawn only when the row asks for it |
| Drawing.BlockFails | vercal.py:136-170 | a block fails exactly when there are no hours to divide or it is a day whose events cannot be drawn; without hours with ZeroDivisionError, and a day block with hours and a frame without `date` with KeyError |
| Drawing.DayBlockEnds | vercal.py:136-160 | a day block that draws has hours to divide, its events all draw, and its marks end with their boxes |
| Drawing.TailBoxPlaced | vercal.py:156-160 | in marks that end with a day's event boxes, event `k` is drawable and its box is the pair of marks `2k` into that tail, at its two clock values in the block's hour section |
| Drawing.PageFails | vercal.py:188-208 | a page fails exactly when one of its blocks does, and with their exception when all failing blocks raise the same |
| Drawing.PlanFails | vercal.py:188-208 | the pages fail exactly when a block of some page does, and with their exception when all failing blocks raise the same |
| Drawing.BlocksFail | vercal.py:188-206 | some block of a page fails exactly when one has no hours or is a failing day; without hours each failing block raises ZeroDivisionError, with hours and no `date` column KeyError |
| Drawing.PlanRowsFail | vercal.py:188-206 | some block of the plan is faulty exactly when there are no hours and some page has a block, or some day the plan draws fails |
| Drawing.PlanMarksFail | vercal.py:188-208 | the pages fail exactly when there are no hours and some page has a block, or a drawn day fails; without hours with ZeroDivisionError, with hours and no `date` column with KeyError |
| Drawing.PagedPlan | vercal.py:186-206 | the plan of a paged frame has a block on its first page and draws exactly the frame's rows, in order |
| Drawing.FramedPlanFails | vercal.py:188-208 | the pages of a plan with a block on its first page fail exactly when there are no hours or one of its rows is a failing day, with the exceptions above |
| Drawing.FrameFails | vercal.py:186-208 | the pages of a paged frame fail exactly when there are no hours or one of its days fails, with the exceptions above |
| Drawing.CalendarFails | vercal.py:173-209 | for every year and option, `calendar_weekly_vertical` raises exactly when `hour_start == hour_end` (ZeroDivisionError) or some day of the year has an event dict missing a key or with a clock that does not read (KeyError, ValueError); with hours and the default `pd.DataFrame()` it raises KeyError |

## Left out

- Drawing on a reportlab canvas: fonts, dash patterns, line widths, colours and `save`. The model produces the marks' coordinates and texts as values (`Layout.Mark`, with `showPage` as a mark of its own) instead.
- Font registration and `use_font`.
- The PDF path default and the font path default, which depend on the file system.
- The canvas state `create_day` sets (`setFont`, `setDash`, `setLineWidth`): the model keeps only where marks go and what they say.
- The `month` and `draw_day_box` parameters of `calendar_weekly_vertical`, which the code never reads.
- `streamlit_app.py`: the web front end.
- Reading and writing Excel sheets.
- The `__main__` blocks.
- Floating point. Point sizes, `mm` and `string2float` are modelled with exact reals, so rounding is not modelled.
- Cells other than strings: NaN is modelled as `None` for a missing `event_end`, and a non-string `except` cell is also modelled as `None`. Other cell types, such as the timestamps Excel makes of date cells, are not modelled; every other cell is a string.
- Layout.DayBoxes: `create_day` skips an event row whose `event` is not a list. Rows from `format_events` always hold lists, so that branch is not modelled.
- Text.ParseInt: `int()` also accepts surrounding whitespace, `_` between digits and non-ASCII digits. The model accepts an optional sign and ASCII digits only.
- Text.ParseDate: `strptime`'s `%Y`, `%m` and `%d` accept non-ASCII digits. The model accepts ASCII only.
- Text.FormatDate: writes the year with four digits. Python's `strftime` writes years below 1000 without padding on some platforms, which the model does not follow.
- Layout.DateKeyFormat: the key equals the event rows' date text only for years 1000–9999, since `str(year)` is not padded.
- Text.Lower: lower-cases ASCII letters only. Python's `lower()` covers all of Unicode, which matters only for weekday symbols outside ASCII, and those are rejected either way.
- The weekday abbreviations come from `calendar.day_abbr` in the C locale. A different locale would rename them, and then the merge in `add_position` would find no lane.
