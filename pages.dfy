/** The page loop of `calendar_weekly_vertical` (vercal.py): for every page
    number of the year frame, a day block for each of its rows, placed by
    the row's lane, then an empty block for each of the four lanes no row
    of the page uses. */
module Pages {
  import YearGrid

  type Row = YearGrid.YearRow

  /** Days drawn side by side on one page. */
  const DAYS_PER_PAGE: int := 4

  /** One block of a page: `create_day` for a row, `draw_empty_block` for an
      unused lane. Both stand at `(left, top)`. */
  datatype Block =
    | DayBlock(left: real, top: real, row: Row)
    | EmptyBlock(left: real, top: real, lane: int)

  /** The blocks drawn on one page before `showPage`. */
  datatype PagePlan = PagePlan(page: int, blocks: seq<Block>)

  /** The lane a block stands in. */
  function LaneOf(b: Block): int
  {
    if b.DayBlock? then b.row.position else b.lane
  }

  function Lanes(blocks: seq<Block>): (r: seq<int>)
    ensures |r| == |blocks| && forall i :: 0 <= i < |blocks| ==> r[i] == LaneOf(blocks[i])
  {
    seq(|blocks|, i requires 0 <= i < |blocks| => LaneOf(blocks[i]))
  }

  // ---- the pandas steps ----

  /** `df_year['page']`. */
  function PageColumn(frame: seq<Row>): (r: seq<int>)
    ensures |r| == |frame| && forall i :: 0 <= i < |frame| ==> r[i] == frame[i].page
  {
    seq(|frame|, i requires 0 <= i < |frame| => frame[i].page)
  }

  /** `unique()`: the values in the order they first appear. */
  function Unique(s: seq<int>): seq<int>
  {
    if |s| == 0 then []
    else
      var init := s[..|s| - 1];
      Unique(init) + (if s[|s| - 1] in init then [] else [s[|s| - 1]])
  }

  /** `df_year[df_year['page'] == p]`: the rows of page `p`, in order. */
  function OnPage(frame: seq<Row>, p: int): seq<Row>
  {
    if |frame| == 0 then []
    else
      var last := frame[|frame| - 1];
      OnPage(frame[..|frame| - 1], p) + (if last.page == p then [last] else [])
  }

  /** `df_page['position'].tolist()`. */
  function PageLanes(rows: seq<Row>): (r: seq<int>)
    ensures |r| == |rows| && forall i :: 0 <= i < |rows| ==> r[i] == rows[i].position
  {
    seq(|rows|, i requires 0 <= i < |rows| => rows[i].position)
  }

  // ---- one page ----

  /** The left edge of lane `lane`: `margin + w_day * lane`. */
  function LaneLeft(margin: real, wDay: real, lane: int): real
  {
    margin + wDay * lane as real
  }

  /** A day block for each row, `margin + w_day * position` from the left. */
  function DayBlocks(rows: seq<Row>, margin: real, wDay: real, top: real): (r: seq<Block>)
    ensures |r| == |rows|
  {
    if |rows| == 0 then []
    else
      var last := rows[|rows| - 1];
      DayBlocks(rows[..|rows| - 1], margin, wDay, top) + [DayBlock(LaneLeft(margin, wDay, last.position), top, last)]
  }

  /** The lanes below `n` that `existing` does not hold, ascending. */
  function EmptyLanes(existing: seq<int>, n: int): seq<int>
    decreases n
  {
    if n <= 0 then []
    else EmptyLanes(existing, n - 1) + (if n - 1 in existing then [] else [n - 1])
  }

  /** An empty block for each of `lanes`, `margin + w_day * pos` from the left. */
  function EmptyBlocks(lanes: seq<int>, margin: real, wDay: real, top: real): (r: seq<Block>)
    ensures |r| == |lanes|
  {
    if |lanes| == 0 then []
    else
      var last := lanes[|lanes| - 1];
      EmptyBlocks(lanes[..|lanes| - 1], margin, wDay, top) + [EmptyBlock(LaneLeft(margin, wDay, last), top, last)]
  }

  /** The blocks of a page: its days, then its unused lanes. */
  function Blocks(rows: seq<Row>, margin: real, wDay: real, top: real): seq<Block>
  {
    DayBlocks(rows, margin, wDay, top) + EmptyBlocks(EmptyLanes(PageLanes(rows), DAYS_PER_PAGE), margin, wDay, top)
  }

  /** The plans of the pages numbered in `pages`, in that order. */
  function PlanOf(frame: seq<Row>, pages: seq<int>, margin: real, wDay: real, top: real): (r: seq<PagePlan>)
    ensures |r| == |pages|
  {
    if |pages| == 0 then []
    else
      var p := pages[|pages| - 1];
      PlanOf(frame, pages[..|pages| - 1], margin, wDay, top) + [PagePlan(p, Blocks(OnPage(frame, p), margin, wDay, top))]
  }

  /** `w_day`: the width between the margins shared by the four lanes. */
  function LaneWidth(width: real, margin: real): real
  {
    (width - 2.0 * margin) / DAYS_PER_PAGE as real
  }

  /** The top of the blocks: `margin + h_day` with `h_day = height - 2 margin`. */
  function BlockTop(height: real, margin: real): real
  {
    margin + DayHeight(height, margin)
  }

  /** `h_day = height - 2 margin`: the height of a block. */
  function DayHeight(height: real, margin: real): real
  {
    height - 2.0 * margin
  }

  /** The plan of a frame on a page of `width` by `height` with `margin`. */
  function Plan(frame: seq<Row>, width: real, height: real, margin: real): seq<PagePlan>
  {
    PlanOf(frame, Unique(PageColumn(frame)), margin, LaneWidth(width, margin), BlockTop(height, margin))
  }

  /** `calendar_weekly_vertical` without the canvas: the year frame, then
      its pages. */
  method PlanCalendar(year: int, startApril: bool, startsWithMon: bool, adjustLeft: bool,
                      width: real, height: real, margin: real) returns (plan: seq<PagePlan>)
    ensures plan == Plan(YearGrid.YearFrame(year, startApril, startsWithMon, adjustLeft), width, height, margin)
  {
    var frame := YearGrid.CreateYearDf(year, startApril, startsWithMon, adjustLeft);
    plan := PlanPages(frame, width, height, margin);
  }

  /** The loop over `df_year['page'].unique()`: for each page its rows,
      then its blocks. */
  method PlanPages(frame: seq<Row>, width: real, height: real, margin: real) returns (plan: seq<PagePlan>)
    ensures plan == Plan(frame, width, height, margin)
  {
    var wDay := LaneWidth(width, margin);
    var top := BlockTop(height, margin);
    var pages := Unique(PageColumn(frame));
    plan := [];
    for k := 0 to |pages|
      invariant plan == PlanOf(frame, pages[..k], margin, wDay, top)
    {
      var p := pages[k];
      var rows := OnPage(frame, p);
      var blocks := PageBlocks(rows, margin, wDay, top);
      PlanOfStep(frame, pages, k, margin, wDay, top);
      plan := plan + [PagePlan(p, blocks)];
    }
    assert pages[..|pages|] == pages;
  }

  /** One more page number adds that page's plan. */
  lemma PlanOfStep(frame: seq<Row>, pages: seq<int>, k: int, margin: real, wDay: real, top: real)
    requires 0 <= k < |pages|
    ensures PlanOf(frame, pages[..k + 1], margin, wDay, top)
      == PlanOf(frame, pages[..k], margin, wDay, top) + [PagePlan(pages[k], Blocks(OnPage(frame, pages[k]), margin, wDay, top))]
  {
    assert pages[..k + 1][..k] == pages[..k];
  }

  /** The two loops over one page: a day block per row, then an empty block
      per lane in 0..3 that no row holds. */
  method PageBlocks(rows: seq<Row>, margin: real, wDay: real, top: real) returns (blocks: seq<Block>)
    ensures blocks == Blocks(rows, margin, wDay, top)
  {
    blocks := [];
    for i := 0 to |rows|
      invariant blocks == DayBlocks(rows[..i], margin, wDay, top)
    {
      DayBlocksStep(rows, i, margin, wDay, top);
      blocks := blocks + [DayBlock(LaneLeft(margin, wDay, rows[i].position), top, rows[i])];
    }
    assert rows[..|rows|] == rows;
    var existing := PageLanes(rows);
    var days := blocks;
    for pos := 0 to DAYS_PER_PAGE
      invariant blocks == days + EmptyBlocks(EmptyLanes(existing, pos), margin, wDay, top)
    {
      EmptyLanesStep(existing, pos, margin, wDay, top);
      if pos !in existing {
        blocks := blocks + [EmptyBlock(LaneLeft(margin, wDay, pos), top, pos)];
      }
    }
  }

  /** One more row adds its day block. */
  lemma DayBlocksStep(rows: seq<Row>, i: int, margin: real, wDay: real, top: real)
    requires 0 <= i < |rows|
    ensures DayBlocks(rows[..i + 1], margin, wDay, top)
      == DayBlocks(rows[..i], margin, wDay, top) + [DayBlock(LaneLeft(margin, wDay, rows[i].position), top, rows[i])]
  {
    assert rows[..i + 1][..i] == rows[..i];
  }

  /** One more lane adds its empty block when no row holds it. */
  lemma EmptyLanesStep(existing: seq<int>, pos: int, margin: real, wDay: real, top: real)
    requires 0 <= pos
    ensures EmptyBlocks(EmptyLanes(existing, pos + 1), margin, wDay, top)
      == EmptyBlocks(EmptyLanes(existing, pos), margin, wDay, top)
         + (if pos in existing then [] else [EmptyBlock(LaneLeft(margin, wDay, pos), top, pos)])
  {
    var lanes := EmptyLanes(existing, pos + 1);
    var before := EmptyLanes(existing, pos);
    if pos !in existing {
      assert lanes == before + [pos];
      assert lanes[..|lanes| - 1] == before;
    } else {
      assert lanes == before;
    }
  }

  // ---- what a page holds ----

  /** Every block stands `w_day` per lane right of the margin, at the top of
      the page's blocks. */
  lemma {:induction false} BlocksPlaced(rows: seq<Row>, margin: real, wDay: real, top: real, k: int)
    requires 0 <= k < |Blocks(rows, margin, wDay, top)|
    ensures var b := Blocks(rows, margin, wDay, top)[k];
      b.left == LaneLeft(margin, wDay, LaneOf(b)) && b.top == top
  {
    var n := |rows|;
    if k < n {
      DayBlocksAt(rows, margin, wDay, top, k);
    } else {
      EmptyBlocksAt(EmptyLanes(PageLanes(rows), DAYS_PER_PAGE), margin, wDay, top, k - n);
    }
  }

  lemma {:induction false} DayBlocksAt(rows: seq<Row>, margin: real, wDay: real, top: real, k: int)
    requires 0 <= k < |rows|
    ensures DayBlocks(rows, margin, wDay, top)[k] == DayBlock(LaneLeft(margin, wDay, rows[k].position), top, rows[k])
    decreases |rows|
  {
    if k < |rows| - 1 {
      DayBlocksAt(rows[..|rows| - 1], margin, wDay, top, k);
    }
  }

  lemma {:induction false} EmptyBlocksAt(lanes: seq<int>, margin: real, wDay: real, top: real, k: int)
    requires 0 <= k < |lanes|
    ensures EmptyBlocks(lanes, margin, wDay, top)[k] == EmptyBlock(LaneLeft(margin, wDay, lanes[k]), top, lanes[k])
    decreases |lanes|
  {
    if k < |lanes| - 1 {
      EmptyBlocksAt(lanes[..|lanes| - 1], margin, wDay, top, k);
    }
  }

  /** The lanes of a page are its rows' positions, then its unused lanes. */
  lemma BlocksLanes(rows: seq<Row>, margin: real, wDay: real, top: real)
    ensures Lanes(Blocks(rows, margin, wDay, top)) == PageLanes(rows) + EmptyLanes(PageLanes(rows), DAYS_PER_PAGE)
  {
    var days := DayBlocks(rows, margin, wDay, top);
    var lanes := EmptyLanes(PageLanes(rows), DAYS_PER_PAGE);
    forall k | 0 <= k < |rows|
      ensures LaneOf(days[k]) == rows[k].position
    {
      DayBlocksAt(rows, margin, wDay, top, k);
    }
    forall k | 0 <= k < |lanes|
      ensures LaneOf(EmptyBlocks(lanes, margin, wDay, top)[k]) == lanes[k]
    {
      EmptyBlocksAt(lanes, margin, wDay, top, k);
    }
  }

  /** A lane occurs once in a list without repeats that holds it. */
  lemma {:induction false} CountDistinct(s: seq<int>, x: int)
    requires forall i, j :: 0 <= i < j < |s| ==> s[i] != s[j]
    ensures multiset(s)[x] == if x in s then 1 else 0
    decreases |s|
  {
    if |s| > 0 {
      var init := s[..|s| - 1];
      assert s == init + [s[|s| - 1]];
      CountDistinct(init, x);
      assert x in s <==> x in init || x == s[|s| - 1];
      if x == s[|s| - 1] {
        assert x !in init;
      }
    }
  }

  /** The unused lanes below `n` are each lane below `n` that `existing`
      lacks, once. */
  lemma {:induction false} CountEmpty(existing: seq<int>, n: int, x: int)
    ensures multiset(EmptyLanes(existing, n))[x] == if 0 <= x < n && x !in existing then 1 else 0
    decreases n, 1
  {
    if n > 0 {
      CountEmptyStep(existing, n, x);
    }
  }

  /** Lane `n - 1` is counted once when `existing` lacks it. */
  lemma {:induction false} CountEmptyStep(existing: seq<int>, n: int, x: int)
    requires n > 0
    ensures multiset(EmptyLanes(existing, n))[x] == if 0 <= x < n && x !in existing then 1 else 0
    decreases n, 0
  {
    var before := EmptyLanes(existing, n - 1);
    CountEmpty(existing, n - 1, x);
    if n - 1 in existing {
      assert EmptyLanes(existing, n) == before;
    } else {
      assert EmptyLanes(existing, n) == before + [n - 1];
      assert multiset(before + [n - 1])[x] == multiset(before)[x] + (if x == n - 1 then 1 else 0);
    }
  }

  /** Distinct positions in 0..3 and the lanes they leave unused are the four
      lanes, each once. */
  lemma FourLanes(positions: seq<int>)
    requires forall i, j :: 0 <= i < j < |positions| ==> positions[i] != positions[j]
    requires forall i :: 0 <= i < |positions| ==> 0 <= positions[i] < DAYS_PER_PAGE
    ensures forall x ::
              multiset(positions + EmptyLanes(positions, DAYS_PER_PAGE))[x] == if 0 <= x < DAYS_PER_PAGE then 1 else 0
  {
    forall x
      ensures multiset(positions + EmptyLanes(positions, DAYS_PER_PAGE))[x]
        == if 0 <= x < DAYS_PER_PAGE then 1 else 0
    {
      FourLanesAt(positions, x);
    }
  }

  lemma FourLanesAt(positions: seq<int>, x: int)
    requires forall i, j :: 0 <= i < j < |positions| ==> positions[i] != positions[j]
    requires forall i :: 0 <= i < |positions| ==> 0 <= positions[i] < DAYS_PER_PAGE
    ensures multiset(positions + EmptyLanes(positions, DAYS_PER_PAGE))[x]
      == if 0 <= x < DAYS_PER_PAGE then 1 else 0
  {
    var empty := EmptyLanes(positions, DAYS_PER_PAGE);
    assert multiset(positions + empty) == multiset(positions) + multiset(empty);
    CountDistinct(positions, x);
    CountEmpty(positions, DAYS_PER_PAGE, x);
  }

  /** The multiset holding each lane once is `{0, 1, 2, 3}`. */
  lemma FourCount(m: multiset<int>)
    requires forall x :: m[x] == if 0 <= x < DAYS_PER_PAGE then 1 else 0
    ensures m == multiset{0, 1, 2, 3}
  {
    forall x
      ensures m[x] == multiset{0, 1, 2, 3}[x]
    {
    }
  }

  /** A page whose rows have rising positions in 0..3 holds four blocks, one
      in each lane. */
  lemma PageFull(rows: seq<Row>, margin: real, wDay: real, top: real)
    requires forall i, j :: 0 <= i < j < |rows| ==> rows[i].position < rows[j].position
    requires forall i :: 0 <= i < |rows| ==> 0 <= rows[i].position < DAYS_PER_PAGE
    ensures multiset(Lanes(Blocks(rows, margin, wDay, top))) == multiset{0, 1, 2, 3}
    ensures |Blocks(rows, margin, wDay, top)| == DAYS_PER_PAGE
  {
    BlocksLanes(rows, margin, wDay, top);
    FourLanes(PageLanes(rows));
    FourCount(multiset(Lanes(Blocks(rows, margin, wDay, top))));
    assert |multiset(Lanes(Blocks(rows, margin, wDay, top)))| == 4;
  }

  // ---- the frames `create_year_df` returns ----

  /** Pages start at 1 and never fall or skip; within a page positions rise
      and lie in 0..3. */
  ghost predicate Paged(frame: seq<Row>)
  {
    && |frame| > 0 && frame[0].page == 1
    && (forall i, j :: 0 <= i < j < |frame| ==> frame[i].page <= frame[j].page)
    && (forall i, j :: 0 <= i && j == i + 1 && j < |frame| ==> frame[j].page <= frame[i].page + 1)
    && (forall i :: 0 <= i < |frame| ==> 0 <= frame[i].position < DAYS_PER_PAGE)
    && (forall i, j :: 0 <= i < j < |frame| && frame[i].page == frame[j].page ==>
          frame[i].position < frame[j].position)
  }

  /** The frame of every year has this shape. */
  lemma YearFramePaged(year: int, startApril: bool, startsWithMon: bool, adjustLeft: bool)
    ensures Paged(YearGrid.YearFrame(year, startApril, startsWithMon, adjustLeft))
  {
    var days := YearGrid.YearSpan(year, startApril);
    YearGrid.SpanRun(year, startApril);
    assert YearGrid.YearFrame(year, startApril, startsWithMon, adjustLeft) == YearGrid.FrameOf(days, startsWithMon, adjustLeft);
    FrameOfPaged(days, startsWithMon, adjustLeft);
  }

  /** The positions, pages and flags of any run of consecutive named days
      have this shape. */
  lemma FrameOfPaged(days: seq<YearGrid.Day>, startsWithMon: bool, adjustLeft: bool)
    requires YearGrid.Chain(days) && YearGrid.Named(days) && |days| > 0
    ensures Paged(YearGrid.FrameOf(days, startsWithMon, adjustLeft))
  {
    YearGrid.FrameOfPages(days, startsWithMon, adjustLeft, 0, 0);
    FrameOfSorted(days, startsWithMon, adjustLeft);
    FrameOfSteps(days, startsWithMon, adjustLeft);
    FrameOfLanes(days, startsWithMon, adjustLeft);
  }

  lemma FrameOfSorted(days: seq<YearGrid.Day>, startsWithMon: bool, adjustLeft: bool)
    requires YearGrid.Chain(days) && YearGrid.Named(days)
    ensures var f := YearGrid.FrameOf(days, startsWithMon, adjustLeft);
      forall i, j :: 0 <= i < j < |f| ==>
        f[i].page <= f[j].page && (f[i].page == f[j].page ==> f[i].position < f[j].position)
  {
    var f := YearGrid.FrameOf(days, startsWithMon, adjustLeft);
    forall i, j | 0 <= i < j < |f|
      ensures f[i].page <= f[j].page && (f[i].page == f[j].page ==> f[i].position < f[j].position)
    {
      YearGrid.FrameOfPages(days, startsWithMon, adjustLeft, i, j);
    }
  }

  lemma FrameOfSteps(days: seq<YearGrid.Day>, startsWithMon: bool, adjustLeft: bool)
    requires YearGrid.Chain(days) && YearGrid.Named(days)
    ensures var f := YearGrid.FrameOf(days, startsWithMon, adjustLeft);
      forall i :: 0 < i < |f| ==> f[i].page <= f[i - 1].page + 1
  {
    var f := YearGrid.FrameOf(days, startsWithMon, adjustLeft);
    forall i | 0 < i < |f|
      ensures f[i].page <= f[i - 1].page + 1
    {
      YearGrid.FrameOfPages(days, startsWithMon, adjustLeft, i - 1, i);
    }
  }

  lemma FrameOfLanes(days: seq<YearGrid.Day>, startsWithMon: bool, adjustLeft: bool)
    requires YearGrid.Chain(days) && YearGrid.Named(days)
    ensures var f := YearGrid.FrameOf(days, startsWithMon, adjustLeft);
      forall i :: 0 <= i < |f| ==> 0 <= f[i].position < DAYS_PER_PAGE
  {
    var f := YearGrid.FrameOf(days, startsWithMon, adjustLeft);
    var position := YearGrid.PositionsOf(days, startsWithMon, adjustLeft);
    YearGrid.PositionsStep(days, startsWithMon, adjustLeft);
    forall i | 0 <= i < |f|
      ensures 0 <= f[i].position < DAYS_PER_PAGE
    {
      assert f[i].position == position[i];
    }
  }

  /** Row `k` of a page is a row of the frame on that page. */
  lemma {:induction false} OnPageFrom(frame: seq<Row>, p: int, k: int) returns (i: int)
    requires 0 <= k < |OnPage(frame, p)|
    ensures 0 <= i < |frame| && OnPage(frame, p)[k] == frame[i] && frame[i].page == p
    decreases |frame|
  {
    var init := frame[..|frame| - 1];
    if k < |OnPage(init, p)| {
      i := OnPageFrom(init, p, k);
    } else {
      i := |frame| - 1;
    }
  }

  /** On a page of a paged frame positions rise and lie in 0..3. */
  lemma OnPageRising(frame: seq<Row>, p: int)
    requires forall i, j :: 0 <= i < j < |frame| && frame[i].page == frame[j].page ==>
      frame[i].position < frame[j].position
    requires forall i :: 0 <= i < |frame| ==> 0 <= frame[i].position < DAYS_PER_PAGE
    ensures var rows := OnPage(frame, p);
      && (forall a, b :: 0 <= a < b < |rows| ==> rows[a].position < rows[b].position)
      && (forall a :: 0 <= a < |rows| ==> 0 <= rows[a].position < DAYS_PER_PAGE)
  {
    var rows := OnPage(frame, p);
    OnPageOrdered(frame, p);
    assert Rising(rows);
    forall a | 0 <= a < |rows|
      ensures 0 <= rows[a].position < DAYS_PER_PAGE
    {
      var i := OnPageFrom(frame, p, a);
    }
  }

  lemma {:induction false} OnPageOrdered(frame: seq<Row>, p: int)
    requires forall i, j :: 0 <= i < j < |frame| && frame[i].page == frame[j].page ==>
      frame[i].position < frame[j].position
    ensures Rising(OnPage(frame, p))
    decreases |frame|
  {
    if |frame| > 0 {
      var init := frame[..|frame| - 1];
      var last := frame[|frame| - 1];
      assert forall i :: 0 <= i < |init| ==> init[i] == frame[i];
      OnPageOrdered(init, p);
      var before := OnPage(init, p);
      if last.page == p {
        forall a | 0 <= a < |before|
          ensures before[a].position < last.position
        {
          var i := OnPageFrom(init, p, a);
          assert init[i] == frame[i];
        }
        assert OnPage(frame, p) == before + [last];
        RisingSnoc(before, last);
      } else {
        assert OnPage(frame, p) == before;
      }
    }
  }

  /** Positions rise from row to row. */
  predicate Rising(rows: seq<Row>)
  {
    forall a, b :: 0 <= a < b < |rows| ==> rows[a].position < rows[b].position
  }

  /** A row above every position of a rising run extends it. */
  lemma RisingSnoc(rows: seq<Row>, last: Row)
    requires Rising(rows)
    requires forall a :: 0 <= a < |rows| ==> rows[a].position < last.position
    ensures Rising(rows + [last])
  {
    var r := rows + [last];
    assert forall a :: 0 <= a < |r| ==> r[a] == if a < |rows| then rows[a] else last;
  }

  // ---- page numbers ----

  /** The page numbers `1, 2, ..., n`. */
  function Numbers(n: nat): (r: seq<int>)
    ensures |r| == n && forall i :: 0 <= i < n ==> r[i] == i + 1
  {
    seq(n, i requires 0 <= i < n => i + 1)
  }

  /** A column that starts at 1, never falls and never skips: its distinct
      values are `1..last`. */
  lemma {:induction false} UniqueRun(s: seq<int>)
    requires |s| > 0 && s[0] == 1
    requires forall i, j :: 0 <= i < j < |s| ==> s[i] <= s[j]
    requires forall i :: 0 < i < |s| ==> s[i] <= s[i - 1] + 1
    ensures s[|s| - 1] >= 1 && Unique(s) == Numbers(s[|s| - 1])
    decreases |s|
  {
    var init := s[..|s| - 1];
    var last := s[|s| - 1];
    if |s| == 1 {
      assert init == [];
    } else {
      UniqueRun(init);
      var top := init[|init| - 1];
      assert top == s[|s| - 2];
      if last == top {
        assert last in init;
        assert Numbers(last) == Numbers(top);
      } else {
        assert last == top + 1;
        assert last !in init by {
          forall i | 0 <= i < |init|
            ensures init[i] != last
          {
            assert init[i] == s[i] <= s[|s| - 2];
          }
        }
        assert Numbers(last) == Numbers(top) + [last];
      }
    }
  }

  /** The last page of a paged frame. */
  function LastPage(frame: seq<Row>): int
    requires |frame| > 0
  {
    frame[|frame| - 1].page
  }

  /** `unique()` of a paged frame's page column numbers its pages `1..last`. */
  lemma PagesNumbered(frame: seq<Row>)
    requires Paged(frame)
    ensures LastPage(frame) >= 1 && Unique(PageColumn(frame)) == Numbers(LastPage(frame))
  {
    UniqueRun(PageColumn(frame));
  }

  // ---- every row drawn once, in order ----

  /** The rows of the day blocks among `blocks`, in order. */
  function DayRows(blocks: seq<Block>): seq<Row>
  {
    if |blocks| == 0 then []
    else
      var last := blocks[|blocks| - 1];
      DayRows(blocks[..|blocks| - 1]) + (if last.DayBlock? then [last.row] else [])
  }

  /** A row is among the day rows of some blocks exactly when one of those
      blocks is a day block for it. */
  lemma {:induction false} DayRowsHas(blocks: seq<Block>, x: Row)
    ensures x in DayRows(blocks) <==> exists i :: 0 <= i < |blocks| && blocks[i].DayBlock? && blocks[i].row == x
    decreases |blocks|
  {
    if |blocks| > 0 {
      var init := blocks[..|blocks| - 1];
      DayRowsHas(init, x);
      assert forall i :: 0 <= i < |init| ==> init[i] == blocks[i];
    }
  }

  /** The rows drawn by a plan, page after page. */
  function PlanRows(plan: seq<PagePlan>): seq<Row>
  {
    if |plan| == 0 then [] else PlanRows(plan[..|plan| - 1]) + DayRows(plan[|plan| - 1].blocks)
  }

  /** A row is drawn by a plan exactly when some page of it holds a day
      block for that row. */
  lemma {:induction false} PlanRowsHas(plan: seq<PagePlan>, x: Row)
    ensures x in PlanRows(plan) <==>
      exists k, i :: 0 <= k < |plan| && 0 <= i < |plan[k].blocks| && plan[k].blocks[i].DayBlock? && plan[k].blocks[i].row == x
    decreases |plan|
  {
    if |plan| > 0 {
      var init := plan[..|plan| - 1];
      PlanRowsHas(init, x);
      DayRowsHas(plan[|plan| - 1].blocks, x);
      assert forall k :: 0 <= k < |init| ==> init[k] == plan[k];
    }
  }

  /** The rows of the pages numbered in `pages`, page after page. */
  function RowsOfPages(frame: seq<Row>, pages: seq<int>): seq<Row>
  {
    if |pages| == 0 then []
    else RowsOfPages(frame, pages[..|pages| - 1]) + OnPage(frame, pages[|pages| - 1])
  }

  lemma {:induction false} DayRowsAppend(a: seq<Block>, b: seq<Block>)
    ensures DayRows(a + b) == DayRows(a) + DayRows(b)
    decreases |b|
  {
    if |b| > 0 {
      var b' := b[..|b| - 1];
      assert (a + b)[..|a + b| - 1] == a + b';
      DayRowsAppend(a, b');
    } else {
      assert a + b == a;
    }
  }

  lemma {:induction false} DayRowsOfDays(rows: seq<Row>, margin: real, wDay: real, top: real)
    ensures DayRows(DayBlocks(rows, margin, wDay, top)) == rows
    decreases |rows|
  {
    if |rows| > 0 {
      var init := rows[..|rows| - 1];
      var last := rows[|rows| - 1];
      DayRowsOfDays(init, margin, wDay, top);
      var blocks := DayBlocks(rows, margin, wDay, top);
      assert blocks[..|blocks| - 1] == DayBlocks(init, margin, wDay, top);
      assert rows == init + [last];
    }
  }

  lemma {:induction false} DayRowsOfEmpty(lanes: seq<int>, margin: real, wDay: real, top: real)
    ensures DayRows(EmptyBlocks(lanes, margin, wDay, top)) == []
    decreases |lanes|
  {
    if |lanes| > 0 {
      DayRowsOfEmpty(lanes[..|lanes| - 1], margin, wDay, top);
      var blocks := EmptyBlocks(lanes, margin, wDay, top);
      assert blocks[..|blocks| - 1] == EmptyBlocks(lanes[..|lanes| - 1], margin, wDay, top);
    }
  }

  /** A page's day blocks draw exactly its rows, in order. */
  lemma BlocksRows(rows: seq<Row>, margin: real, wDay: real, top: real)
    ensures DayRows(Blocks(rows, margin, wDay, top)) == rows
  {
    var lanes := EmptyLanes(PageLanes(rows), DAYS_PER_PAGE);
    DayRowsAppend(DayBlocks(rows, margin, wDay, top), EmptyBlocks(lanes, margin, wDay, top));
    DayRowsOfDays(rows, margin, wDay, top);
    DayRowsOfEmpty(lanes, margin, wDay, top);
  }

  /** The plan of some pages draws the rows of those pages. */
  lemma {:induction false} PlanRowsOf(frame: seq<Row>, pages: seq<int>, margin: real, wDay: real, top: real)
    ensures PlanRows(PlanOf(frame, pages, margin, wDay, top)) == RowsOfPages(frame, pages)
    decreases |pages|
  {
    if |pages| > 0 {
      var plan := PlanOf(frame, pages, margin, wDay, top);
      var init := pages[..|pages| - 1];
      PlanRowsOf(frame, init, margin, wDay, top);
      assert plan[..|plan| - 1] == PlanOf(frame, init, margin, wDay, top);
      BlocksRows(OnPage(frame, pages[|pages| - 1]), margin, wDay, top);
    }
  }

  /** A page number nobody holds has no rows. */
  lemma {:induction false} OnPageNone(frame: seq<Row>, p: int)
    requires forall i :: 0 <= i < |frame| ==> frame[i].page < p
    ensures OnPage(frame, p) == []
    decreases |frame|
  {
    if |frame| > 0 {
      OnPageNone(frame[..|frame| - 1], p);
    }
  }

  /** `OnPage` of a frame with one more row. */
  lemma OnPageSnoc(init: seq<Row>, last: Row, p: int)
    ensures OnPage(init + [last], p) == OnPage(init, p) + (if last.page == p then [last] else [])
  {
    assert (init + [last])[..|init|] == init;
  }

  /** A row on a page after `1..m` does not change those pages' rows. */
  lemma {:induction false} RowsIgnore(init: seq<Row>, last: Row, m: nat)
    requires last.page > m
    ensures RowsOfPages(init + [last], Numbers(m)) == RowsOfPages(init, Numbers(m))
    decreases m
  {
    if m > 0 {
      NumbersStep(m);
      RowsIgnore(init, last, m - 1);
      OnPageSnoc(init, last, m);
    }
  }

  lemma NumbersStep(m: nat)
    requires m > 0
    ensures Numbers(m)[..m - 1] == Numbers(m - 1) && Numbers(m)[m - 1] == m
  {
  }

  /** A row on the last page so far comes after all rows of pages `1..n`. */
  lemma {:induction false} RowsSnoc(init: seq<Row>, last: Row, n: nat)
    requires 1 <= last.page <= n
    requires forall i :: 0 <= i < |init| ==> init[i].page <= last.page
    ensures RowsOfPages(init + [last], Numbers(n)) == RowsOfPages(init, Numbers(n)) + [last]
    decreases n
  {
    if last.page == n {
      RowsSnocHere(init, last, n);
    } else {
      NumbersStep(n);
      var frame := init + [last];
      RowsSnoc(init, last, n - 1);
      OnPageSnoc(init, last, n);
      OnPageNone(init, n);
      assert OnPage(frame, n) == [] && OnPage(init, n) == [];
      assert RowsOfPages(frame, Numbers(n)) == RowsOfPages(frame, Numbers(n - 1));
      assert RowsOfPages(init, Numbers(n)) == RowsOfPages(init, Numbers(n - 1));
    }
  }

  /** A row on page `n` comes after all rows of pages `1..n`. */
  lemma RowsSnocHere(init: seq<Row>, last: Row, n: nat)
    requires 1 <= last.page == n
    ensures RowsOfPages(init + [last], Numbers(n)) == RowsOfPages(init, Numbers(n)) + [last]
  {
    NumbersStep(n);
    var frame := init + [last];
    var before := RowsOfPages(init, Numbers(n - 1));
    var page := OnPage(init, n);
    assert RowsOfPages(frame, Numbers(n)) == RowsOfPages(frame, Numbers(n - 1)) + OnPage(frame, n);
    assert RowsOfPages(init, Numbers(n)) == before + page;
    OnPageSnoc(init, last, n);
    RowsIgnore(init, last, n - 1);
    assert RowsOfPages(frame, Numbers(n)) == before + (page + [last]);
  }

  /** Pages `1..n` of a frame sorted by page, all within `1..n`, hold every
      row in order. */
  lemma {:induction false} RowsAll(frame: seq<Row>, n: nat)
    requires forall i, j :: 0 <= i < j < |frame| ==> frame[i].page <= frame[j].page
    requires forall i :: 0 <= i < |frame| ==> 1 <= frame[i].page <= n
    ensures RowsOfPages(frame, Numbers(n)) == frame
    decreases |frame|
  {
    if |frame| == 0 {
      RowsNone(frame, n);
    } else {
      var init := frame[..|frame| - 1];
      var last := frame[|frame| - 1];
      RowsAll(init, n);
      RowsSnoc(init, last, n);
      assert init + [last] == frame;
    }
  }

  lemma {:induction false} RowsNone(frame: seq<Row>, n: nat)
    requires |frame| == 0
    ensures RowsOfPages(frame, Numbers(n)) == []
    decreases n
  {
    if n > 0 {
      NumbersStep(n);
      RowsNone(frame, n - 1);
    }
  }

  // ---- the whole plan ----

  /** Plan `k` is the plan of page `pages[k]`. */
  lemma {:induction false} PlanOfAt(frame: seq<Row>, pages: seq<int>, margin: real, wDay: real, top: real, k: int)
    requires 0 <= k < |pages|
    ensures PlanOf(frame, pages, margin, wDay, top)[k]
      == PagePlan(pages[k], Blocks(OnPage(frame, pages[k]), margin, wDay, top))
    decreases |pages|
  {
    if k < |pages| - 1 {
      PlanOfAt(frame, pages[..|pages| - 1], margin, wDay, top, k);
    }
  }

  /** A page numbered `number` with four blocks, one in each lane. */
  predicate Full(plan: PagePlan, number: int)
  {
    && plan.page == number
    && |plan.blocks| == DAYS_PER_PAGE
    && multiset(Lanes(plan.blocks)) == multiset{0, 1, 2, 3}
  }

  /** The plan of a paged frame: pages `1..last` in order, each with four
      blocks, one per lane. */
  lemma PlanNumbered(frame: seq<Row>, width: real, height: real, margin: real)
    requires Paged(frame)
    ensures var plan := Plan(frame, width, height, margin);
      && |plan| == LastPage(frame)
      && forall k :: 0 <= k < |plan| ==> Full(plan[k], k + 1)
  {
    PagesNumbered(frame);
    var plan := Plan(frame, width, height, margin);
    var numbered := PlanOf(frame, Numbers(LastPage(frame)), margin, LaneWidth(width, margin), BlockTop(height, margin));
    assert plan == numbered;
    forall k | 0 <= k < |plan|
      ensures Full(plan[k], k + 1)
    {
      PageAt(frame, margin, LaneWidth(width, margin), BlockTop(height, margin), k);
    }
  }

  /** The day blocks of a paged frame's plan draw every row of the frame
      once, in order. */
  lemma PlanCovers(frame: seq<Row>, width: real, height: real, margin: real)
    requires Paged(frame)
    ensures PlanRows(Plan(frame, width, height, margin)) == frame
  {
    PagesNumbered(frame);
    PagesCover(frame, margin, LaneWidth(width, margin), BlockTop(height, margin));
  }

  /** Page `k + 1` of a paged frame gets four blocks, one per lane. */
  lemma PageAt(frame: seq<Row>, margin: real, wDay: real, top: real, k: int)
    requires Paged(frame)
    requires 0 <= k < LastPage(frame)
    ensures Full(PlanOf(frame, Numbers(LastPage(frame)), margin, wDay, top)[k], k + 1)
  {
    PlanOfAt(frame, Numbers(LastPage(frame)), margin, wDay, top, k);
    OnPageRising(frame, k + 1);
    PageFull(OnPage(frame, k + 1), margin, wDay, top);
  }

  /** The pages `1..last` of a paged frame draw all its rows, in order. */
  lemma PagesCover(frame: seq<Row>, margin: real, wDay: real, top: real)
    requires Paged(frame)
    ensures PlanRows(PlanOf(frame, Numbers(LastPage(frame)), margin, wDay, top)) == frame
  {
    var n := LastPage(frame);
    PlanRowsOf(frame, Numbers(n), margin, wDay, top);
    forall i | 0 <= i < |frame|
      ensures 1 <= frame[i].page <= n
    {
      assert frame[0].page <= frame[i].page <= frame[|frame| - 1].page;
    }
    RowsAll(frame, n);
  }

  /** Every block of every page stands at its lane's left edge, at the top
      of the blocks. */
  lemma PlanPlaced(frame: seq<Row>, width: real, height: real, margin: real, k: int, b: int)
    requires 0 <= k < |Plan(frame, width, height, margin)|
    requires 0 <= b < |Plan(frame, width, height, margin)[k].blocks|
    ensures var block := Plan(frame, width, height, margin)[k].blocks[b];
      block.left == LaneLeft(margin, LaneWidth(width, margin), LaneOf(block)) && block.top == BlockTop(height, margin)
  {
    PlanOfPlaced(frame, Unique(PageColumn(frame)), margin, LaneWidth(width, margin), BlockTop(height, margin), k, b);
  }

  lemma PlanOfPlaced(frame: seq<Row>, pages: seq<int>, margin: real, wDay: real, top: real, k: int, b: int)
    requires 0 <= k < |pages|
    requires 0 <= b < |PlanOf(frame, pages, margin, wDay, top)[k].blocks|
    ensures var block := PlanOf(frame, pages, margin, wDay, top)[k].blocks[b];
      block.left == LaneLeft(margin, wDay, LaneOf(block)) && block.top == top
  {
    PlanOfAt(frame, pages, margin, wDay, top, k);
    BlocksPlaced(OnPage(frame, pages[k]), margin, wDay, top, b);
  }

  /** The calendar of any year: its pages numbered from 1, four blocks a
      page, one per lane, and every day of the year drawn once, in order. */
  lemma YearPlan(year: int, startApril: bool, startsWithMon: bool, adjustLeft: bool,
                 width: real, height: real, margin: real)
    ensures var plan := Plan(YearGrid.YearFrame(year, startApril, startsWithMon, adjustLeft), width, height, margin);
      && |plan| >= 1
      && (forall k :: 0 <= k < |plan| ==> Full(plan[k], k + 1))
      && PlanRows(plan) == YearGrid.YearFrame(year, startApril, startsWithMon, adjustLeft)
  {
    var frame := YearGrid.YearFrame(year, startApril, startsWithMon, adjustLeft);
    YearFramePaged(year, startApril, startsWithMon, adjustLeft);
    PlanNumbered(frame, width, height, margin);
    PlanCovers(frame, width, height, margin);
  }
}
