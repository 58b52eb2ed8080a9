/**
 The calendar's month grid: the weeks shown for the month of a date, the
 weekend columns, and the dimming of days that belong to the neighbouring
 months.
 */
module Calendar {
  import opened Moments

  /** The first day shown: the start of the month moved back to the first
      day of its (locale) week */
  function GridStart(m: Moment, date: Day): Day
  {
    m.startOfMonth(date) - m.weekday(m.startOfMonth(date))
  }

  /** How many weeks of seven days, from `start` on, begin no later than `last` */
  function RowCount(start: Day, last: Day): (n: nat)
    ensures n > 0 ==> start + 7 * (n - 1) <= last
    ensures start + 7 * n > last
  {
    if last < start then 0 else (last - start) / 7 + 1
  }

  /** The week that begins on `first`, day by day */
  function Week(first: Day): (w: seq<Day>)
    ensures |w| == 7
    ensures forall c :: 0 <= c < 7 ==> w[c] == first + c
  {
    seq(7, c => first + c)
  }

  /** The grid as a closed form: row `r`, column `c` holds day `start + 7r + c`,
      for as many rows as begin no later than `last`. */
  function MonthGrid(start: Day, last: Day): (g: seq<seq<Day>>)
    ensures |g| == RowCount(start, last)
    ensures forall r :: 0 <= r < |g| ==> g[r] == Week(start + 7 * r)
  {
    seq(RowCount(start, last), r => Week(start + 7 * r))
  }

  /** `getMonthWeeks`: from the first day of the week holding the 1st, push
      weeks of seven consecutive days while the next week's first day is not
      after the month's last day. */
  method GetMonthWeeks(m: Moment, date: Day) returns (weeks: seq<seq<Day>>)
    ensures weeks == MonthGrid(GridStart(m, date), m.endOfMonth(date))
  {
    var startOfMonth := m.startOfMonth(date);
    var endOfMonth := m.endOfMonth(date);
    var currentDay := startOfMonth - m.weekday(startOfMonth);
    ghost var start := currentDay;
    weeks := [];
    while currentDay <= endOfMonth
      invariant currentDay == start + 7 * |weeks|
      invariant |weeks| > 0 ==> start + 7 * (|weeks| - 1) <= endOfMonth
      invariant forall r :: 0 <= r < |weeks| ==> weeks[r] == Week(start + 7 * r)
      decreases endOfMonth - currentDay + 1
    {
      ghost var weekStart := currentDay;
      var week: seq<Day> := [];
      var i := 0;
      while i < 7
        invariant 0 <= i <= 7
        invariant currentDay == weekStart + i
        invariant |week| == i
        invariant forall c :: 0 <= c < i ==> week[c] == weekStart + c
      {
        week := week + [currentDay];
        currentDay := currentDay + 1;
        i := i + 1;
      }
      weeks := weeks + [week];
    }
    RowCountOf(start, endOfMonth, |weeks|);
  }

  /** The number of rows is the one the loop stops at. */
  lemma RowCountOf(start: Day, last: Day, n: nat)
    requires start + 7 * n > last
    requires n > 0 ==> start + 7 * (n - 1) <= last
    requires n == 0 ==> start > last
    ensures RowCount(start, last) == n
  {
    if n > 0 {
      var q := (last - start) / 7;
      assert 7 * q <= last - start < 7 * q + 7;
    }
  }

  /** `isWeekend`: Saturday or Sunday in ISO numbering */
  function IsWeekend(m: Moment, day: Day): (b: bool)
    ensures 1 <= m.isoWeekday(day) <= 7 ==> (b <==> 5 < m.isoWeekday(day))
  {
    m.isoWeekday(day) == 6 || m.isoWeekday(day) == 7
  }

  /** The "adjacent-month" flag of a cell: its month differs from the month of
      the date the calendar shows. */
  function IsAdjacentMonth(m: Moment, cell: Day, shown: Day): (b: bool)
    ensures cell == shown ==> !b
  {
    m.month(cell) != m.month(shown)
  }

  /** Day `d` sits in grid `g` starting at `start` at the row and column of
      its offset from `start` */
  predicate InGrid(g: seq<seq<Day>>, start: Day, d: Day)
  {
    var k := d - start;
    0 <= k && k / 7 < |g| && |g[k / 7]| == 7 && g[k / 7][k % 7] == d
  }

  /** Every day of the month is in the grid, at the row and column of its
      offset from the grid's first day; the grid starts at most six days
      before the 1st; and every row holds at least one day of the month. */
  lemma GridCoversMonth(m: Moment, date: Day)
    requires 0 <= m.weekday(m.startOfMonth(date)) <= 6
    requires m.startOfMonth(date) <= m.endOfMonth(date)
    ensures var start := GridStart(m, date);
      var g := MonthGrid(start, m.endOfMonth(date));
      && start <= m.startOfMonth(date) < start + 7
      && g[0][m.weekday(m.startOfMonth(date))] == m.startOfMonth(date)
      && (forall d :: m.startOfMonth(date) <= d <= m.endOfMonth(date) ==> InGrid(g, start, d))
      && (forall r :: 0 <= r < |g| ==>
            g[r][0] <= m.endOfMonth(date) && m.startOfMonth(date) <= g[r][6])
  {
    var first, last := m.startOfMonth(date), m.endOfMonth(date);
    var start := GridStart(m, date);
    var g := MonthGrid(start, last);
    forall d | first <= d <= last
      ensures InGrid(g, start, d)
    {
      var q, c := (d - start) / 7, (d - start) % 7;
      assert d - start == 7 * q + c;
      assert q <= (last - start) / 7 by {
        DivMonotone(d - start, last - start);
      }
    }
    forall r | 0 <= r < |g|
      ensures first <= g[r][6]
    {
      assert g[r][6] == start + 7 * r + 6;
    }
  }

  /** Integer division by seven keeps the order of non-negative numbers. */
  lemma DivMonotone(a: int, b: int)
    requires 0 <= a <= b
    ensures a / 7 <= b / 7
  {
    var qa, qb := a / 7, b / 7;
    assert 7 * qa <= a < 7 * qa + 7;
    assert 7 * qb <= b < 7 * qb + 7;
  }

  /** A month of 28 to 31 days fills four to six rows, so the grid always has
      the second row whose days classify the weekend columns. */
  lemma GridRows(m: Moment, date: Day)
    requires 0 <= m.weekday(m.startOfMonth(date)) <= 6
    requires 27 <= m.endOfMonth(date) - m.startOfMonth(date) <= 30
    ensures 4 <= |MonthGrid(GridStart(m, date), m.endOfMonth(date))| <= 6
  {
    var span := m.endOfMonth(date) - GridStart(m, date);
    assert 27 <= span <= 36;
    assert RowCount(GridStart(m, date), m.endOfMonth(date)) == span / 7 + 1;
    DivMonotone(27, span);
    DivMonotone(span, 36);
  }

  /** The weekend class of a column, taken from the grid's second row, holds
      for the day in that column in every row, when the ISO weekday repeats
      every seven days. */
  lemma WeekendColumns(m: Moment, date: Day)
    requires forall a, b :: a % 7 == b % 7 ==> m.isoWeekday(a) == m.isoWeekday(b)
    ensures var g := MonthGrid(GridStart(m, date), m.endOfMonth(date));
      forall r, c :: 0 <= r < |g| && 0 <= c < 7 && 1 < |g| ==>
        (IsWeekend(m, g[r][c]) <==> IsWeekend(m, g[1][c]))
  {
    var start := GridStart(m, date);
    var g := MonthGrid(start, m.endOfMonth(date));
    forall r, c | 0 <= r < |g| && 0 <= c < 7 && 1 < |g|
      ensures m.isoWeekday(g[r][c]) == m.isoWeekday(g[1][c])
    {
      SameWeekColumn(start + c, r);
    }
  }

  /** Days a whole number of weeks after `d` fall on its weekday. */
  lemma SameWeekColumn(d: Day, r: nat)
    ensures (d + 7 * r) % 7 == (d + 7) % 7
  {
    var q := d / 7;
    var k := d % 7;
    assert d + 7 * r == 7 * (q + r) + k;
    assert d + 7 == 7 * (q + 1) + k;
  }

  /** The dimmed cells are exactly the days before the 1st and after the
      month's last day, when `month()` tells the shown month from the days
      around it; in the first row, for a month of at least 28 days, they are
      the first `weekday(1st)` cells. */
  lemma AdjacentMonthCells(m: Moment, date: Day)
    requires 0 <= m.weekday(m.startOfMonth(date)) <= 6
    requires 27 <= m.endOfMonth(date) - m.startOfMonth(date)
    requires forall d :: m.startOfMonth(date) - 7 <= d <= m.endOfMonth(date) + 7 ==>
      (m.month(d) == m.month(date) <==> m.startOfMonth(date) <= d <= m.endOfMonth(date))
    ensures var g := MonthGrid(GridStart(m, date), m.endOfMonth(date));
      && (forall r, c :: 0 <= r < |g| && 0 <= c < 7 ==>
            (IsAdjacentMonth(m, g[r][c], date) <==>
              g[r][c] < m.startOfMonth(date) || m.endOfMonth(date) < g[r][c]))
      && (forall c :: 0 <= c < 7 ==>
            (IsAdjacentMonth(m, g[0][c], date) <==> c < m.weekday(m.startOfMonth(date))))
  {
    var first, last := m.startOfMonth(date), m.endOfMonth(date);
    var start := GridStart(m, date);
    var g := MonthGrid(start, last);
    forall r, c | 0 <= r < |g| && 0 <= c < 7
      ensures first - 7 <= g[r][c] <= last + 7
    {
      assert g[r][c] == start + 7 * r + c;
      assert start + 7 * r <= last;
    }
    assert |g| > 0;
    forall c | 0 <= c < 7
      ensures IsAdjacentMonth(m, g[0][c], date) <==> c < m.weekday(first)
    {
      assert g[0][c] == start + c;
      assert first - 7 <= start + c <= last + 7;
    }
  }
}
