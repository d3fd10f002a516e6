/**
 The selected date and the highlighting of day cells.

 The selected date is an instant: its day of the displayed month and the
 time since the start of that day, in seconds with any fraction kept.  At start-up it is the current
 instant; a tap on a cell replaces it with that cell's date, which the grid
 builds from year, month and day components and so lies at the start of
 the day.
 */
module Selection {
  import MonthGrid

  /** An instant within the displayed month. */
  datatype Instant = Instant(day: int, secondOfDay: real)

  /** How a cell is compared with the selected date. */
  datatype Comparison =
    | SameInstant  // equality of instants, as the view compares them
    | SameDay      // the selected date falls on the cell's day

  /** The date of the cell for day `d`: the start of that day. */
  function CellDate(d: int): Instant
  {
    Instant(d, 0.0)
  }

  /** Whether the cell for day `d` is highlighted while `selected` is the selected date. */
  function IsHighlighted(cmp: Comparison, selected: Instant, d: int): (r: bool)
    ensures r ==> selected.day == d
    ensures cmp == SameInstant ==> (r <==> selected.day == d && selected.secondOfDay == 0.0)
  {
    match cmp
    case SameInstant => selected == CellDate(d)
    case SameDay => selected.day == d
  }

  /** The number of highlighted cells among the days of `row`. */
  function RowHighlights(row: seq<int>, cmp: Comparison, selected: Instant): nat
  {
    if row == [] then 0
    else (if IsHighlighted(cmp, selected, row[0]) then 1 else 0) + RowHighlights(row[1..], cmp, selected)
  }

  /** The number of highlighted cells in the whole grid. */
  function GridHighlights(g: seq<seq<int>>, cmp: Comparison, selected: Instant): nat
  {
    if g == [] then 0
    else RowHighlights(g[0], cmp, selected) + GridHighlights(g[1..], cmp, selected)
  }

  lemma {:induction false} RowHighlightsConcat(a: seq<int>, b: seq<int>, cmp: Comparison, selected: Instant)
    ensures RowHighlights(a + b, cmp, selected) == RowHighlights(a, cmp, selected) + RowHighlights(b, cmp, selected)
  {
    if a == [] {
      assert a + b == b;
    } else {
      assert (a + b)[1..] == a[1..] + b;
      RowHighlightsConcat(a[1..], b, cmp, selected);
    }
  }

  /** Counting cells row by row is counting them in the days read in order. */
  lemma {:induction false} GridHighlightsFlatten(g: seq<seq<int>>, cmp: Comparison, selected: Instant)
    ensures GridHighlights(g, cmp, selected) == RowHighlights(MonthGrid.Flatten(g), cmp, selected)
  {
    if g != [] {
      GridHighlightsFlatten(g[1..], cmp, selected);
      RowHighlightsConcat(g[0], MonthGrid.Flatten(g[1..]), cmp, selected);
    }
  }

  /** Whether some cell of a grid holding each day once would be highlighted. */
  predicate Matches(cmp: Comparison, selected: Instant)
  {
    cmp == SameDay || selected.secondOfDay == 0.0
  }

  /** Among the consecutive days lo..hi-1, the selected date highlights at most one cell. */
  lemma {:induction false} DaysHighlights(lo: int, hi: int, cmp: Comparison, selected: Instant)
    requires lo <= hi
    ensures RowHighlights(MonthGrid.Days(lo, hi), cmp, selected)
      == if lo <= selected.day < hi && Matches(cmp, selected) then 1 else 0
    decreases hi - lo
  {
    var days := MonthGrid.Days(lo, hi);
    if lo < hi {
      assert days[0] == lo;
      assert days[1..] == MonthGrid.Days(lo + 1, hi);
      DaysHighlights(lo + 1, hi, cmp, selected);
    }
  }

  /** The number of highlighted cells of a month grid: one when the selected date matches a day of the month, else none. */
  lemma GridHighlightCount(g: seq<seq<int>>, n: int, w1: int, cmp: Comparison, selected: Instant)
    requires 1 <= n && 1 <= w1 <= 7
    requires MonthGrid.IsMonthGrid(g, n, w1)
    ensures GridHighlights(g, cmp, selected) == if 1 <= selected.day <= n && Matches(cmp, selected) then 1 else 0
  {
    GridHighlightsFlatten(g, cmp, selected);
    DaysHighlights(1, n + 1, cmp, selected);
  }

  /** After a tap on the cell for day d, exactly one cell of the grid is highlighted, whichever comparison is used. */
  lemma SelectHighlightsOneCell(n: int, w1: int, d: int, cmp: Comparison)
    requires 1 <= n && 1 <= w1 <= 7
    requires 1 <= d <= n
    ensures GridHighlights(MonthGrid.MonthWeeks(n, w1), cmp, CellDate(d)) == 1
  {
    MonthGrid.MonthGridCharacterised(MonthGrid.MonthWeeks(n, w1), n, w1);
    GridHighlightCount(MonthGrid.MonthWeeks(n, w1), n, w1, cmp, CellDate(d));
  }

  /** As written: a selected date that is not at the very start of its day, such as the start-up instant, highlights no cell. */
  lemma LaunchHighlightsNothing(n: int, w1: int, now: Instant)
    requires 1 <= n && 1 <= w1 <= 7
    requires now.secondOfDay != 0.0
    ensures GridHighlights(MonthGrid.MonthWeeks(n, w1), SameInstant, now) == 0
  {
    MonthGrid.MonthGridCharacterised(MonthGrid.MonthWeeks(n, w1), n, w1);
    GridHighlightCount(MonthGrid.MonthWeeks(n, w1), n, w1, SameInstant, now);
  }

  /** Corrected: comparing calendar days, the start-up date highlights exactly the cell of today. */
  lemma LaunchHighlightsToday(n: int, w1: int, now: Instant)
    requires 1 <= n && 1 <= w1 <= 7
    requires 1 <= now.day <= n
    ensures GridHighlights(MonthGrid.MonthWeeks(n, w1), SameDay, now) == 1
  {
    MonthGrid.MonthGridCharacterised(MonthGrid.MonthWeeks(n, w1), n, w1);
    GridHighlightCount(MonthGrid.MonthWeeks(n, w1), n, w1, SameDay, now);
  }

  /** The selected date shared by the header and the grid. */
  class DateState {
    var selected: Instant

    /** Start-up: the selected date is the current instant, and the cell of its day is the one highlighted. */
    constructor (now: Instant)
      ensures selected == now
      ensures forall c :: IsCellHighlighted(c) <==> c == now.day
    {
      selected := now;
    }

    /** Whether the cell for day `d` is highlighted, comparing calendar days. */
    predicate IsCellHighlighted(d: int)
      reads this
    {
      IsHighlighted(SameDay, selected, d)
    }

    /** A tap on the cell for day `d`: that cell's date becomes the selected date and only that cell is highlighted. */
    method Select(d: int)
      modifies this
      ensures selected == CellDate(d)
      ensures forall c :: IsCellHighlighted(c) <==> c == d
      ensures forall c :: IsHighlighted(SameInstant, selected, c) <==> c == d
    {
      selected := CellDate(d);
    }
  }
}
