/**
 Month-grid construction of the calendar view.

 The platform calendar is abstracted into two numbers: `n`, the number of
 days in the displayed month, and `w1`, the weekday of day 1.  Weekdays are
 numbered as the Gregorian calendar of Foundation numbers them: 1 is Sunday
 and 7 is Saturday.  A date of the displayed month is represented by its
 day of the month.
 */
module MonthGrid {

  /** The weekday (1..7) of day `i` of a month whose day 1 falls on weekday `w1`. */
  function Weekday(w1: int, i: int): (r: int)
    requires 1 <= w1 <= 7
    ensures 1 <= r <= 7
    ensures i == 1 ==> r == w1
  {
    (w1 - 1 + (i - 1)) % 7 + 1
  }

  /** The day after a Saturday is a Sunday; otherwise the weekday goes up by one. */
  lemma WeekdayNext(w1: int, i: int)
    requires 1 <= w1 <= 7
    ensures Weekday(w1, i + 1) == if Weekday(w1, i) == 7 then 1 else Weekday(w1, i) + 1
  {
  }

  /** Within one week the weekday advances by exactly the distance in days. */
  lemma {:induction false} WeekdayAdvance(w1: int, d: int, k: nat)
    requires 1 <= w1 <= 7
    requires Weekday(w1, d) + k <= 7
    ensures Weekday(w1, d + k) == Weekday(w1, d) + k
  {
    if k > 0 {
      WeekdayAdvance(w1, d, k - 1);
      WeekdayNext(w1, d + k - 1);
    }
  }

  /** The consecutive days lo, lo + 1, ..., hi - 1. */
  function Days(lo: int, hi: int): seq<int>
    requires lo <= hi
  {
    seq(hi - lo, k => lo + k)
  }

  /** The days of a grid read row by row. */
  function Flatten(g: seq<seq<int>>): seq<int>
  {
    if g == [] then [] else g[0] + Flatten(g[1..])
  }

  lemma {:induction false} FlattenAppend(g: seq<seq<int>>, row: seq<int>)
    ensures Flatten(g + [row]) == Flatten(g) + row
  {
    if g == [] {
      assert [] + [row] == [row];
    } else {
      assert (g + [row])[1..] == g[1..] + [row];
      FlattenAppend(g[1..], row);
    }
  }

  /** Day `d` closes its row: it falls on weekday 7 or it is the last day of the month. */
  predicate ClosesRow(w1: int, n: int, d: int)
    requires 1 <= w1 <= 7
  {
    Weekday(w1, d) == 7 || d == n
  }

  /** A row as the loop emits it: non-empty, ended by a closing day, and with no closing day before its end. */
  predicate WellFormedRow(row: seq<int>, n: int, w1: int)
    requires 1 <= w1 <= 7
  {
    && |row| > 0
    && ClosesRow(w1, n, row[|row| - 1])
    && forall k :: 0 <= k < |row| - 1 ==> !ClosesRow(w1, n, row[k])
  }

  /** Every row of `g` obeys the closing rule. */
  predicate RowsWellFormed(g: seq<seq<int>>, n: int, w1: int)
    requires 1 <= w1 <= 7
  {
    forall r :: 0 <= r < |g| ==> WellFormedRow(g[r], n, w1)
  }

  lemma RowsWellFormedCons(row: seq<int>, rest: seq<seq<int>>, n: int, w1: int)
    requires 1 <= w1 <= 7
    ensures RowsWellFormed([row] + rest, n, w1) <==> WellFormedRow(row, n, w1) && RowsWellFormed(rest, n, w1)
  {
    var g := [row] + rest;
    assert g[0] == row;
    assert forall r :: 0 <= r < |rest| ==> rest[r] == g[r + 1];
  }

  lemma RowsWellFormedAppend(g: seq<seq<int>>, row: seq<int>, n: int, w1: int)
    requires 1 <= w1 <= 7
    requires RowsWellFormed(g, n, w1) && WellFormedRow(row, n, w1)
    ensures RowsWellFormed(g + [row], n, w1)
  {
    var h := g + [row];
    assert h[|g|] == row;
    assert forall r :: 0 <= r < |g| ==> h[r] == g[r];
  }

  /** `g` lists the days d..n in order, split into rows by the closing rule. */
  predicate GridFrom(g: seq<seq<int>>, n: int, w1: int, d: int)
    requires 1 <= w1 <= 7
    requires d <= n + 1
  {
    Flatten(g) == Days(d, n + 1) && RowsWellFormed(g, n, w1)
  }

  /** `g` is a grid of the whole month: days 1..n, split by the closing rule. */
  predicate IsMonthGrid(g: seq<seq<int>>, n: int, w1: int)
    requires 1 <= n && 1 <= w1 <= 7
  {
    GridFrom(g, n, w1, 1)
  }

  /** The first closing day at or after `d`: the last day of the row that starts at `d`. */
  function RowEnd(w1: int, n: int, d: int): (e: int)
    requires 1 <= w1 <= 7
    requires d <= n
    ensures d <= e <= n
    ensures ClosesRow(w1, n, e)
    ensures forall j :: d <= j < e ==> !ClosesRow(w1, n, j)
    ensures e - d <= 7 - Weekday(w1, d)
    decreases n - d
  {
    if ClosesRow(w1, n, d) then d
    else
      WeekdayNext(w1, d);
      RowEnd(w1, n, d + 1)
  }

  /** A closing day with no closing day before it, counting from `d`, is `RowEnd(w1, n, d)`. */
  lemma RowEndUnique(w1: int, n: int, d: int, x: int)
    requires 1 <= w1 <= 7
    requires d <= x <= n
    requires ClosesRow(w1, n, x)
    requires forall j :: d <= j < x ==> !ClosesRow(w1, n, j)
    ensures RowEnd(w1, n, d) == x
  {
  }

  /** Reference definition: the rows covering days d..n, each running up to its closing day. */
  function Weeks(w1: int, n: int, d: int): seq<seq<int>>
    requires 1 <= w1 <= 7
    requires 1 <= d <= n + 1
    decreases n + 1 - d
  {
    if d > n then []
    else
      var e := RowEnd(w1, n, d);
      [Days(d, e + 1)] + Weeks(w1, n, e + 1)
  }

  /** Reference definition of the grid of a month with `n` days whose day 1 falls on weekday `w1`. */
  function MonthWeeks(n: int, w1: int): seq<seq<int>>
    requires 1 <= n && 1 <= w1 <= 7
  {
    Weeks(w1, n, 1)
  }

  /** Two adjacent runs of consecutive days make one run. */
  lemma DaysConcat(lo: int, mid: int, hi: int)
    requires lo <= mid <= hi
    ensures Days(lo, mid) + Days(mid, hi) == Days(lo, hi)
  {
  }

  /** A prefix of consecutive days is itself a run of consecutive days, and so is what follows it. */
  lemma SplitDays(row: seq<int>, rest: seq<int>, d: int, hi: int)
    requires d <= hi
    requires row + rest == Days(d, hi)
    ensures row == Days(d, d + |row|)
    ensures rest == Days(d + |row|, hi)
  {
    assert row == (row + rest)[..|row|];
    assert rest == (row + rest)[|row|..];
  }

  /** A grid of days d..n whose first row is the days d..m-1: the first row obeys the rule and the others form a grid of m..n. */
  lemma GridFromCons(row: seq<int>, rest: seq<seq<int>>, n: int, w1: int, d: int, m: int)
    requires 1 <= w1 <= 7
    requires d <= m <= n + 1
    requires row == Days(d, m)
    ensures GridFrom([row] + rest, n, w1, d) <==> WellFormedRow(row, n, w1) && GridFrom(rest, n, w1, m)
  {
    var g := [row] + rest;
    assert g[1..] == rest;
    assert Flatten(g) == row + Flatten(rest);
    DaysConcat(d, m, n + 1);
    if Flatten(g) == Days(d, n + 1) {
      SplitDays(row, Flatten(rest), d, n + 1);
    }
    RowsWellFormedCons(row, rest, n, w1);
  }

  /** The days from `d` up to its row end form a row that obeys the closing rule. */
  lemma RowToEndWellFormed(w1: int, n: int, d: int)
    requires 1 <= w1 <= 7
    requires d <= n
    ensures WellFormedRow(Days(d, RowEnd(w1, n, d) + 1), n, w1)
  {
    var e := RowEnd(w1, n, d);
    var row := Days(d, e + 1);
    assert row[|row| - 1] == e;
    forall k | 0 <= k < |row| - 1
      ensures !ClosesRow(w1, n, row[k])
    {
      assert row[k] == d + k;
    }
  }

  /** One step of the reference definition: the first row runs from `d` to its row end. */
  lemma WeeksUnfold(w1: int, n: int, d: int)
    requires 1 <= w1 <= 7
    requires 1 <= d <= n
    ensures Weeks(w1, n, d) == [Days(d, RowEnd(w1, n, d) + 1)] + Weeks(w1, n, RowEnd(w1, n, d) + 1)
  {
  }

  /** The reference rows, read in order, are exactly the days d..n. */
  lemma {:induction false} WeeksFlatten(w1: int, n: int, d: int)
    requires 1 <= w1 <= 7
    requires 1 <= d <= n + 1
    ensures Flatten(Weeks(w1, n, d)) == Days(d, n + 1)
    decreases n + 1 - d
  {
    if d <= n {
      var e := RowEnd(w1, n, d);
      WeeksFlatten(w1, n, e + 1);
      WeeksUnfold(w1, n, d);
      var rest := Weeks(w1, n, e + 1);
      assert ([Days(d, e + 1)] + rest)[1..] == rest;
      DaysConcat(d, e + 1, n + 1);
    }
  }

  /** Every reference row obeys the closing rule. */
  lemma {:induction false} WeeksRowsWellFormed(w1: int, n: int, d: int)
    requires 1 <= w1 <= 7
    requires 1 <= d <= n + 1
    ensures RowsWellFormed(Weeks(w1, n, d), n, w1)
    decreases n + 1 - d
  {
    if d <= n {
      var e := RowEnd(w1, n, d);
      WeeksRowsWellFormed(w1, n, e + 1);
      WeeksUnfold(w1, n, d);
      RowToEndWellFormed(w1, n, d);
      RowsWellFormedCons(Days(d, e + 1), Weeks(w1, n, e + 1), n, w1);
    }
  }

  /** The reference rows cover d..n in order and each obeys the closing rule. */
  lemma WeeksIsGrid(w1: int, n: int, d: int)
    requires 1 <= w1 <= 7
    requires 1 <= d <= n + 1
    ensures GridFrom(Weeks(w1, n, d), n, w1, d)
  {
    WeeksFlatten(w1, n, d);
    WeeksRowsWellFormed(w1, n, d);
  }

  /** The first row of a grid of days d..n that obeys the closing rule runs from `d` to its row end, and the other rows form a grid of the days after it. */
  lemma FirstRowOfGrid(g: seq<seq<int>>, n: int, w1: int, d: int)
    requires 1 <= w1 <= 7
    requires 1 <= d <= n + 1
    requires GridFrom(g, n, w1, d)
    requires g != []
    ensures d <= n
    ensures g[0] == Days(d, RowEnd(w1, n, d) + 1)
    ensures GridFrom(g[1..], n, w1, RowEnd(w1, n, d) + 1)
  {
    var row, rest := g[0], g[1..];
    assert g == [row] + rest;
    assert Flatten(g) == row + Flatten(rest);
    SplitDays(row, Flatten(rest), d, n + 1);
    var x := d + |row| - 1;
    GridFromCons(row, rest, n, w1, d, x + 1);
    assert row[|row| - 1] == x;
    forall j | d <= j < x
      ensures !ClosesRow(w1, n, j)
    {
      assert row[j - d] == j;
    }
    RowEndUnique(w1, n, d, x);
  }

  /** Any grid of days d..n that obeys the closing rule is the reference grid: the rule fixes every row break. */
  lemma {:induction false} GridFromUnique(g: seq<seq<int>>, n: int, w1: int, d: int)
    requires 1 <= w1 <= 7
    requires 1 <= d <= n + 1
    requires GridFrom(g, n, w1, d)
    ensures g == Weeks(w1, n, d)
    decreases |g|
  {
    if g != [] {
      FirstRowOfGrid(g, n, w1, d);
      GridFromUnique(g[1..], n, w1, RowEnd(w1, n, d) + 1);
      WeeksUnfold(w1, n, d);
      assert g == [g[0]] + g[1..];
    }
  }

  /** The month grid is determined by the closing rule: the reference grid satisfies it and nothing else does. */
  lemma MonthGridCharacterised(g: seq<seq<int>>, n: int, w1: int)
    requires 1 <= n && 1 <= w1 <= 7
    ensures IsMonthGrid(MonthWeeks(n, w1), n, w1)
    ensures IsMonthGrid(g, n, w1) <==> g == MonthWeeks(n, w1)
  {
    WeeksIsGrid(w1, n, 1);
    if IsMonthGrid(g, n, w1) {
      GridFromUnique(g, n, w1, 1);
    }
  }

  /**
   The loop of the calendar view: walk the days 1..n, append each to the
   current week, and move the week into the grid when the day falls on
   weekday 7 or is the last day of the month.
   */
  method BuildMonthGrid(n: int, w1: int) returns (grid: seq<seq<int>>)
    requires 1 <= n
    requires 1 <= w1 <= 7
    ensures IsMonthGrid(grid, n, w1)
    ensures grid == MonthWeeks(n, w1)
  {
    grid := [];
    var week: seq<int> := [];
    for i := 1 to n + 1
      invariant Flatten(grid) + week == Days(1, i)
      invariant RowsWellFormed(grid, n, w1)
      invariant forall k :: 0 <= k < |week| ==> !ClosesRow(w1, n, week[k])
    {
      DaysConcat(1, i, i + 1);
      week := week + [i];
      if Weekday(w1, i) == 7 || i == n {
        FlattenAppend(grid, week);
        RowsWellFormedAppend(grid, week, n, w1);
        grid := grid + [week];
        week := [];
      }
    }
    NoWeekLeftOpen(grid, week, n, w1);
    assert week == [];
    MonthGridCharacterised(grid, n, w1);
  }

  /** When the loop ends, the last day n has closed its row, so no partial week is left behind. */
  lemma NoWeekLeftOpen(grid: seq<seq<int>>, week: seq<int>, n: int, w1: int)
    requires 1 <= n && 1 <= w1 <= 7
    requires Flatten(grid) + week == Days(1, n + 1)
    requires forall k :: 0 <= k < |week| ==> !ClosesRow(w1, n, week[k])
    ensures week == []
    ensures Flatten(grid) == Days(1, n + 1)
  {
    var all := Flatten(grid) + week;
    assert all[n - 1] == n;
  }

  /** Every row holds between one and seven days. */
  lemma {:induction false} RowsAtMostAWeek(w1: int, n: int, d: int)
    requires 1 <= w1 <= 7
    requires 1 <= d <= n + 1
    ensures forall r :: 0 <= r < |Weeks(w1, n, d)| ==> 1 <= |Weeks(w1, n, d)[r]| <= 7
    decreases n + 1 - d
  {
    if d <= n {
      var e := RowEnd(w1, n, d);
      RowsAtMostAWeek(w1, n, e + 1);
      var g := Weeks(w1, n, d);
      forall r | 0 <= r < |g|
        ensures 1 <= |g[r]| <= 7
      {
        if r > 0 {
          assert g[r] == Weeks(w1, n, e + 1)[r - 1];
        }
      }
    }
  }

  /** A row that starts on weekday 1 and is not the month's last row runs weekday 1 through weekday 7. */
  lemma FullWeek(w1: int, n: int, d: int)
    requires 1 <= w1 <= 7
    requires 1 <= d <= n
    requires Weekday(w1, d) == 1
    requires RowEnd(w1, n, d) < n
    ensures RowEnd(w1, n, d) == d + 6
    ensures forall j :: d <= j < d + 7 ==> Weekday(w1, j) == j - d + 1
  {
    var e := RowEnd(w1, n, d);
    forall j | d <= j < d + 7
      ensures Weekday(w1, j) == j - d + 1
    {
      WeekdayAdvance(w1, d, j - d);
    }
    WeekdayAdvance(w1, d, e - d);
  }

  /** The first row runs up to the first weekday 7; the second row, when the month reaches its end, is a full week. */
  lemma SecondRow(n: int, w1: int)
    requires 1 <= w1 <= 7
    requires 16 - w1 <= n
    ensures |MonthWeeks(n, w1)| > 1
    ensures MonthWeeks(n, w1)[0] == Days(1, 9 - w1)
    ensures MonthWeeks(n, w1)[1] == Days(9 - w1, 16 - w1)
    ensures Weekday(w1, 9 - w1) == 1
  {
    var e1 := RowEnd(w1, n, 1);
    WeekdayAdvance(w1, 1, e1 - 1);
    WeekdayNext(w1, 8 - w1);
    FullWeek(w1, n, 9 - w1);
    var rest := Weeks(w1, n, 9 - w1);
    assert MonthWeeks(n, w1) == [Days(1, 9 - w1)] + rest;
    assert rest == [Days(9 - w1, 16 - w1)] + Weeks(w1, n, 16 - w1);
  }

  /** A row of seven days whose weekdays run 1 through 7 in column order. */
  predicate FullWeekRow(row: seq<int>, w1: int)
    requires 1 <= w1 <= 7
  {
    |row| == 7 && forall k :: 0 <= k < 7 ==> Weekday(w1, row[k]) == k + 1
  }

  /** From a row starting on weekday 1, every row but the last is a full week. */
  lemma {:induction false} FullWeeksFrom(w1: int, n: int, d: int)
    requires 1 <= w1 <= 7
    requires 1 <= d <= n + 1
    requires d <= n ==> Weekday(w1, d) == 1
    ensures forall r :: 0 <= r < |Weeks(w1, n, d)| - 1 ==> FullWeekRow(Weeks(w1, n, d)[r], w1)
    decreases n + 1 - d
  {
    if d <= n {
      var e := RowEnd(w1, n, d);
      var g := Weeks(w1, n, d);
      var rest := Weeks(w1, n, e + 1);
      assert g == [Days(d, e + 1)] + rest;
      if e < n {
        FullWeek(w1, n, d);
        assert FullWeekRow(g[0], w1);
        WeekdayNext(w1, e);
        FullWeeksFrom(w1, n, e + 1);
        forall r | 1 <= r < |g| - 1
          ensures FullWeekRow(g[r], w1)
        {
          assert g[r] == rest[r - 1];
        }
      } else {
        assert rest == [];
      }
    }
  }

  /** Every row other than the first and the last is a full week, weekday 1 through weekday 7. */
  lemma InnerRowsAreFullWeeks(n: int, w1: int)
    requires 1 <= n && 1 <= w1 <= 7
    ensures forall r :: 0 < r < |MonthWeeks(n, w1)| - 1 ==> FullWeekRow(MonthWeeks(n, w1)[r], w1)
  {
    var e := RowEnd(w1, n, 1);
    var g := MonthWeeks(n, w1);
    var rest := Weeks(w1, n, e + 1);
    assert g == [Days(1, e + 1)] + rest;
    if e < n {
      WeekdayNext(w1, e);
    }
    FullWeeksFrom(w1, n, e + 1);
    forall r | 0 < r < |g| - 1
      ensures FullWeekRow(g[r], w1)
    {
      assert g[r] == rest[r - 1];
    }
  }

  /** The number of days j with lo <= j < hi that fall on weekday 7. */
  function Saturdays(w1: int, lo: int, hi: int): nat
    requires 1 <= w1 <= 7
    decreases hi - lo
  {
    if lo >= hi then 0
    else (if Weekday(w1, lo) == 7 then 1 else 0) + Saturdays(w1, lo + 1, hi)
  }

  lemma {:induction false} SaturdaysSplit(w1: int, lo: int, mid: int, hi: int)
    requires 1 <= w1 <= 7
    requires lo <= mid <= hi
    ensures Saturdays(w1, lo, hi) == Saturdays(w1, lo, mid) + Saturdays(w1, mid, hi)
    decreases mid - lo
  {
    if lo < mid {
      SaturdaysSplit(w1, lo + 1, mid, hi);
    }
  }

  lemma {:induction false} NoSaturdaysBeforeRowEnd(w1: int, n: int, d: int, j: int)
    requires 1 <= w1 <= 7
    requires d <= n
    requires d <= j <= RowEnd(w1, n, d)
    ensures Saturdays(w1, j, RowEnd(w1, n, d)) == 0
    decreases RowEnd(w1, n, d) - j
  {
    if j < RowEnd(w1, n, d) {
      assert !ClosesRow(w1, n, j);
      NoSaturdaysBeforeRowEnd(w1, n, d, j + 1);
    }
  }

  /** Rows from day d: one per day in d..n-1 falling on weekday 7, plus the row closed by day n. */
  lemma {:induction false} WeeksCount(w1: int, n: int, d: int)
    requires 1 <= w1 <= 7
    requires 1 <= d <= n
    ensures |Weeks(w1, n, d)| == Saturdays(w1, d, n) + 1
    decreases n - d
  {
    var e := RowEnd(w1, n, d);
    SaturdaysSplit(w1, d, e, n);
    NoSaturdaysBeforeRowEnd(w1, n, d, d);
    if e < n {
      WeeksCount(w1, n, e + 1);
    }
  }

  /** The month has one row per day in 1..n-1 that falls on weekday 7, plus one. */
  lemma RowCount(n: int, w1: int)
    requires 1 <= n && 1 <= w1 <= 7
    ensures |MonthWeeks(n, w1)| == Saturdays(w1, 1, n) + 1
  {
    WeeksCount(w1, n, 1);
  }

  /** The trailing partial week is flushed: the last row ends with day n. */
  lemma {:induction false} LastRowEndsMonth(w1: int, n: int, d: int)
    requires 1 <= w1 <= 7
    requires 1 <= d <= n
    ensures var g := Weeks(w1, n, d); |g| > 0 && |g[|g| - 1]| > 0 && g[|g| - 1][|g[|g| - 1]| - 1] == n
    decreases n - d
  {
    var e := RowEnd(w1, n, d);
    var g := Weeks(w1, n, d);
    var rest := Weeks(w1, n, e + 1);
    assert g == [Days(d, e + 1)] + rest;
    if e < n {
      LastRowEndsMonth(w1, n, e + 1);
      assert g[|g| - 1] == rest[|rest| - 1];
    } else {
      assert rest == [];
      assert g[|g| - 1] == Days(d, e + 1);
    }
  }
}
