# Calendar month grid, weekday header and day selection

A model of the logic inside `CalendarGridView` of a single-screen SwiftUI
calendar: the loop that splits the days of the selected month into week
rows, the row of weekday labels above them, and the selected date that a
tap on a day cell replaces and that decides which cell is highlighted.

The platform calendar is abstracted into two numbers: `n`, the number of
days in the month of the selected date (at least 1; the source's
`1...numberOfDaysInMonth` traps on 0), and `w1`, the weekday of day 1,
numbered as Foundation numbers Gregorian weekdays (1 is Sunday, 7 is
Saturday). The weekday of day `i` is then `((w1 - 1) + (i - 1)) % 7 + 1`.
A date of the displayed month is represented by its day of the month.

- `month_grid.dfy` (module `MonthGrid`): `BuildMonthGrid` is the loop of
  `monthGrid()`, with its two buffers `week` and `grid`. It is proved
  against two independent descriptions of the result: the predicate
  `IsMonthGrid` (the rows read in order are exactly days 1..n, and every
  row is non-empty, ends with a day of weekday 7 or with day n, and holds
  no such day before its end) and the recursive reference definition
  `MonthWeeks` (each row runs from its first day to `RowEnd`, the first
  closing day). `MonthGridCharacterised` proves that the two agree and
  that the predicate has no other solution. The row bounds, the full
  inner weeks, the row count and the flushed last week are lemmas about
  `MonthWeeks`.
- `weekday_header.dfy` (module `WeekdayHeader`): `dayOfWeekSymbol` and
  the seven header labels it yields for the indices 1..7.
- `selection.dfy` (module `Selection`): the selected date as an instant
  (day of month and the time since the start of that day, a real number
  of seconds, as Foundation's dates carry fractions), the highlight rule,
  the number of highlighted cells of a grid, and the class `DateState` whose
  `Select` is the tap action.

## Model

| member | source | states |
|---|---|---|
| `MonthGrid.Weekday` | Calender/ContentView.swift:122 | the weekday of a day lies in 1..7 and day 1 has weekday `w1` |
| `MonthGrid.RowEnd` | Calender/ContentView.swift:118-125 | the day that closes the row started at `d` is the first day at or after `d` that falls on weekday 7 or is day n; it lies in d..n and at most `7 - weekday(d)` days after `d` |
| `MonthGrid.RowEndUnique` | Calender/ContentView.swift:121-124 | helper of `FirstRowOfGrid`: any day that closes a row and has no closing day between `d` and itself is that row's end |
| `MonthGrid.BuildMonthGrid` | Calender/ContentView.swift:107-130 | the loop returns a grid whose rows read in order are exactly days 1..n, each row non-empty, ending with weekday 7 or day n and holding no closing day before its end; no partial week is left in the buffer; the result equals the reference grid `MonthWeeks` |
| `MonthGrid.NoWeekLeftOpen` | Calender/ContentView.swift:122-129 | when the loop ends the week buffer is empty and the grid holds every day 1..n, because day n always closes its row |
| `MonthGrid.WeeksFlatten` | Calender/ContentView.swift:115-127 | the reference rows from day `d`, read in order, are exactly the days d..n |
| `MonthGrid.WeeksRowsWellFormed` | Calender/ContentView.swift:121-124 | every reference row is non-empty, ends with a closing day and holds no closing day before its end |
| `MonthGrid.FirstRowOfGrid` | Calender/ContentView.swift:121-124 | in any split of days d..n obeying the closing rule, the first row runs from `d` to the first closing day and the remaining rows split the days after it |
| `MonthGrid.WeeksIsGrid` | Calender/ContentView.swift:115-127 | the reference rows from day `d` cover d..n in order with no gap or repeat, and each row obeys the closing rule |
| `MonthGrid.GridFromUnique` | Calender/ContentView.swift:122-124 | any split of days d..n into rows that obeys the closing rule is the reference split: the rule fixes every row break |
| `MonthGrid.MonthGridCharacterised` | Calender/ContentView.swift:115-129 | the reference grid is a month grid, and a sequence of rows is a month grid if and only if it is the reference grid |
| `MonthGrid.RowsAtMostAWeek` | Calender/ContentView.swift:118-125 | every row holds between one and seven days |
| `MonthGrid.FullWeek` | Calender/ContentView.swift:122 | a row starting on weekday 1 that does not reach day n ends six days later, its days having weekdays 1 through 7 |
| `MonthGrid.FullWeeksFrom` | Calender/ContentView.swift:118-125 | from a row starting on weekday 1, every row but the last holds seven days with weekdays 1..7 in column order |
| `MonthGrid.InnerRowsAreFullWeeks` | Calender/ContentView.swift:118-125 | every row other than the first and the last holds seven days, the day in column k having weekday k + 1 |
| `MonthGrid.SecondRow` | Calender/ContentView.swift:118-125 | the first row is days 1..8-w1 and, in a month long enough, the second row is the full week from day 9-w1, a weekday 1 |
| `MonthGrid.WeeksCount` | Calender/ContentView.swift:122-123 | the rows from day `d` number one per day of d..n-1 falling on weekday 7, plus one |
| `MonthGrid.RowCount` | Calender/ContentView.swift:122-123 | the month grid has one row per day of 1..n-1 falling on weekday 7, plus one |
| `MonthGrid.LastRowEndsMonth` | Calender/ContentView.swift:122-124 | the grid is non-empty and its last row ends with day n: the trailing partial week is flushed |
| `MonthGrid.SaturdaysSplit` | Calender/ContentView.swift:122-123 | helper of `WeeksCount`: counting weekday-7 days over a range is the sum of the counts over two adjacent parts |
| `WeekdayHeader.DayOfWeekSymbol` | Calender/ContentView.swift:132-136 | the label is an entry of the symbol table; with seven symbols, index 1..6 reads that entry and index 7 reads entry 0 |
| `WeekdayHeader.Header` | Calender/ContentView.swift:77-78 | the header has seven labels, each an entry of the symbol table |
| `WeekdayHeader.HeaderRotation` | Calender/ContentView.swift:77-78 | with a seven-entry table the header reads entries 1..6 and then entry 0 |
| `WeekdayHeader.HeaderIsPermutation` | Calender/ContentView.swift:77-78 | with a seven-entry table the header is a permutation of the table |
| `WeekdayHeader.HeaderMisalignedWithGrid` | Calender/ContentView.swift:77-78 | with seven distinct symbols, the label over column k of every full inner week names a different weekday from the day in that column |
| `WeekdayHeader.AlignedDayOfWeekSymbol` | Calender/ContentView.swift:132-136 | corrected label: with seven symbols, index 1..7 reads the symbol of weekday `index` |
| `WeekdayHeader.AlignedHeader` | Calender/ContentView.swift:77-78 | corrected header: with seven symbols it is the table itself, Sunday first |
| `WeekdayHeader.AlignedHeaderMatchesGrid` | Calender/ContentView.swift:77-78 | with the corrected header, the label over column k of every full inner week names the weekday of the day in that column |
| `Selection.IsHighlighted` | Calender/ContentView.swift:97 | a highlighted cell is always the cell of the selected date's day; compared as instants, the cell of day d is highlighted exactly when the selected date is day d at zero seconds into the day |
| `Selection.RowHighlightsConcat` | Calender/ContentView.swift:97 | highlighted cells of two runs of days add up |
| `Selection.GridHighlightsFlatten` | Calender/ContentView.swift:88-97 | counting highlighted cells row by row equals counting them over the days read in order |
| `Selection.DaysHighlights` | Calender/ContentView.swift:97 | over consecutive days, the selected date highlights one cell if it falls in the range (and, compared as an instant, lies at the start of its day), else none |
| `Selection.GridHighlightCount` | Calender/ContentView.swift:88-97 | a month grid has exactly one highlighted cell when the selected date matches one of days 1..n, and none otherwise |
| `Selection.SelectHighlightsOneCell` | Calender/ContentView.swift:92-97 | after a tap on the cell of day d of the month, exactly one cell of the grid is highlighted, under either comparison |
| `Selection.LaunchHighlightsNothing` | Calender/ContentView.swift:12 | as written: a selected instant that is not the start of its day, such as the start-up instant, highlights no cell at all |
| `Selection.LaunchHighlightsToday` | Calender/ContentView.swift:97 | corrected: comparing calendar days, a selected date in days 1..n highlights exactly its own cell |
| `Selection.DateState.constructor` | Calender/ContentView.swift:12 | at start-up the selected date is the current instant, and (comparing calendar days) the cell of its day is the one highlighted |
| `Selection.DateState.Select` | Calender/ContentView.swift:91-93 | a tap makes the cell's date the selected date; afterwards that cell, and only that cell, is highlighted, under either comparison |

## Left out

- Month navigation (`Calender/ContentView.swift:45-60`): adding or subtracting a month is Foundation's date arithmetic with its own clamping rules, which this code does not show.
- `formattedMonthYear` (`Calender/ContentView.swift:64-68`): locale-dependent formatting by a foreign library.
- Real calendar computations (`Calender/ContentView.swift:108-113`): start of day, the day count of the month, component extraction, time zones and leap years are the inputs `n` and `w1`, not reimplemented.
- The failure branch of `if let date = calendar.date(from:)` (`Calender/ContentView.swift:120`): date construction from valid components is taken to succeed, as the source assumes.
- `dayOfMonth` (`Calender/ContentView.swift:138-141`): cells are represented by their day of the month, so it is the identity here.
- SwiftUI layout, fonts, colours and previews; the dates' year and month, which are those of the selected date throughout.
- `Selection.DateState.IsCellHighlighted`: uses the corrected comparison of calendar days; the comparison of instants as written at line 97 is `IsHighlighted(SameInstant, …)`. The two agree after every tap (`Select` states both), but differ at start-up: the corrected rule highlights the cell of today, while line 97 highlights no cell unless the current instant is exactly the start of its day (`LaunchHighlightsNothing`).
- `WeekdayHeader.DayOfWeekSymbol`: requires a non-empty table and a non-negative index. Its only call site (line 77) passes the indices 1..7. Swift's `%` truncates toward zero, so a negative index that is a multiple of the table size (such as -7) would read entry 0 without trapping; negative indices are excluded all the same.
- Line 97 compares instants, not calendar days; the model keeps that comparison as `SameInstant` and records its consequence under Findings.

## Findings

| source | as written | input that shows it | evidently intended | confidence | as-written member | corrected member |
|---|---|---|---|---|---|---|
| Calender/ContentView.swift:77-78 | the label of column k is `symbols[(k + 1) % 7]`, so the header reads Mon..Sun, while the rows break after weekday 7 (Saturday) and so run Sun..Sat | April 2024 (n = 30, w1 = 2, day 1 a Monday): by `MonthGrid.SecondRow` the second row is days 7..13 starting on a Sunday, and its first cell sits under the label "Mon" | the label of column k names the weekday of the days beneath it, `symbols[k]` | medium; not executed | `WeekdayHeader.HeaderMisalignedWithGrid` | `WeekdayHeader.AlignedHeaderMatchesGrid` |
| Calender/ContentView.swift:12 | the selected date starts as the current instant, while the cells hold start-of-day dates and line 97 compares instants with `==` | launch at any time other than exactly midnight: no cell of the month is highlighted until a cell is tapped | the cell of today is highlighted at start-up (compare calendar days) | high; not executed | `Selection.LaunchHighlightsNothing` | `Selection.LaunchHighlightsToday` |
