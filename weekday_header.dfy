/**
 The row of weekday labels above the month grid.

 The view reads the calendar's short weekday symbols (index 0 is Sunday,
 index 6 is Saturday) at the indices 1..7, each taken modulo the number of
 symbols.
 */
module WeekdayHeader {
  import MonthGrid

  /** The label of header column `index`: the symbol at `index` modulo the size of the table. */
  function DayOfWeekSymbol(symbols: seq<string>, index: int): (r: string)
    requires |symbols| > 0
    requires 0 <= index
    ensures r in symbols
    ensures |symbols| == 7 && 1 <= index < 7 ==> r == symbols[index]
    ensures |symbols| == 7 && index == 7 ==> r == symbols[0]
  {
    symbols[index % |symbols|]
  }

  /** The seven header labels, for the indices 1 through 7. */
  function Header(symbols: seq<string>): (h: seq<string>)
    requires |symbols| > 0
    ensures |h| == 7
    ensures forall k :: 0 <= k < 7 ==> h[k] in symbols
  {
    seq(7, k requires 0 <= k < 7 => DayOfWeekSymbol(symbols, k + 1))
  }

  /** With a seven-entry table the header reads entries 1..6 and then entry 0. */
  lemma HeaderRotation(symbols: seq<string>)
    requires |symbols| == 7
    ensures Header(symbols) == symbols[1..] + [symbols[0]]
  {
    var h := Header(symbols);
    forall k | 0 <= k < 7
      ensures h[k] == (symbols[1..] + [symbols[0]])[k]
    {
      assert h[k] == DayOfWeekSymbol(symbols, k + 1);
    }
  }

  /** With a seven-entry table the header shows every symbol exactly as often as the table holds it. */
  lemma HeaderIsPermutation(symbols: seq<string>)
    requires |symbols| == 7
    ensures multiset(Header(symbols)) == multiset(symbols)
  {
    HeaderRotation(symbols);
    assert symbols == [symbols[0]] + symbols[1..];
  }

  /** The symbol that names weekday `w` (1 is Sunday) in a seven-entry table. */
  function SymbolOfWeekday(symbols: seq<string>, w: int): string
    requires |symbols| == 7
    requires 1 <= w <= 7
  {
    symbols[w - 1]
  }

  /**
   As written, the label over column k of a full week names the weekday
   after the one of the day below it: full-week rows run weekday 1 to 7
   (they break after weekday 7), while the header starts at index 1.
   */
  lemma HeaderMisalignedWithGrid(symbols: seq<string>, n: int, w1: int, r: int, k: int)
    requires |symbols| == 7
    requires forall i, j :: 0 <= i < j < 7 ==> symbols[i] != symbols[j]
    requires 1 <= n && 1 <= w1 <= 7
    requires 0 < r < |MonthGrid.MonthWeeks(n, w1)| - 1
    requires 0 <= k < 7
    ensures |MonthGrid.MonthWeeks(n, w1)[r]| == 7
    ensures Header(symbols)[k] != SymbolOfWeekday(symbols, MonthGrid.Weekday(w1, MonthGrid.MonthWeeks(n, w1)[r][k]))
  {
    MonthGrid.InnerRowsAreFullWeeks(n, w1);
    var row := MonthGrid.MonthWeeks(n, w1)[r];
    assert MonthGrid.FullWeekRow(row, w1);
    assert MonthGrid.Weekday(w1, row[k]) == k + 1;
    assert Header(symbols)[k] == DayOfWeekSymbol(symbols, k + 1);
    if k < 6 {
      assert symbols[k] != symbols[k + 1];
    } else {
      assert symbols[0] != symbols[6];
    }
  }

  /** Corrected label: header column `index` (1..7) names weekday `index`. */
  function AlignedDayOfWeekSymbol(symbols: seq<string>, index: int): (r: string)
    requires |symbols| > 0
    requires 1 <= index
    ensures r in symbols
    ensures |symbols| == 7 && index <= 7 ==> r == SymbolOfWeekday(symbols, index)
  {
    symbols[(index - 1) % |symbols|]
  }

  /** Corrected header, for the indices 1 through 7. */
  function AlignedHeader(symbols: seq<string>): (h: seq<string>)
    requires |symbols| > 0
    ensures |h| == 7
    ensures |symbols| == 7 ==> h == symbols
  {
    seq(7, k requires 0 <= k < 7 => AlignedDayOfWeekSymbol(symbols, k + 1))
  }

  /** With the corrected header, every label of a full week names the weekday of the day below it. */
  lemma AlignedHeaderMatchesGrid(symbols: seq<string>, n: int, w1: int, r: int, k: int)
    requires |symbols| == 7
    requires 1 <= n && 1 <= w1 <= 7
    requires 0 < r < |MonthGrid.MonthWeeks(n, w1)| - 1
    requires 0 <= k < 7
    ensures |MonthGrid.MonthWeeks(n, w1)[r]| == 7
    ensures AlignedHeader(symbols)[k] == SymbolOfWeekday(symbols, MonthGrid.Weekday(w1, MonthGrid.MonthWeeks(n, w1)[r][k]))
  {
    MonthGrid.InnerRowsAreFullWeeks(n, w1);
    assert MonthGrid.FullWeekRow(MonthGrid.MonthWeeks(n, w1)[r], w1);
  }
}
