/**
 * The winrate-by-month view: matches folded into `{ wins, total }` per
 * `YYYY-MM` month, projected into rows with a winrate, listed newest month
 * first in the table and oldest first in the chart.
 */
module WinrateByMonth {
  import opened Seqs
  import opened Tally
  import opened Games

  /**
   * The `matches.forEach` loop: `stats` ends as the month table of the
   * whole list and `order` lists its months in first-occurrence order.
   */
  method StatsByMonth(matches: seq<Game>, wtc: bool) returns (stats: map<string, WinStats>, order: seq<string>)
    ensures stats == WinTable(matches, ByMonth, wtc)
    ensures order == Distinct(KeyList(matches, ByMonth))
  {
    stats, order := map[], [];
    var i := 0;
    while i < |matches|
      invariant 0 <= i <= |matches|
      invariant stats == WinTable(matches[..i], ByMonth, wtc)
      invariant order == Distinct(KeyList(matches[..i], ByMonth))
    {
      var game := matches[i];
      var monthKey := MonthOf(game);
      WinFoldStep(matches, i, ByMonth, wtc, stats, order);
      if monthKey !in stats {
        order := order + [monthKey];
      }
      var won := WonUnder(game, wtc);
      stats := AddResult(stats, monthKey, won);
      i := i + 1;
    }
    assert matches[..|matches|] == matches;
  }

  /** The `if (filters.wtc) ... else ...` win test of the loop body. */
  method WonUnder(game: Game, wtc: bool) returns (won: bool)
    ensures won == IsWin(game, wtc)
  {
    if wtc {
      won := game.userWtcScore > game.opponentWtcScore;
    } else {
      won := game.userScore > game.opponentScore;
    }
  }

  /** The sort key of a month row. */
  function MonthKey(row: WinRow): string {
    row.key
  }

  /** `monthArray`: the month rows sorted by `b.month.localeCompare(a.month)`, newest first. */
  function MonthArray(ms: seq<Game>, wtc: bool): seq<WinRow> {
    SortBy(TableRows(ms, ByMonth, wtc), MonthKey, true)
  }

  /** The chart's data, `monthArray.slice().reverse()`: a reversed copy. */
  function ChartData(ms: seq<Game>, wtc: bool): seq<WinRow> {
    Reverse(MonthArray(ms, wtc))
  }

  /** The month rows have pairwise distinct months. */
  lemma MonthsDistinct(ms: seq<Game>, wtc: bool)
    ensures DistinctKeys(TableRows(ms, ByMonth, wtc), MonthKey)
  {
    var rows := TableRows(ms, ByMonth, wtc);
    TableRowKeys(ms, ByMonth, wtc);
    forall i, j | 0 <= i < j < |rows| ensures MonthKey(rows[i]) != MonthKey(rows[j]) {
      assert RowKeys(rows)[i] == rows[i].key && RowKeys(rows)[j] == rows[j].key;
    }
  }

  /**
   * The table lists exactly the month rows, each month once, strictly
   * newest first; it is empty (the "No matches found" branch) exactly when
   * there are no matches.
   */
  lemma MonthArrayFacts(ms: seq<Game>, wtc: bool)
    ensures multiset(MonthArray(ms, wtc)) == multiset(TableRows(ms, ByMonth, wtc))
    ensures StrictlyOrdered(MonthArray(ms, wtc), MonthKey, true)
    ensures |MonthArray(ms, wtc)| == |Distinct(KeyList(ms, ByMonth))|
    ensures MonthArray(ms, wtc) == [] <==> ms == []
  {
    var rows := TableRows(ms, ByMonth, wtc);
    MonthsDistinct(ms, wtc);
    SortByCorrect(rows, MonthKey, true);
    SortByStrict(rows, MonthKey, true);
    TableRowsFacts(ms, ByMonth, wtc);
    assert |MonthArray(ms, wtc)| == |multiset(MonthArray(ms, wtc))| == |rows|;
    if ms != [] {
      assert KeyOf(ms[0], ByMonth) in KeyList(ms, ByMonth);
    }
  }

  /** Every row of the table is a month with games, at most as many wins, and a winrate in 0..100. */
  lemma MonthRowsBounded(ms: seq<Game>, wtc: bool)
    ensures forall row | row in MonthArray(ms, wtc) ::
      row.total == |Only(ms, ByMonth, row.key)| >= 1
      && 0 <= row.wins <= row.total
      && row.winrate.Some? && 0.0 <= row.winrate.value <= 100.0
  {
    MonthArrayFacts(ms, wtc);
    SameMembers(MonthArray(ms, wtc), TableRows(ms, ByMonth, wtc));
    TableRowsFacts(ms, ByMonth, wtc);
    forall row | row in MonthArray(ms, wtc)
      ensures RowFits(ms, ByMonth, row)
    {
      var rows := TableRows(ms, ByMonth, wtc);
      var i :| 0 <= i < |rows| && rows[i] == row;
    }
  }

  /** The chart shows the same rows as the table, oldest month first, and reversing it again gives the table. */
  lemma ChartIsTableReversed(ms: seq<Game>, wtc: bool)
    ensures StrictlyOrdered(ChartData(ms, wtc), MonthKey, false)
    ensures Reverse(ChartData(ms, wtc)) == MonthArray(ms, wtc)
    ensures |ChartData(ms, wtc)| == |MonthArray(ms, wtc)|
  {
    MonthArrayFacts(ms, wtc);
    ReverseOrdered(MonthArray(ms, wtc), MonthKey, true);
    ReverseReverse(MonthArray(ms, wtc));
  }
}
