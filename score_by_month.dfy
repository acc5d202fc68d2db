/**
 * The score-by-month view: the user's score summed per `YYYY-MM` month
 * together with the number of games, projected into rows with the average
 * score, listed newest month first in the table; the chart receives the
 * same rows after `monthArray.reverse()` has reversed them in place.
 */
module ScoreByMonth {
  import opened Wrappers
  import opened Seqs
  import opened Tally
  import opened Games

  /** The `{ score, games }` counters of one month. */
  datatype ScoreStats = ScoreStats(score: int, games: int)

  /** One step of the fold: create the entry at zero if missing, count the game, add the score. */
  function AddScore(t: map<string, ScoreStats>, key: string, score: int): map<string, ScoreStats> {
    var s := if key in t then t[key] else ScoreStats(0, 0);
    t[key := ScoreStats(s.score + score, s.games + 1)]
  }

  /** The `statsByMonth` dictionary the fold over `gs` builds, one step per match. */
  function ScoreTable(gs: seq<Game>, wtc: bool): map<string, ScoreStats>
    decreases |gs|
  {
    if gs == [] then map[]
    else
      var g := gs[|gs| - 1];
      AddScore(ScoreTable(gs[..|gs| - 1], wtc), MonthOf(g), UserSide(g, wtc))
  }

  lemma ScoreTableSnoc(gs: seq<Game>, g: Game, wtc: bool)
    ensures ScoreTable(gs + [g], wtc) == AddScore(ScoreTable(gs, wtc), MonthOf(g), UserSide(g, wtc))
  {
    assert (gs + [g])[..|gs|] == gs;
  }

  /** The counters of month `k` in `t`, zero when `t` has no entry for it. */
  function ScoreEntryOr(t: map<string, ScoreStats>, k: string): ScoreStats {
    if k in t then t[k] else ScoreStats(0, 0)
  }

  /** A step adds the score and the game to its own month's counters and changes no other month's. */
  lemma AddScoreCounts(t: map<string, ScoreStats>, key: string, score: int, k: string)
    ensures ScoreEntryOr(AddScore(t, key, score), k)
         == if key == k then ScoreStats(ScoreEntryOr(t, k).score + score, ScoreEntryOr(t, k).games + 1)
            else ScoreEntryOr(t, k)
  {
  }

  /** Missing entries read as zero, every month's counters are its score sum and its game count. */
  lemma {:induction false} ScoreTableCounts(gs: seq<Game>, wtc: bool, k: string)
    ensures ScoreEntryOr(ScoreTable(gs, wtc), k)
         == ScoreStats(WeightOf(Observe(gs, ByMonth, Scored(wtc)), k), WeightOf(Observe(gs, ByMonth, Played), k))
    decreases |gs|
  {
    if gs != [] {
      var p, g := gs[..|gs| - 1], gs[|gs| - 1];
      assert gs == p + [g];
      ScoreTableCounts(p, wtc, k);
      WeightOfSnoc(p, g, ByMonth, Scored(wtc), k);
      WeightOfSnoc(p, g, ByMonth, Played, k);
      AddScoreCounts(ScoreTable(p, wtc), MonthOf(g), UserSide(g, wtc), k);
    }
  }

  /** The dictionary has an entry exactly for the months of the matches. */
  lemma {:induction false} ScoreTableHas(gs: seq<Game>, wtc: bool, k: string)
    ensures k in ScoreTable(gs, wtc) <==> k in KeyList(gs, ByMonth)
    decreases |gs|
  {
    if gs != [] {
      var p, g := gs[..|gs| - 1], gs[|gs| - 1];
      assert gs == p + [g];
      ScoreTableHas(p, wtc, k);
      KeyListSnoc(p, g, ByMonth);
    }
  }

  /**
   * The dictionary has an entry exactly for the months of the matches, and
   * a month's entry holds the sum of that month's selected user scores and
   * its number of games.
   */
  lemma ScoreTableAt(gs: seq<Game>, wtc: bool, k: string)
    ensures k in ScoreTable(gs, wtc) <==> k in KeyList(gs, ByMonth)
    ensures k in ScoreTable(gs, wtc) ==>
      ScoreTable(gs, wtc)[k] == ScoreStats(WeightOf(Observe(gs, ByMonth, Scored(wtc)), k), WeightOf(Observe(gs, ByMonth, Played), k))
  {
    ScoreTableHas(gs, wtc, k);
    ScoreTableCounts(gs, wtc, k);
  }

  /** One pass of the loop at index `i`, from the dictionary `t` and month order `order` of `gs[..i]`. */
  lemma ScoreFoldStep(gs: seq<Game>, i: nat, wtc: bool, t: map<string, ScoreStats>, order: seq<string>)
    requires i < |gs|
    requires t == ScoreTable(gs[..i], wtc)
    requires order == Distinct(KeyList(gs[..i], ByMonth))
    ensures ScoreTable(gs[..i + 1], wtc) == AddScore(t, MonthOf(gs[i]), UserSide(gs[i], wtc))
    ensures Distinct(KeyList(gs[..i + 1], ByMonth))
         == if MonthOf(gs[i]) in t then order else order + [MonthOf(gs[i])]
  {
    TakeOneMore(gs, i);
    ScoreTableSnoc(gs[..i], gs[i], wtc);
    DistinctKeyListSnoc(gs[..i], gs[i], ByMonth);
    ScoreTableHas(gs[..i], wtc, MonthOf(gs[i]));
  }

  /** The `if (filters.wtc) ... else ...` choice of the score the loop body adds. */
  method ScoreUnder(game: Game, wtc: bool) returns (score: int)
    ensures score == UserSide(game, wtc)
  {
    if wtc {
      score := game.userWtcScore;
    } else {
      score := game.userScore;
    }
  }

  /** The statement form of `AddScore`, as the loop body writes it. */
  method AddScoreEntry(t: map<string, ScoreStats>, key: string, score: int) returns (r: map<string, ScoreStats>)
    ensures r == AddScore(t, key, score)
  {
    r := t;
    if key !in r {
      r := r[key := ScoreStats(0, 0)];
    }
    var entry := r[key];
    entry := entry.(games := entry.games + 1);
    entry := entry.(score := entry.score + score);
    r := r[key := entry];
  }

  /**
   * The `matches.forEach` loop: `stats` ends as the dictionary of the whole
   * list and `order` lists its months in first-occurrence order.
   */
  method StatsByMonth(matches: seq<Game>, wtc: bool) returns (stats: map<string, ScoreStats>, order: seq<string>)
    ensures stats == ScoreTable(matches, wtc)
    ensures order == Distinct(KeyList(matches, ByMonth))
  {
    stats, order := map[], [];
    var i := 0;
    while i < |matches|
      invariant 0 <= i <= |matches|
      invariant stats == ScoreTable(matches[..i], wtc)
      invariant order == Distinct(KeyList(matches[..i], ByMonth))
    {
      var game := matches[i];
      var monthKey := MonthOf(game);
      ScoreFoldStep(matches, i, wtc, stats, order);
      if monthKey !in stats {
        order := order + [monthKey];
      }
      var score := ScoreUnder(game, wtc);
      stats := AddScoreEntry(stats, monthKey, score);
      i := i + 1;
    }
    assert matches[..|matches|] == matches;
  }

  /** `score / games`, absent (`NaN`) for no games. */
  function Average(score: int, games: int): (r: Option<real>)
    ensures r.Some? <==> games != 0
    ensures r.Some? ==> r.value * games as real == score as real
  {
    if games == 0 then None else Some(score as real / games as real)
  }

  /** One `{ month, score, games, avgScore }` row. */
  datatype ScoreRow = ScoreRow(month: string, score: int, games: int, avgScore: Option<real>)

  /** `Object.entries(statsByMonth).map(...)`: the entries in key order `order`, each with its average. */
  function ScoreRows(t: map<string, ScoreStats>, order: seq<string>): (r: seq<ScoreRow>)
    requires forall i :: 0 <= i < |order| ==> order[i] in t
    ensures |r| == |order|
  {
    seq(|order|, i requires 0 <= i < |order| =>
      ScoreRow(order[i], t[order[i]].score, t[order[i]].games, Average(t[order[i]].score, t[order[i]].games)))
  }

  function SumGames(rows: seq<ScoreRow>): int
    decreases |rows|
  {
    if rows == [] then 0 else SumGames(rows[..|rows| - 1]) + rows[|rows| - 1].games
  }

  function SumScores(rows: seq<ScoreRow>): int
    decreases |rows|
  {
    if rows == [] then 0 else SumScores(rows[..|rows| - 1]) + rows[|rows| - 1].score
  }

  /** Every distinct month of the matches has an entry. */
  lemma DistinctMonthsListed(gs: seq<Game>, wtc: bool)
    ensures forall i :: 0 <= i < |Distinct(KeyList(gs, ByMonth))| ==> Distinct(KeyList(gs, ByMonth))[i] in ScoreTable(gs, wtc)
  {
    var ks := Distinct(KeyList(gs, ByMonth));
    forall i | 0 <= i < |ks| ensures ks[i] in ScoreTable(gs, wtc) {
      ScoreTableHas(gs, wtc, ks[i]);
    }
  }

  /** The month rows of `gs`, in first-occurrence order of their months. */
  function ScoreTableRows(gs: seq<Game>, wtc: bool): seq<ScoreRow> {
    DistinctMonthsListed(gs, wtc);
    ScoreRows(ScoreTable(gs, wtc), Distinct(KeyList(gs, ByMonth)))
  }

  /** Summed over rows for months `ks`, the games and scores are the counters of those months. */
  lemma {:induction false} SumsOfScoreRows(gs: seq<Game>, wtc: bool, ks: seq<string>)
    requires forall i :: 0 <= i < |ks| ==> ks[i] in ScoreTable(gs, wtc)
    ensures SumGames(ScoreRows(ScoreTable(gs, wtc), ks)) == SumWeights(ks, Observe(gs, ByMonth, Played))
    ensures SumScores(ScoreRows(ScoreTable(gs, wtc), ks)) == SumWeights(ks, Observe(gs, ByMonth, Scored(wtc)))
    decreases |ks|
  {
    if ks != [] {
      var t := ScoreTable(gs, wtc);
      var r := ScoreRows(t, ks);
      assert r[..|r| - 1] == ScoreRows(t, ks[..|ks| - 1]);
      SumsOfScoreRows(gs, wtc, ks[..|ks| - 1]);
      ScoreTableCounts(gs, wtc, ks[|ks| - 1]);
    }
  }

  /** The row at `i` is the `i`-th distinct month with that month's counters. */
  lemma ScoreTableRowAt(gs: seq<Game>, wtc: bool, i: nat)
    requires i < |Distinct(KeyList(gs, ByMonth))|
    ensures |ScoreTableRows(gs, wtc)| == |Distinct(KeyList(gs, ByMonth))|
    ensures ScoreTableRows(gs, wtc)[i].month == Distinct(KeyList(gs, ByMonth))[i]
    ensures ScoreTableRows(gs, wtc)[i].games == |Only(gs, ByMonth, Distinct(KeyList(gs, ByMonth))[i])| >= 1
    ensures ScoreTableRows(gs, wtc)[i].score == Total(Observe(Only(gs, ByMonth, Distinct(KeyList(gs, ByMonth))[i]), ByMonth, Scored(wtc)))
    ensures ScoreTableRows(gs, wtc)[i].avgScore == Average(ScoreTableRows(gs, wtc)[i].score, ScoreTableRows(gs, wtc)[i].games)
    ensures ScoreTableRows(gs, wtc)[i].avgScore.Some?
  {
    var k := Distinct(KeyList(gs, ByMonth))[i];
    assert k in KeyList(gs, ByMonth);
    ScoreTableAt(gs, wtc, k);
    PlayedPositive(gs, ByMonth, k);
    PlayedIsCount(gs, ByMonth, k);
    WeightOfIsSubtotal(gs, ByMonth, Scored(wtc), k);
  }

  /** The rows together count every match once and every selected user score once. */
  lemma ScoreTableSums(gs: seq<Game>, wtc: bool)
    ensures SumGames(ScoreTableRows(gs, wtc)) == |gs|
    ensures SumScores(ScoreTableRows(gs, wtc)) == Total(Observe(gs, ByMonth, Scored(wtc)))
  {
    var ks := Distinct(KeyList(gs, ByMonth));
    DistinctMonthsListed(gs, wtc);
    SumsOfScoreRows(gs, wtc, ks);
    KeysOfObserve(gs, ByMonth, Played);
    KeysOfObserve(gs, ByMonth, Scored(wtc));
    SumOverDistinctKeys(Observe(gs, ByMonth, Played));
    SumOverDistinctKeys(Observe(gs, ByMonth, Scored(wtc)));
    TotalPlayed(gs, ByMonth);
  }

  /**
   * One row per distinct month, in first-occurrence order; each row counts
   * that month's games (at least one), sums that month's selected user
   * scores and carries their average (defined, since every month has a
   * game); the rows together count every match
   * once and every score once.
   */
  lemma ScoreTableRowsFacts(gs: seq<Game>, wtc: bool)
    ensures |ScoreTableRows(gs, wtc)| == |Distinct(KeyList(gs, ByMonth))|
    ensures forall i :: 0 <= i < |ScoreTableRows(gs, wtc)| ==>
      var row := ScoreTableRows(gs, wtc)[i];
      row.month == Distinct(KeyList(gs, ByMonth))[i]
      && row.games == |Only(gs, ByMonth, row.month)| >= 1
      && row.score == Total(Observe(Only(gs, ByMonth, row.month), ByMonth, Scored(wtc)))
      && row.avgScore == Average(row.score, row.games) && row.avgScore.Some?
    ensures SumGames(ScoreTableRows(gs, wtc)) == |gs|
    ensures SumScores(ScoreTableRows(gs, wtc)) == Total(Observe(gs, ByMonth, Scored(wtc)))
  {
    var rows := ScoreTableRows(gs, wtc);
    DistinctMonthsListed(gs, wtc);
    forall i | 0 <= i < |rows|
      ensures rows[i].month == Distinct(KeyList(gs, ByMonth))[i]
      ensures rows[i].games == |Only(gs, ByMonth, rows[i].month)| >= 1
      ensures rows[i].score == Total(Observe(Only(gs, ByMonth, rows[i].month), ByMonth, Scored(wtc)))
      ensures rows[i].avgScore == Average(rows[i].score, rows[i].games) && rows[i].avgScore.Some?
    {
      ScoreTableRowAt(gs, wtc, i);
    }
    ScoreTableSums(gs, wtc);
  }

  /** The sort key of a score row. */
  function MonthKey(row: ScoreRow): string {
    row.month
  }

  /** `monthArray`: the rows sorted by `b.month.localeCompare(a.month)`, newest first. */
  function MonthArray(ms: seq<Game>, wtc: bool): seq<ScoreRow> {
    SortBy(ScoreTableRows(ms, wtc), MonthKey, true)
  }

  lemma MonthsDistinct(ms: seq<Game>, wtc: bool)
    ensures DistinctKeys(ScoreTableRows(ms, wtc), MonthKey)
  {
    var rows := ScoreTableRows(ms, wtc);
    var ks := Distinct(KeyList(ms, ByMonth));
    ScoreTableRowsFacts(ms, wtc);
    forall i, j | 0 <= i < j < |rows| ensures MonthKey(rows[i]) != MonthKey(rows[j]) {
      assert MonthKey(rows[i]) == ks[i] && MonthKey(rows[j]) == ks[j];
    }
  }

  /**
   * The table lists exactly the month rows, each month once, strictly
   * newest first; it is empty (the "No matches found" branch) exactly when
   * there are no matches.
   */
  lemma MonthArrayFacts(ms: seq<Game>, wtc: bool)
    ensures multiset(MonthArray(ms, wtc)) == multiset(ScoreTableRows(ms, wtc))
    ensures StrictlyOrdered(MonthArray(ms, wtc), MonthKey, true)
    ensures |MonthArray(ms, wtc)| == |Distinct(KeyList(ms, ByMonth))|
    ensures MonthArray(ms, wtc) == [] <==> ms == []
  {
    var rows := ScoreTableRows(ms, wtc);
    MonthsDistinct(ms, wtc);
    SortByCorrect(rows, MonthKey, true);
    SortByStrict(rows, MonthKey, true);
    ScoreTableRowsFacts(ms, wtc);
    assert |MonthArray(ms, wtc)| == |multiset(MonthArray(ms, wtc))| == |rows|;
    if ms != [] {
      assert KeyOf(ms[0], ByMonth) in KeyList(ms, ByMonth);
    }
  }

  /** `Array.prototype.reverse`: reverses the array in place. */
  method ReverseInPlace<T>(a: array<T>)
    modifies a
    ensures a[..] == Reverse(old(a[..]))
  {
    var n := a.Length;
    var i := 0;
    while i < n / 2
      invariant 0 <= i <= n / 2
      invariant forall k :: 0 <= k < i ==> a[k] == old(a[n - 1 - k]) && a[n - 1 - k] == old(a[k])
      invariant forall k :: i <= k < n - i ==> a[k] == old(a[k])
    {
      a[i], a[n - 1 - i] := a[n - 1 - i], a[i];
      i := i + 1;
    }
  }

  /**
   * The render: the table maps `monthArray` before the chart's
   * `monthArray.reverse()` runs, so the table shows the rows newest first
   * and the chart the same rows oldest first.
   */
  method Render(ms: seq<Game>, wtc: bool) returns (table: seq<ScoreRow>, chart: seq<ScoreRow>)
    ensures table == MonthArray(ms, wtc)
    ensures chart == Reverse(MonthArray(ms, wtc))
  {
    var rows := MonthArray(ms, wtc);
    var monthArray := new ScoreRow[|rows|](i requires 0 <= i < |rows| => rows[i]);
    table := monthArray[..];
    ReverseInPlace(monthArray);
    chart := monthArray[..];
  }

  /** The chart's rows are the table's, strictly oldest month first. */
  lemma ChartIsTableReversed(ms: seq<Game>, wtc: bool)
    ensures StrictlyOrdered(Reverse(MonthArray(ms, wtc)), MonthKey, false)
    ensures multiset(Reverse(MonthArray(ms, wtc))) == multiset(ScoreTableRows(ms, wtc))
  {
    var rows := MonthArray(ms, wtc);
    MonthArrayFacts(ms, wtc);
    ReverseOrdered(rows, MonthKey, true);
    ReversePermutes(rows);
  }
}
