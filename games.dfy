/**
 * The match record every statistics view receives, the `wtc` switch between
 * raw and WTC scores, and the per-key tables the views fold matches into:
 * a match is filed under its month, its "army (detachment)" label or its
 * opponent army, and counts as one game, as one win or not, or with its score.
 */
module Games {
  import opened Wrappers
  import opened Text
  import opened Seqs
  import opened Tally

  /** A match with the names of the armies and detachments it references. */
  datatype Game = Game(
    date: string,
    userScore: int,
    opponentScore: int,
    userWtcScore: int,
    opponentWtcScore: int,
    isTournament: bool,
    tournamentName: Option<string>,
    userArmy: string,
    userDetachment: string,
    opponentArmy: string,
    opponentDetachment: string)

  /** The user's score under the `wtc` switch. */
  function UserSide(g: Game, wtc: bool): int {
    if wtc then g.userWtcScore else g.userScore
  }

  /** The opponent's score under the same switch. */
  function OpponentSide(g: Game, wtc: bool): int {
    if wtc then g.opponentWtcScore else g.opponentScore
  }

  predicate IsWin(g: Game, wtc: bool) {
    UserSide(g, wtc) > OpponentSide(g, wtc)
  }

  predicate IsLoss(g: Game, wtc: bool) {
    UserSide(g, wtc) < OpponentSide(g, wtc)
  }

  /** The month of a match: the first seven characters of its date (`YYYY-MM`). */
  function MonthOf(g: Game): (m: string)
    ensures |m| <= 7 && m <= g.date
    ensures |g.date| >= 7 ==> |m| == 7
  {
    Prefix(g.date, 7)
  }

  /** The label `"<army> (<detachment>)"` of the user's list. */
  function DetachmentLabel(g: Game): string {
    g.userArmy + " (" + g.userDetachment + ")"
  }

  datatype Grouping = ByMonth | ByDetachment | ByOpponent

  function KeyOf(g: Game, grouping: Grouping): string {
    match grouping
    case ByMonth => MonthOf(g)
    case ByDetachment => DetachmentLabel(g)
    case ByOpponent => g.opponentArmy
  }

  /** What one match adds to its key's counter. */
  datatype Measure = Played | Won(wtc: bool) | Scored(wtc: bool)

  function Weight(g: Game, measure: Measure): int {
    match measure
    case Played => 1
    case Won(wtc) => if IsWin(g, wtc) then 1 else 0
    case Scored(wtc) => UserSide(g, wtc)
  }

  function Observe(gs: seq<Game>, grouping: Grouping, measure: Measure): (r: seq<Obs>)
    ensures |r| == |gs|
    ensures forall i :: 0 <= i < |gs| ==> r[i] == Obs(KeyOf(gs[i], grouping), Weight(gs[i], measure))
  {
    seq(|gs|, i requires 0 <= i < |gs| => Obs(KeyOf(gs[i], grouping), Weight(gs[i], measure)))
  }

  /** The key of every match, in match order. */
  function KeyList(gs: seq<Game>, grouping: Grouping): (r: seq<string>)
    ensures |r| == |gs|
    ensures forall i :: 0 <= i < |gs| ==> r[i] == KeyOf(gs[i], grouping)
  {
    seq(|gs|, i requires 0 <= i < |gs| => KeyOf(gs[i], grouping))
  }

  /** The matches filed under key `k`, in match order. */
  function Only(gs: seq<Game>, grouping: Grouping, k: string): (r: seq<Game>)
    ensures |r| <= |gs|
    ensures forall i :: 0 <= i < |r| ==> KeyOf(r[i], grouping) == k
    decreases |gs|
  {
    if gs == [] then []
    else
      var p := Only(gs[..|gs| - 1], grouping, k);
      if KeyOf(gs[|gs| - 1], grouping) == k then p + [gs[|gs| - 1]] else p
  }

  lemma ObserveSnoc(gs: seq<Game>, g: Game, grouping: Grouping, measure: Measure)
    ensures Observe(gs + [g], grouping, measure) == Observe(gs, grouping, measure) + [Obs(KeyOf(g, grouping), Weight(g, measure))]
  {
  }

  lemma KeyListSnoc(gs: seq<Game>, g: Game, grouping: Grouping)
    ensures KeyList(gs + [g], grouping) == KeyList(gs, grouping) + [KeyOf(g, grouping)]
  {
  }

  lemma OnlySnoc(gs: seq<Game>, g: Game, grouping: Grouping, k: string)
    ensures Only(gs + [g], grouping, k) == if KeyOf(g, grouping) == k then Only(gs, grouping, k) + [g] else Only(gs, grouping, k)
  {
    assert (gs + [g])[..|gs|] == gs;
  }

  /** The keys observed are the keys of the matches, whatever is measured. */
  lemma KeysOfObserve(gs: seq<Game>, grouping: Grouping, measure: Measure)
    ensures Keys(Observe(gs, grouping, measure)) == KeyList(gs, grouping)
  {
  }

  /** One more match adds its weight to its own key's counter and to no other. */
  lemma WeightOfSnoc(gs: seq<Game>, g: Game, grouping: Grouping, measure: Measure, k: string)
    ensures WeightOf(Observe(gs + [g], grouping, measure), k)
         == WeightOf(Observe(gs, grouping, measure), k) + (if KeyOf(g, grouping) == k then Weight(g, measure) else 0)
  {
    ObserveSnoc(gs, g, grouping, measure);
    var o := Observe(gs + [g], grouping, measure);
    assert o[..|o| - 1] == Observe(gs, grouping, measure);
  }

  /** One more match adds its weight to the total. */
  lemma TotalSnoc(gs: seq<Game>, g: Game, grouping: Grouping, measure: Measure)
    ensures Total(Observe(gs + [g], grouping, measure)) == Total(Observe(gs, grouping, measure)) + Weight(g, measure)
  {
    ObserveSnoc(gs, g, grouping, measure);
    var o := Observe(gs + [g], grouping, measure);
    assert o[..|o| - 1] == Observe(gs, grouping, measure);
  }

  /** A key's counter is the total weight of the matches filed under it. */
  lemma {:induction false} WeightOfIsSubtotal(gs: seq<Game>, grouping: Grouping, measure: Measure, k: string)
    ensures WeightOf(Observe(gs, grouping, measure), k) == Total(Observe(Only(gs, grouping, k), grouping, measure))
    decreases |gs|
  {
    if gs != [] {
      var p, g := gs[..|gs| - 1], gs[|gs| - 1];
      assert gs == p + [g];
      WeightOfIsSubtotal(p, grouping, measure, k);
      WeightOfSnoc(p, g, grouping, measure, k);
      OnlySnoc(p, g, grouping, k);
      if KeyOf(g, grouping) == k {
        TotalSnoc(Only(p, grouping, k), g, grouping, measure);
      }
    }
  }

  /** The sum of all weights does not depend on how matches are grouped. */
  lemma {:induction false} TotalIgnoresGrouping(gs: seq<Game>, a: Grouping, b: Grouping, measure: Measure)
    ensures Total(Observe(gs, a, measure)) == Total(Observe(gs, b, measure))
    decreases |gs|
  {
    if gs != [] {
      var p, g := gs[..|gs| - 1], gs[|gs| - 1];
      assert gs == p + [g];
      TotalIgnoresGrouping(p, a, b, measure);
      TotalSnoc(p, g, a, measure);
      TotalSnoc(p, g, b, measure);
    }
  }

  /** Counting games, the total is the number of matches. */
  lemma {:induction false} TotalPlayed(gs: seq<Game>, grouping: Grouping)
    ensures Total(Observe(gs, grouping, Played)) == |gs|
    decreases |gs|
  {
    if gs != [] {
      var p, g := gs[..|gs| - 1], gs[|gs| - 1];
      assert gs == p + [g];
      TotalPlayed(p, grouping);
      TotalSnoc(p, g, grouping, Played);
    }
  }

  /** A key's win counter lies between zero and its game counter. */
  lemma {:induction false} WonWithinPlayed(gs: seq<Game>, grouping: Grouping, wtc: bool, k: string)
    ensures 0 <= WeightOf(Observe(gs, grouping, Won(wtc)), k) <= WeightOf(Observe(gs, grouping, Played), k)
    decreases |gs|
  {
    if gs != [] {
      var p, g := gs[..|gs| - 1], gs[|gs| - 1];
      assert gs == p + [g];
      WonWithinPlayed(p, grouping, wtc, k);
      WeightOfSnoc(p, g, grouping, Won(wtc), k);
      WeightOfSnoc(p, g, grouping, Played, k);
    }
  }

  /** A key some match is filed under has a game counter of at least one. */
  lemma {:induction false} PlayedPositive(gs: seq<Game>, grouping: Grouping, k: string)
    requires k in KeyList(gs, grouping)
    ensures WeightOf(Observe(gs, grouping, Played), k) >= 1
    decreases |gs|
  {
    var p, g := gs[..|gs| - 1], gs[|gs| - 1];
    assert gs == p + [g];
    KeyListSnoc(p, g, grouping);
    WeightOfSnoc(p, g, grouping, Played, k);
    PlayedNonNegative(p, grouping, k);
    if k != KeyOf(g, grouping) {
      PlayedPositive(p, grouping, k);
    }
  }

  lemma {:induction false} PlayedNonNegative(gs: seq<Game>, grouping: Grouping, k: string)
    ensures WeightOf(Observe(gs, grouping, Played), k) >= 0
    decreases |gs|
  {
    if gs != [] {
      var p, g := gs[..|gs| - 1], gs[|gs| - 1];
      assert gs == p + [g];
      PlayedNonNegative(p, grouping, k);
      WeightOfSnoc(p, g, grouping, Played, k);
    }
  }

  /** A key's game counter is the number of matches filed under it. */
  lemma PlayedIsCount(gs: seq<Game>, grouping: Grouping, k: string)
    ensures WeightOf(Observe(gs, grouping, Played), k) == |Only(gs, grouping, k)|
  {
    WeightOfIsSubtotal(gs, grouping, Played, k);
    TotalPlayed(Only(gs, grouping, k), grouping);
  }

  /** The first-occurrence key order grows by the new key only when it is new. */
  lemma DistinctKeyListSnoc(gs: seq<Game>, g: Game, grouping: Grouping)
    ensures Distinct(KeyList(gs + [g], grouping))
         == if KeyOf(g, grouping) in KeyList(gs, grouping) then Distinct(KeyList(gs, grouping))
            else Distinct(KeyList(gs, grouping)) + [KeyOf(g, grouping)]
  {
    var ks := KeyList(gs + [g], grouping);
    KeyListSnoc(gs, g, grouping);
    assert ks[..|ks| - 1] == KeyList(gs, grouping);
  }

  /** `(wins / total) * 100`, which is `NaN` when `total` is 0. */
  function Percent(wins: int, total: int): (r: Option<real>)
    ensures r.Some? <==> total != 0
    ensures r.Some? && 0 <= wins <= total ==> 0.0 <= r.value <= 100.0
  {
    if total == 0 then None else Some((wins as real / total as real) * 100.0)
  }

  /** The `{ wins, total }` counters of one key. */
  datatype WinStats = WinStats(wins: int, total: int)

  /** One step of a win fold: create the entry if missing, count the game, count the win. */
  function Tick(t: map<string, WinStats>, key: string, won: bool): map<string, WinStats> {
    var s := if key in t then t[key] else WinStats(0, 0);
    t[key := WinStats(s.wins + (if won then 1 else 0), s.total + 1)]
  }

  /**
   * The statement form of `Tick`, as each fold body writes it: create the
   * entry at zero if missing, add the game, add the win.
   */
  method AddResult(t: map<string, WinStats>, key: string, won: bool) returns (r: map<string, WinStats>)
    ensures r == Tick(t, key, won)
  {
    r := t;
    if key !in r {
      r := r[key := WinStats(0, 0)];
    }
    var entry := r[key];
    entry := entry.(total := entry.total + 1);
    if won {
      entry := entry.(wins := entry.wins + 1);
    }
    r := r[key := entry];
  }

  /** The win table a fold over `gs` builds, one tick per match. */
  function WinTable(gs: seq<Game>, grouping: Grouping, wtc: bool): map<string, WinStats>
    decreases |gs|
  {
    if gs == [] then map[]
    else
      var g := gs[|gs| - 1];
      Tick(WinTable(gs[..|gs| - 1], grouping, wtc), KeyOf(g, grouping), IsWin(g, wtc))
  }

  lemma WinTableSnoc(gs: seq<Game>, g: Game, grouping: Grouping, wtc: bool)
    ensures WinTable(gs + [g], grouping, wtc) == Tick(WinTable(gs, grouping, wtc), KeyOf(g, grouping), IsWin(g, wtc))
  {
    assert (gs + [g])[..|gs|] == gs;
  }

  /** The table has an entry exactly for the keys some match is filed under. */
  lemma {:induction false} WinTableHas(gs: seq<Game>, grouping: Grouping, wtc: bool, k: string)
    ensures k in WinTable(gs, grouping, wtc) <==> k in KeyList(gs, grouping)
    decreases |gs|
  {
    if gs != [] {
      var p, g := gs[..|gs| - 1], gs[|gs| - 1];
      assert gs == p + [g];
      WinTableHas(p, grouping, wtc, k);
      KeyListSnoc(p, g, grouping);
    }
  }

  /** The counters of key `k` in table `t`, zero when `t` has no entry for it. */
  function EntryOr(t: map<string, WinStats>, k: string): WinStats {
    if k in t then t[k] else WinStats(0, 0)
  }

  /** A tick counts the game, and the win if it is one, for its own key and changes no other key's counters. */
  lemma TickEntry(t: map<string, WinStats>, key: string, won: bool, k: string)
    ensures EntryOr(Tick(t, key, won), k)
         == if key == k then WinStats(EntryOr(t, k).wins + (if won then 1 else 0), EntryOr(t, k).total + 1)
            else EntryOr(t, k)
  {
  }

  /** Missing entries read as zero, every key's counters are its win and game counters. */
  lemma {:induction false} WinTableCounts(gs: seq<Game>, grouping: Grouping, wtc: bool, k: string)
    ensures EntryOr(WinTable(gs, grouping, wtc), k)
         == WinStats(WeightOf(Observe(gs, grouping, Won(wtc)), k), WeightOf(Observe(gs, grouping, Played), k))
    decreases |gs|
  {
    if gs != [] {
      var p, g := gs[..|gs| - 1], gs[|gs| - 1];
      assert gs == p + [g];
      WinTableCounts(p, grouping, wtc, k);
      WeightOfSnoc(p, g, grouping, Won(wtc), k);
      WeightOfSnoc(p, g, grouping, Played, k);
      TickEntry(WinTable(p, grouping, wtc), KeyOf(g, grouping), IsWin(g, wtc), k);
    }
  }

  /** The entry of a key holds that key's win and game counters. */
  lemma WinTableEntry(gs: seq<Game>, grouping: Grouping, wtc: bool, k: string)
    ensures k in WinTable(gs, grouping, wtc) ==>
      WinTable(gs, grouping, wtc)[k] == WinStats(WeightOf(Observe(gs, grouping, Won(wtc)), k), WeightOf(Observe(gs, grouping, Played), k))
  {
    WinTableCounts(gs, grouping, wtc, k);
  }

  /**
   * The table has an entry exactly for the keys some match is filed under,
   * and the entry of a key holds that key's win and game counters.
   */
  lemma WinTableAt(gs: seq<Game>, grouping: Grouping, wtc: bool, k: string)
    ensures k in WinTable(gs, grouping, wtc) <==> k in KeyList(gs, grouping)
    ensures k in WinTable(gs, grouping, wtc) ==>
      WinTable(gs, grouping, wtc)[k] == WinStats(WeightOf(Observe(gs, grouping, Won(wtc)), k), WeightOf(Observe(gs, grouping, Played), k))
  {
    WinTableHas(gs, grouping, wtc, k);
    WinTableEntry(gs, grouping, wtc, k);
  }

  /**
   * One pass of a fold loop over `gs` at index `i`: given the table `t` and
   * the first-occurrence key order `order` of `gs[..i]`, the table and the
   * key order of `gs[..i + 1]` follow from `t`, `order` and `gs[i]` alone.
   */
  lemma WinFoldStep(gs: seq<Game>, i: nat, grouping: Grouping, wtc: bool, t: map<string, WinStats>, order: seq<string>)
    requires i < |gs|
    requires t == WinTable(gs[..i], grouping, wtc)
    requires order == Distinct(KeyList(gs[..i], grouping))
    ensures WinTable(gs[..i + 1], grouping, wtc) == Tick(t, KeyOf(gs[i], grouping), IsWin(gs[i], wtc))
    ensures Distinct(KeyList(gs[..i + 1], grouping))
         == if KeyOf(gs[i], grouping) in t then order else order + [KeyOf(gs[i], grouping)]
  {
    TakeOneMore(gs, i);
    WinTableSnoc(gs[..i], gs[i], grouping, wtc);
    DistinctKeyListSnoc(gs[..i], gs[i], grouping);
    WinTableHas(gs[..i], grouping, wtc, KeyOf(gs[i], grouping));
  }

  /** Every entry of a win table counts at least one game and no more wins than games. */
  lemma WinTableEntries(gs: seq<Game>, grouping: Grouping, wtc: bool)
    ensures forall k :: k in WinTable(gs, grouping, wtc) <==> k in KeyList(gs, grouping)
    ensures forall k | k in WinTable(gs, grouping, wtc) ::
      0 <= WinTable(gs, grouping, wtc)[k].wins <= WinTable(gs, grouping, wtc)[k].total
      && WinTable(gs, grouping, wtc)[k].total == |Only(gs, grouping, k)| >= 1
  {
    var t := WinTable(gs, grouping, wtc);
    forall k ensures k in t <==> k in KeyList(gs, grouping) {
      WinTableAt(gs, grouping, wtc, k);
    }
    forall k | k in t
      ensures 0 <= t[k].wins <= t[k].total
      ensures t[k].total == |Only(gs, grouping, k)| >= 1
    {
      WinTableAt(gs, grouping, wtc, k);
      WonWithinPlayed(gs, grouping, wtc, k);
      PlayedPositive(gs, grouping, k);
      PlayedIsCount(gs, grouping, k);
    }
  }

  /** The sum of the `total` counters of the keys `ks`. */
  function TotalsOver(t: map<string, WinStats>, ks: seq<string>): int
    requires forall i :: 0 <= i < |ks| ==> ks[i] in t
    decreases |ks|
  {
    if ks == [] then 0 else TotalsOver(t, ks[..|ks| - 1]) + t[ks[|ks| - 1]].total
  }

  /** The sum of the `wins` counters of the keys `ks`. */
  function WinsOver(t: map<string, WinStats>, ks: seq<string>): int
    requires forall i :: 0 <= i < |ks| ==> ks[i] in t
    decreases |ks|
  {
    if ks == [] then 0 else WinsOver(t, ks[..|ks| - 1]) + t[ks[|ks| - 1]].wins
  }

  lemma {:induction false} OverIsSumWeights(gs: seq<Game>, grouping: Grouping, wtc: bool, ks: seq<string>)
    requires forall i :: 0 <= i < |ks| ==> ks[i] in WinTable(gs, grouping, wtc)
    ensures TotalsOver(WinTable(gs, grouping, wtc), ks) == SumWeights(ks, Observe(gs, grouping, Played))
    ensures WinsOver(WinTable(gs, grouping, wtc), ks) == SumWeights(ks, Observe(gs, grouping, Won(wtc)))
    decreases |ks|
  {
    if ks != [] {
      OverIsSumWeights(gs, grouping, wtc, ks[..|ks| - 1]);
      WinTableCounts(gs, grouping, wtc, ks[|ks| - 1]);
    }
  }

  /**
   * Summed over its keys in first-occurrence order, a win table's totals
   * count every match once and its wins count every won match once.
   */
  lemma WinTableSums(gs: seq<Game>, grouping: Grouping, wtc: bool)
    ensures forall i :: 0 <= i < |Distinct(KeyList(gs, grouping))| ==> Distinct(KeyList(gs, grouping))[i] in WinTable(gs, grouping, wtc)
    ensures TotalsOver(WinTable(gs, grouping, wtc), Distinct(KeyList(gs, grouping))) == |gs|
    ensures WinsOver(WinTable(gs, grouping, wtc), Distinct(KeyList(gs, grouping))) == Total(Observe(gs, grouping, Won(wtc)))
  {
    var ks := Distinct(KeyList(gs, grouping));
    forall i | 0 <= i < |ks| ensures ks[i] in WinTable(gs, grouping, wtc) {
      WinTableAt(gs, grouping, wtc, ks[i]);
    }
    OverIsSumWeights(gs, grouping, wtc, ks);
    KeysOfObserve(gs, grouping, Played);
    KeysOfObserve(gs, grouping, Won(wtc));
    SumOverDistinctKeys(Observe(gs, grouping, Played));
    SumOverDistinctKeys(Observe(gs, grouping, Won(wtc)));
    TotalPlayed(gs, grouping);
  }

  /** One `{ key, wins, total, winrate }` row of a projected win table. */
  datatype WinRow = WinRow(key: string, wins: int, total: int, winrate: Option<real>)

  /** `Object.entries(table).map(...)`: the entries in key order `order`, each with its winrate. */
  function WinRows(t: map<string, WinStats>, order: seq<string>): (r: seq<WinRow>)
    requires forall i :: 0 <= i < |order| ==> order[i] in t
    ensures |r| == |order|
  {
    seq(|order|, i requires 0 <= i < |order| =>
      WinRow(order[i], t[order[i]].wins, t[order[i]].total, Percent(t[order[i]].wins, t[order[i]].total)))
  }

  function SumTotals(rows: seq<WinRow>): int
    decreases |rows|
  {
    if rows == [] then 0 else SumTotals(rows[..|rows| - 1]) + rows[|rows| - 1].total
  }

  function SumWins(rows: seq<WinRow>): int
    decreases |rows|
  {
    if rows == [] then 0 else SumWins(rows[..|rows| - 1]) + rows[|rows| - 1].wins
  }

  lemma {:induction false} SumsOfWinRows(t: map<string, WinStats>, ks: seq<string>)
    requires forall i :: 0 <= i < |ks| ==> ks[i] in t
    ensures SumTotals(WinRows(t, ks)) == TotalsOver(t, ks)
    ensures SumWins(WinRows(t, ks)) == WinsOver(t, ks)
    decreases |ks|
  {
    if ks != [] {
      var r := WinRows(t, ks);
      assert r[..|r| - 1] == WinRows(t, ks[..|ks| - 1]);
      SumsOfWinRows(t, ks[..|ks| - 1]);
    }
  }

  /** The rows of the win table of `gs`, in first-occurrence order of their keys. */
  function TableRows(gs: seq<Game>, grouping: Grouping, wtc: bool): seq<WinRow> {
    WinTableSums(gs, grouping, wtc);
    WinRows(WinTable(gs, grouping, wtc), Distinct(KeyList(gs, grouping)))
  }

  /** A row that counts the games of its key, at least one, no more wins than games and a winrate in 0..100. */
  predicate RowFits(gs: seq<Game>, grouping: Grouping, row: WinRow) {
    row.total == |Only(gs, grouping, row.key)| >= 1
    && 0 <= row.wins <= row.total
    && row.winrate.Some? && 0.0 <= row.winrate.value <= 100.0
  }

  /**
   * The projected table has one row per distinct key, in first-occurrence
   * order; every row counts at least one game, no more wins than games and
   * so has a winrate between 0 and 100; the totals count every match once
   * and the wins every won match once.
   */
  lemma TableRowsFacts(gs: seq<Game>, grouping: Grouping, wtc: bool)
    ensures |TableRows(gs, grouping, wtc)| == |Distinct(KeyList(gs, grouping))|
    ensures forall i :: 0 <= i < |TableRows(gs, grouping, wtc)| ==>
      TableRows(gs, grouping, wtc)[i].key == Distinct(KeyList(gs, grouping))[i]
    ensures forall i :: 0 <= i < |TableRows(gs, grouping, wtc)| ==> RowFits(gs, grouping, TableRows(gs, grouping, wtc)[i])
    ensures SumTotals(TableRows(gs, grouping, wtc)) == |gs|
    ensures SumWins(TableRows(gs, grouping, wtc)) == Total(Observe(gs, grouping, Won(wtc)))
  {
    var ks := Distinct(KeyList(gs, grouping));
    var t := WinTable(gs, grouping, wtc);
    WinTableSums(gs, grouping, wtc);
    var rows := WinRows(t, ks);
    assert rows == TableRows(gs, grouping, wtc);
    forall i | 0 <= i < |rows|
      ensures rows[i].key == ks[i]
      ensures RowFits(gs, grouping, rows[i])
    {
      var k := ks[i];
      assert k in KeyList(gs, grouping);
      WinTableAt(gs, grouping, wtc, k);
      WonWithinPlayed(gs, grouping, wtc, k);
      PlayedPositive(gs, grouping, k);
      PlayedIsCount(gs, grouping, k);
    }
    SumsOfWinRows(t, ks);
  }

  /** The keys of a list of rows, in row order. */
  function RowKeys(rows: seq<WinRow>): (r: seq<string>)
    ensures |r| == |rows|
    ensures forall i :: 0 <= i < |rows| ==> r[i] == rows[i].key
  {
    seq(|rows|, i requires 0 <= i < |rows| => rows[i].key)
  }

  /**
   * The rows partition the matches by key: no key has two rows, and a key
   * has a row exactly when some match is filed under it.
   */
  lemma TableRowKeys(gs: seq<Game>, grouping: Grouping, wtc: bool)
    ensures RowKeys(TableRows(gs, grouping, wtc)) == Distinct(KeyList(gs, grouping))
    ensures NoDup(RowKeys(TableRows(gs, grouping, wtc)))
    ensures forall k :: k in RowKeys(TableRows(gs, grouping, wtc)) <==> k in KeyList(gs, grouping)
  {
    TableRowsFacts(gs, grouping, wtc);
  }
}
