/**
 * The matchup analysis: matches grouped by the user's "army (detachment)"
 * label, each group with its win counters and a per-opponent-army win
 * table, then projected into rows with winrates.
 */
module MatchList {
  import opened Wrappers
  import opened Seqs
  import opened Tally
  import opened Games

  /**
   * The `{ wins, total, opponents }` record of one group; `opponentOrder`
   * is the insertion order of the `opponents` keys, the order in which
   * `Object.entries` lists them.
   */
  datatype DetachmentStats = DetachmentStats(
    wins: int,
    total: int,
    opponents: map<string, WinStats>,
    opponentOrder: seq<string>)

  /** One pass of the loop body on match `m`. */
  function Step(t: map<string, DetachmentStats>, m: Game, wtc: bool): map<string, DetachmentStats> {
    var detKey, oppKey, won := DetachmentLabel(m), m.opponentArmy, IsWin(m, wtc);
    var d := if detKey in t then t[detKey] else DetachmentStats(0, 0, map[], []);
    var order := if oppKey in d.opponents then d.opponentOrder else d.opponentOrder + [oppKey];
    t[detKey := DetachmentStats(d.wins + (if won then 1 else 0), d.total + 1, Tick(d.opponents, oppKey, won), order)]
  }

  /** The `statsByDetachment` dictionary the fold over `ms` builds, one step per match. */
  function DetachmentTable(ms: seq<Game>, wtc: bool): map<string, DetachmentStats>
    decreases |ms|
  {
    if ms == [] then map[] else Step(DetachmentTable(ms[..|ms| - 1], wtc), ms[|ms| - 1], wtc)
  }

  lemma {:induction false} OnlyAbsent(ms: seq<Game>, grouping: Grouping, k: string)
    requires k !in KeyList(ms, grouping)
    ensures Only(ms, grouping, k) == []
    decreases |ms|
  {
    if ms != [] {
      var p, m := ms[..|ms| - 1], ms[|ms| - 1];
      assert ms == p + [m];
      KeyListSnoc(p, m, grouping);
      OnlyAbsent(p, grouping, k);
    }
  }

  lemma DetachmentTableUnfold(ms: seq<Game>, wtc: bool)
    requires ms != []
    ensures DetachmentTable(ms, wtc) == Step(DetachmentTable(ms[..|ms| - 1], wtc), ms[|ms| - 1], wtc)
  {
  }

  /** The dictionary has an entry exactly for the labels of the matches. */
  lemma {:induction false} DetachmentKeys(ms: seq<Game>, wtc: bool, k: string)
    ensures k in DetachmentTable(ms, wtc) <==> k in KeyList(ms, ByDetachment)
    decreases |ms|
  {
    if ms != [] {
      var p, m := ms[..|ms| - 1], ms[|ms| - 1];
      assert ms == p + [m];
      DetachmentKeys(p, wtc, k);
      KeyListSnoc(p, m, ByDetachment);
      StepKeys(DetachmentTable(p, wtc), m, wtc, k);
    }
  }

  /** One step adds the new match's label to the dictionary's keys and no other key. */
  lemma StepKeys(t: map<string, DetachmentStats>, m: Game, wtc: bool, k: string)
    ensures k in Step(t, m, wtc) <==> k in t || k == DetachmentLabel(m)
  {
  }

  /** A group's `wins` is its win counter. */
  lemma {:induction false} DetachmentWins(ms: seq<Game>, wtc: bool, k: string)
    requires k in DetachmentTable(ms, wtc)
    ensures DetachmentTable(ms, wtc)[k].wins == WeightOf(Observe(ms, ByDetachment, Won(wtc)), k)
    decreases |ms|
  {
    var p, m := ms[..|ms| - 1], ms[|ms| - 1];
    assert ms == p + [m];
    WeightOfSnoc(p, m, ByDetachment, Won(wtc), k);
    if k in DetachmentTable(p, wtc) {
      DetachmentWins(p, wtc, k);
    } else {
      DetachmentKeys(p, wtc, k);
      KeysOfObserve(p, ByDetachment, Won(wtc));
      WeightOfAbsent(Observe(p, ByDetachment, Won(wtc)), k);
    }
  }

  /** A group's `total` is its game counter. */
  lemma {:induction false} DetachmentTotal(ms: seq<Game>, wtc: bool, k: string)
    requires k in DetachmentTable(ms, wtc)
    ensures DetachmentTable(ms, wtc)[k].total == WeightOf(Observe(ms, ByDetachment, Played), k)
    decreases |ms|
  {
    var p, m := ms[..|ms| - 1], ms[|ms| - 1];
    assert ms == p + [m];
    WeightOfSnoc(p, m, ByDetachment, Played, k);
    if k in DetachmentTable(p, wtc) {
      DetachmentTotal(p, wtc, k);
    } else {
      DetachmentKeys(p, wtc, k);
      KeysOfObserve(p, ByDetachment, Played);
      WeightOfAbsent(Observe(p, ByDetachment, Played), k);
    }
  }

  lemma DetachmentCounters(ms: seq<Game>, wtc: bool, k: string)
    requires k in DetachmentTable(ms, wtc)
    ensures DetachmentTable(ms, wtc)[k].wins == WeightOf(Observe(ms, ByDetachment, Won(wtc)), k)
    ensures DetachmentTable(ms, wtc)[k].total == WeightOf(Observe(ms, ByDetachment, Played), k)
  {
    DetachmentWins(ms, wtc, k);
    DetachmentTotal(ms, wtc, k);
  }

  lemma StepOther(t: map<string, DetachmentStats>, m: Game, wtc: bool, k: string)
    requires k != DetachmentLabel(m)
    ensures k in Step(t, m, wtc) <==> k in t
    ensures k in t ==> Step(t, m, wtc)[k] == t[k]
  {
  }

  /** What one step does to the opponent part of the new match's group. */
  lemma StepHit(t: map<string, DetachmentStats>, m: Game, wtc: bool)
    ensures DetachmentLabel(m) in Step(t, m, wtc)
    ensures var d := if DetachmentLabel(m) in t then t[DetachmentLabel(m)] else DetachmentStats(0, 0, map[], []);
      Step(t, m, wtc)[DetachmentLabel(m)].opponents == Tick(d.opponents, m.opponentArmy, IsWin(m, wtc))
      && Step(t, m, wtc)[DetachmentLabel(m)].opponentOrder
         == if m.opponentArmy in d.opponents then d.opponentOrder else d.opponentOrder + [m.opponentArmy]
  {
  }

  /** The opponent table of the new match's group, given that of the shorter list. */
  lemma OpponentTableHit(p: seq<Game>, m: Game, wtc: bool)
    requires var k := DetachmentLabel(m);
      k in DetachmentTable(p, wtc) ==>
        DetachmentTable(p, wtc)[k].opponents == WinTable(Only(p, ByDetachment, k), ByOpponent, wtc)
    ensures var k := DetachmentLabel(m);
      DetachmentTable(p + [m], wtc)[k].opponents == WinTable(Only(p + [m], ByDetachment, k), ByOpponent, wtc)
  {
    var k := DetachmentLabel(m);
    var sub := Only(p, ByDetachment, k);
    DetachmentTableSnoc(p, m, wtc);
    StepHit(DetachmentTable(p, wtc), m, wtc);
    OnlySnoc(p, m, ByDetachment, k);
    if k !in DetachmentTable(p, wtc) {
      DetachmentKeys(p, wtc, k);
      OnlyAbsent(p, ByDetachment, k);
    }
    WinTableSnoc(sub, m, ByOpponent, wtc);
  }

  /** The opponent order of the new match's group, given that of the shorter list. */
  lemma OpponentOrderHit(p: seq<Game>, m: Game, wtc: bool)
    requires var k := DetachmentLabel(m);
      k in DetachmentTable(p, wtc) ==>
        DetachmentTable(p, wtc)[k].opponents == WinTable(Only(p, ByDetachment, k), ByOpponent, wtc)
        && DetachmentTable(p, wtc)[k].opponentOrder == Distinct(KeyList(Only(p, ByDetachment, k), ByOpponent))
    ensures var k := DetachmentLabel(m);
      DetachmentTable(p + [m], wtc)[k].opponentOrder == Distinct(KeyList(Only(p + [m], ByDetachment, k), ByOpponent))
  {
    var k := DetachmentLabel(m);
    var sub := Only(p, ByDetachment, k);
    DetachmentTableSnoc(p, m, wtc);
    StepHit(DetachmentTable(p, wtc), m, wtc);
    OnlySnoc(p, m, ByDetachment, k);
    if k !in DetachmentTable(p, wtc) {
      DetachmentKeys(p, wtc, k);
      OnlyAbsent(p, ByDetachment, k);
      assert KeyList(sub, ByOpponent) == [];
    } else {
      WinTableHas(sub, ByOpponent, wtc, m.opponentArmy);
    }
    DistinctKeyListSnoc(sub, m, ByOpponent);
  }

  /**
   * A group's opponent table is the win table of the group's own matches by
   * opponent army, and its opponent order their first-occurrence order.
   */
  lemma {:induction false} DetachmentOpponents(ms: seq<Game>, wtc: bool, k: string)
    requires k in DetachmentTable(ms, wtc)
    ensures DetachmentTable(ms, wtc)[k].opponents == WinTable(Only(ms, ByDetachment, k), ByOpponent, wtc)
    ensures DetachmentTable(ms, wtc)[k].opponentOrder == Distinct(KeyList(Only(ms, ByDetachment, k), ByOpponent))
    decreases |ms|
  {
    var p, m := ms[..|ms| - 1], ms[|ms| - 1];
    assert ms == p + [m];
    if k in DetachmentTable(p, wtc) {
      DetachmentOpponents(p, wtc, k);
    }
    if k == DetachmentLabel(m) {
      OpponentTableHit(p, m, wtc);
      OpponentOrderHit(p, m, wtc);
    } else {
      GroupMiss(p, m, wtc, k);
    }
  }

  /** A match of another group leaves a group's entry and its own matches as they were. */
  lemma GroupMiss(p: seq<Game>, m: Game, wtc: bool, k: string)
    requires k != DetachmentLabel(m)
    ensures k in DetachmentTable(p + [m], wtc) <==> k in DetachmentTable(p, wtc)
    ensures k in DetachmentTable(p, wtc) ==> DetachmentTable(p + [m], wtc)[k] == DetachmentTable(p, wtc)[k]
    ensures Only(p + [m], ByDetachment, k) == Only(p, ByDetachment, k)
  {
    DetachmentTableSnoc(p, m, wtc);
    StepOther(DetachmentTable(p, wtc), m, wtc, k);
    OnlySnoc(p, m, ByDetachment, k);
  }

  lemma DetachmentTableSnoc(ms: seq<Game>, m: Game, wtc: bool)
    ensures DetachmentTable(ms + [m], wtc) == Step(DetachmentTable(ms, wtc), m, wtc)
  {
    assert (ms + [m])[..|ms|] == ms;
  }

  /**
   * The `matches.forEach` body on one match: the group's entry (created at
   * zero if missing) counts the game and the win, and so does the entry of
   * the opponent army inside it.
   */
  method AddMatch(stats: map<string, DetachmentStats>, game: Game, wtc: bool) returns (next: map<string, DetachmentStats>)
    ensures next == Step(stats, game, wtc)
  {
    var detKey := DetachmentLabel(game);
    var oppKey := game.opponentArmy;
    next := stats;
    if detKey !in next {
      next := next[detKey := DetachmentStats(0, 0, map[], [])];
    }
    var detStats := next[detKey];
    detStats := detStats.(total := detStats.total + 1);
    var userScore, opponentScore;
    if wtc {
      userScore, opponentScore := game.userWtcScore, game.opponentWtcScore;
    } else {
      userScore, opponentScore := game.userScore, game.opponentScore;
    }
    if userScore > opponentScore {
      detStats := detStats.(wins := detStats.wins + 1);
    }
    var opponents := AddResult(detStats.opponents, oppKey, userScore > opponentScore);
    if oppKey !in detStats.opponents {
      detStats := detStats.(opponentOrder := detStats.opponentOrder + [oppKey]);
    }
    detStats := detStats.(opponents := opponents);
    next := next[detKey := detStats];
  }

  /** One pass of the loop at index `i`, from the dictionary `t` and key order `order` of `ms[..i]`. */
  lemma DetachmentFoldStep(ms: seq<Game>, i: nat, wtc: bool, t: map<string, DetachmentStats>, order: seq<string>)
    requires i < |ms|
    requires t == DetachmentTable(ms[..i], wtc)
    requires order == Distinct(KeyList(ms[..i], ByDetachment))
    ensures DetachmentTable(ms[..i + 1], wtc) == Step(t, ms[i], wtc)
    ensures Distinct(KeyList(ms[..i + 1], ByDetachment))
         == if DetachmentLabel(ms[i]) in t then order else order + [DetachmentLabel(ms[i])]
  {
    TakeOneMore(ms, i);
    DetachmentTableSnoc(ms[..i], ms[i], wtc);
    DistinctKeyListSnoc(ms[..i], ms[i], ByDetachment);
    DetachmentKeys(ms[..i], wtc, DetachmentLabel(ms[i]));
  }

  /**
   * The `matches.forEach` loop: `stats` ends as the dictionary of the whole
   * list and `order` lists its keys in first-occurrence order.
   */
  method StatsByDetachment(matches: seq<Game>, wtc: bool) returns (stats: map<string, DetachmentStats>, order: seq<string>)
    ensures stats == DetachmentTable(matches, wtc)
    ensures order == Distinct(KeyList(matches, ByDetachment))
  {
    stats, order := map[], [];
    var i := 0;
    while i < |matches|
      invariant 0 <= i <= |matches|
      invariant stats == DetachmentTable(matches[..i], wtc)
      invariant order == Distinct(KeyList(matches[..i], ByDetachment))
    {
      var game := matches[i];
      var detKey := DetachmentLabel(game);
      DetachmentFoldStep(matches, i, wtc, stats, order);
      if detKey !in stats {
        order := order + [detKey];
      }
      stats := AddMatch(stats, game, wtc);
      i := i + 1;
    }
    assert matches[..|matches|] == matches;
  }

  /** One row of `detachmentArray`: the group's own counters and its opponent rows. */
  datatype DetachmentRow = DetachmentRow(
    detachment: string,
    wins: int,
    total: int,
    winrate: Option<real>,
    opponents: seq<WinRow>)

  predicate Listed(t: map<string, DetachmentStats>, order: seq<string>) {
    forall i :: 0 <= i < |order| ==>
      (order[i] in t
       && forall j :: 0 <= j < |t[order[i]].opponentOrder| ==> t[order[i]].opponentOrder[j] in t[order[i]].opponents)
  }

  /** The `Object.entries(statsByDetachment).map(...)` projection. */
  function DetachmentArray(t: map<string, DetachmentStats>, order: seq<string>): (r: seq<DetachmentRow>)
    requires Listed(t, order)
    ensures |r| == |order|
  {
    seq(|order|, i requires 0 <= i < |order| =>
      var d := t[order[i]];
      DetachmentRow(order[i], d.wins, d.total, Percent(d.wins, d.total), WinRows(d.opponents, d.opponentOrder)))
  }

  /** The rows the page renders for the matches `ms`. */
  function MatchupRows(ms: seq<Game>, wtc: bool): seq<DetachmentRow> {
    MatchupListed(ms, wtc);
    DetachmentArray(DetachmentTable(ms, wtc), Distinct(KeyList(ms, ByDetachment)))
  }

  lemma MatchupListed(ms: seq<Game>, wtc: bool)
    ensures Listed(DetachmentTable(ms, wtc), Distinct(KeyList(ms, ByDetachment)))
  {
    var t, ks := DetachmentTable(ms, wtc), Distinct(KeyList(ms, ByDetachment));
    forall i | 0 <= i < |ks|
      ensures ks[i] in t
      ensures forall j :: 0 <= j < |t[ks[i]].opponentOrder| ==> t[ks[i]].opponentOrder[j] in t[ks[i]].opponents
    {
      DetachmentKeys(ms, wtc, ks[i]);
      DetachmentOpponents(ms, wtc, ks[i]);
      WinTableSums(Only(ms, ByDetachment, ks[i]), ByOpponent, wtc);
    }
  }

  /**
   * Each group row carries the counters of the win table of the whole list
   * grouped by label, and its opponent rows are the win table of the
   * group's own matches grouped by opponent army.
   */
  lemma MatchupRowsAreTables(ms: seq<Game>, wtc: bool)
    ensures |MatchupRows(ms, wtc)| == |TableRows(ms, ByDetachment, wtc)|
    ensures forall i :: 0 <= i < |MatchupRows(ms, wtc)| ==>
      var row, summary := MatchupRows(ms, wtc)[i], TableRows(ms, ByDetachment, wtc)[i];
      row.detachment == summary.key && row.wins == summary.wins && row.total == summary.total
      && row.winrate == summary.winrate
      && row.opponents == TableRows(Only(ms, ByDetachment, row.detachment), ByOpponent, wtc)
  {
    var rows, summaries := MatchupRows(ms, wtc), TableRows(ms, ByDetachment, wtc);
    var ks := Distinct(KeyList(ms, ByDetachment));
    forall i | 0 <= i < |rows|
      ensures rows[i].detachment == summaries[i].key && rows[i].wins == summaries[i].wins
      ensures rows[i].total == summaries[i].total && rows[i].winrate == summaries[i].winrate
      ensures rows[i].opponents == TableRows(Only(ms, ByDetachment, rows[i].detachment), ByOpponent, wtc)
    {
      var k := ks[i];
      DetachmentKeys(ms, wtc, k);
      DetachmentCounters(ms, wtc, k);
      DetachmentOpponents(ms, wtc, k);
      WinTableAt(ms, ByDetachment, wtc, k);
    }
  }

  /**
   * Within a group row, the opponent rows add up to the row's total and
   * wins, and no opponent row is empty, so every opponent winrate is defined.
   */
  lemma MatchupOpponentSums(ms: seq<Game>, wtc: bool)
    ensures forall i :: 0 <= i < |MatchupRows(ms, wtc)| ==>
      var row := MatchupRows(ms, wtc)[i];
      SumTotals(row.opponents) == row.total
      && SumWins(row.opponents) == row.wins
      && forall o :: 0 <= o < |row.opponents| ==> row.opponents[o].total >= 1 && row.opponents[o].winrate.Some?
  {
    var rows := MatchupRows(ms, wtc);
    var ks := Distinct(KeyList(ms, ByDetachment));
    forall i | 0 <= i < |rows|
      ensures SumTotals(rows[i].opponents) == rows[i].total
      ensures SumWins(rows[i].opponents) == rows[i].wins
      ensures forall o :: 0 <= o < |rows[i].opponents| ==> rows[i].opponents[o].total >= 1 && rows[i].opponents[o].winrate.Some?
    {
      var k := ks[i];
      var sub := Only(ms, ByDetachment, k);
      DetachmentKeys(ms, wtc, k);
      DetachmentCounters(ms, wtc, k);
      DetachmentOpponents(ms, wtc, k);
      TableRowsFacts(sub, ByOpponent, wtc);
      PlayedIsCount(ms, ByDetachment, k);
      WeightOfIsSubtotal(ms, ByDetachment, Won(wtc), k);
      TotalIgnoresGrouping(sub, ByDetachment, ByOpponent, Won(wtc));
    }
  }
}
