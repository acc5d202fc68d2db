/**
 * The summary table: wins, losses and draws of the filtered matches under
 * the `wtc` switch, and the winrate.
 */
module StatsSummary {
  import opened Wrappers
  import opened Tally
  import opened Games

  /** `matches.filter(m => user > opponent).length` under the switch. */
  function Wins(ms: seq<Game>, wtc: bool): (n: nat)
    ensures n <= |ms|
    decreases |ms|
  {
    if ms == [] then 0 else Wins(ms[..|ms| - 1], wtc) + (if IsWin(ms[|ms| - 1], wtc) then 1 else 0)
  }

  /** `matches.filter(m => user < opponent).length` under the switch. */
  function Losses(ms: seq<Game>, wtc: bool): (n: nat)
    ensures n <= |ms|
    decreases |ms|
  {
    if ms == [] then 0 else Losses(ms[..|ms| - 1], wtc) + (if IsLoss(ms[|ms| - 1], wtc) then 1 else 0)
  }

  /** `matches.length - wins - losses`. */
  function Draws(ms: seq<Game>, wtc: bool): int {
    |ms| - Wins(ms, wtc) - Losses(ms, wtc)
  }

  /** `wins / matches.length * 100`, `NaN` for no matches. */
  function Winrate(ms: seq<Game>, wtc: bool): Option<real> {
    Percent(Wins(ms, wtc), |ms|)
  }

  /** The number of matches whose two sides scored the same. */
  function Ties(ms: seq<Game>, wtc: bool): nat
    decreases |ms|
  {
    if ms == [] then 0
    else Ties(ms[..|ms| - 1], wtc) + (if UserSide(ms[|ms| - 1], wtc) == OpponentSide(ms[|ms| - 1], wtc) then 1 else 0)
  }

  /** The subtraction counts exactly the tied matches, so it is never negative. */
  lemma {:induction false} DrawsAreTies(ms: seq<Game>, wtc: bool)
    ensures Draws(ms, wtc) == Ties(ms, wtc)
    ensures 0 <= Draws(ms, wtc) <= |ms|
    ensures Wins(ms, wtc) + Losses(ms, wtc) + Draws(ms, wtc) == |ms|
    decreases |ms|
  {
    if ms != [] {
      DrawsAreTies(ms[..|ms| - 1], wtc);
    }
  }

  /** The winrate exists exactly for a non-empty list and is a percentage. */
  lemma WinrateRange(ms: seq<Game>, wtc: bool)
    ensures Winrate(ms, wtc).Some? <==> |ms| > 0
    ensures Winrate(ms, wtc).Some? ==> 0.0 <= Winrate(ms, wtc).value <= 100.0
  {
  }

  /**
   * The switch selects both comparisons at once: two lists whose matches
   * agree on the selected pair of scores have the same summary, whatever
   * their other pair of scores.
   */
  lemma {:induction false} SummaryReadsSelectedScores(ms: seq<Game>, ns: seq<Game>, wtc: bool)
    requires |ms| == |ns|
    requires forall i :: 0 <= i < |ms| ==>
      UserSide(ms[i], wtc) == UserSide(ns[i], wtc) && OpponentSide(ms[i], wtc) == OpponentSide(ns[i], wtc)
    ensures Wins(ms, wtc) == Wins(ns, wtc)
    ensures Losses(ms, wtc) == Losses(ns, wtc)
    ensures Draws(ms, wtc) == Draws(ns, wtc)
    decreases |ms|
  {
    if ms != [] {
      SummaryReadsSelectedScores(ms[..|ms| - 1], ns[..|ns| - 1], wtc);
    }
  }

  /** The summary's wins are the wins every per-key table distributes over its keys. */
  lemma {:induction false} WinsAgreeWithTables(ms: seq<Game>, grouping: Grouping, wtc: bool)
    ensures Wins(ms, wtc) == Total(Observe(ms, grouping, Won(wtc)))
    decreases |ms|
  {
    if ms != [] {
      var p, m := ms[..|ms| - 1], ms[|ms| - 1];
      assert ms == p + [m];
      WinsAgreeWithTables(p, grouping, wtc);
      ObserveSnoc(p, m, grouping, Won(wtc));
      var o := Observe(ms, grouping, Won(wtc));
      assert o[..|o| - 1] == Observe(p, grouping, Won(wtc));
    }
  }
}
