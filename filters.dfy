/**
 * The filter panel of the statistics page: the option lists of its
 * dropdowns, the sorted list of months behind the range slider, the slider
 * positions, and the updates its controls make to the filter record.
 */
module FilterOptions {
  import opened Wrappers
  import opened Text
  import opened Seqs
  import opened Games
  import opened Statistics

  /** `['all', ...Array.from(new Set(list))]`. */
  function UniqueWithAll(list: seq<string>): (r: seq<string>)
    ensures |r| >= 1 && r[0] == "all"
  {
    ["all"] + Distinct(list)
  }

  /**
   * After the leading `"all"` come the values of the list, each once, in
   * the order of their first occurrences; the whole list is free of
   * duplicates exactly when the input does not itself hold `"all"`.
   */
  lemma UniqueWithAllSpec(list: seq<string>, x: string)
    ensures x in UniqueWithAll(list) <==> x == "all" || x in list
    ensures NoDup(UniqueWithAll(list)[1..])
    ensures forall i :: 1 <= i < |UniqueWithAll(list)| ==> UniqueWithAll(list)[i] in list
    ensures forall i, j :: 1 <= i < j < |UniqueWithAll(list)| ==>
      FirstIndex(list, UniqueWithAll(list)[i]) < FirstIndex(list, UniqueWithAll(list)[j])
    ensures NoDup(UniqueWithAll(list)) <==> "all" !in list
  {
    var d := Distinct(list);
    var r := UniqueWithAll(list);
    assert r[1..] == d;
    assert forall i :: 1 <= i < |r| ==> r[i] == d[i - 1];
    DistinctFirstOccurrenceOrder(list);
    if "all" in list {
      var k :| 0 <= k < |d| && d[k] == "all";
      assert r[0] == r[k + 1];
    }
  }

  /** A value is projected from a list exactly when some element of it carries that value. */
  lemma ProjectMembership(ms: seq<Game>, field: Game -> string, x: string)
    ensures x in Project(ms, field) <==> exists m :: m in ms && field(m) == x
  {
    if exists m :: m in ms && field(m) == x {
      var m :| m in ms && field(m) == x;
      var i :| 0 <= i < |ms| && ms[i] == m;
      assert Project(ms, field)[i] == x;
    }
  }

  /** The same through a filter: some kept element carries the value. */
  lemma ProjectFilterMembership(ms: seq<Game>, keep: Game -> bool, field: Game -> string, x: string)
    ensures x in Project(Filter(ms, keep), field) <==> exists m :: m in ms && keep(m) && field(m) == x
  {
    ProjectMembership(Filter(ms, keep), field, x);
    forall m ensures m in Filter(ms, keep) <==> m in ms && keep(m) {
      FilterMembership(ms, keep, m);
    }
  }

  function UserArmyOf(m: Game): string {
    m.userArmy
  }

  function OpponentArmyOf(m: Game): string {
    m.opponentArmy
  }

  function UserDetachmentOf(m: Game): string {
    m.userDetachment
  }

  function OpponentDetachmentOf(m: Game): string {
    m.opponentDetachment
  }

  /** `m => filters.userArmy === 'all' || m.user_army.name === filters.userArmy`. */
  function UserArmyIs(selected: string): Game -> bool {
    (m: Game) => selected == "all" || m.userArmy == selected
  }

  function OpponentArmyIs(selected: string): Game -> bool {
    (m: Game) => selected == "all" || m.opponentArmy == selected
  }

  /** `uniqueUserArmies` and `uniqueOpponentArmies`. */
  function UserArmyOptions(ms: seq<Game>): seq<string> {
    UniqueWithAll(Project(ms, UserArmyOf))
  }

  function OpponentArmyOptions(ms: seq<Game>): seq<string> {
    UniqueWithAll(Project(ms, OpponentArmyOf))
  }

  /** `uniqueUserDetachments`: the user detachments played with the selected army. */
  function UserDetachmentOptions(ms: seq<Game>, selected: string): seq<string> {
    UniqueWithAll(Project(Filter(ms, UserArmyIs(selected)), UserDetachmentOf))
  }

  /** `uniqueOpponentDetachments`: the opponent detachments faced with the selected opponent army. */
  function OpponentDetachmentOptions(ms: seq<Game>, selected: string): seq<string> {
    UniqueWithAll(Project(Filter(ms, OpponentArmyIs(selected)), OpponentDetachmentOf))
  }

  /** The army dropdowns offer `"all"` and exactly the armies that occur in the matches. */
  lemma ArmyOptionsSpec(ms: seq<Game>, x: string)
    ensures x in UserArmyOptions(ms) <==> x == "all" || exists m :: m in ms && m.userArmy == x
    ensures x in OpponentArmyOptions(ms) <==> x == "all" || exists m :: m in ms && m.opponentArmy == x
  {
    UniqueWithAllSpec(Project(ms, UserArmyOf), x);
    UniqueWithAllSpec(Project(ms, OpponentArmyOf), x);
    ProjectMembership(ms, UserArmyOf, x);
    ProjectMembership(ms, OpponentArmyOf, x);
  }

  /**
   * The user detachment dropdown offers `"all"` and exactly the detachments
   * of the matches played with the selected army, or of every match when
   * the selection is `"all"`.
   */
  lemma UserDetachmentOptionsSpec(ms: seq<Game>, selected: string, x: string)
    ensures x in UserDetachmentOptions(ms, selected) <==>
      x == "all" || exists m :: m in ms && (selected == "all" || m.userArmy == selected) && m.userDetachment == x
  {
    UniqueWithAllSpec(Project(Filter(ms, UserArmyIs(selected)), UserDetachmentOf), x);
    ProjectFilterMembership(ms, UserArmyIs(selected), UserDetachmentOf, x);
  }

  /** The same for the opponent side and the selected opponent army. */
  lemma OpponentDetachmentOptionsSpec(ms: seq<Game>, selected: string, x: string)
    ensures x in OpponentDetachmentOptions(ms, selected) <==>
      x == "all" || exists m :: m in ms && (selected == "all" || m.opponentArmy == selected) && m.opponentDetachment == x
  {
    UniqueWithAllSpec(Project(Filter(ms, OpponentArmyIs(selected)), OpponentDetachmentOf), x);
    ProjectFilterMembership(ms, OpponentArmyIs(selected), OpponentDetachmentOf, x);
  }

  /** `filter(Boolean)` on strings: the empty string is dropped. */
  function NonEmpty(s: string): bool {
    s != ""
  }

  /** `months`: the distinct non-empty date prefixes, sorted. */
  function Months(ms: seq<Game>): seq<string> {
    SortBy(Distinct(Filter(KeyList(ms, ByMonth), NonEmpty)), Identity, false)
  }

  /** The month list is strictly ascending, so free of duplicates. */
  lemma MonthsOrdered(ms: seq<Game>)
    ensures StrictlyOrdered(Months(ms), Identity, false)
    ensures NoDup(Months(ms))
  {
    var d := Distinct(Filter(KeyList(ms, ByMonth), NonEmpty));
    assert DistinctKeys(d, Identity);
    SortByStrict(d, Identity, false);
  }

  /** The month list holds exactly the non-empty months of the matches. */
  lemma MonthsMembership(ms: seq<Game>, x: string)
    ensures x in Months(ms) <==> x != "" && exists i :: 0 <= i < |ms| && MonthOf(ms[i]) == x
  {
    var keys := KeyList(ms, ByMonth);
    var d := Distinct(Filter(keys, NonEmpty));
    SortByCorrect(d, Identity, false);
    assert x in Months(ms) <==> x in multiset(Months(ms));
    FilterMembership(keys, NonEmpty, x);
    if exists i :: 0 <= i < |ms| && MonthOf(ms[i]) == x {
      var i :| 0 <= i < |ms| && MonthOf(ms[i]) == x;
      assert keys[i] == x;
    }
  }

  /** Every listed month has one to seven characters; the list is empty exactly when no match has a month. */
  lemma MonthsShape(ms: seq<Game>)
    ensures forall i :: 0 <= i < |Months(ms)| ==> 1 <= |Months(ms)[i]| <= 7
    ensures Months(ms) == [] <==> forall i :: 0 <= i < |ms| ==> MonthOf(ms[i]) == ""
  {
    var r := Months(ms);
    forall j | 0 <= j < |r| ensures 1 <= |r[j]| <= 7 {
      MonthsMembership(ms, r[j]);
    }
    if r == [] {
      forall i | 0 <= i < |ms| ensures MonthOf(ms[i]) == "" {
        MonthsMembership(ms, MonthOf(ms[i]));
      }
    } else {
      MonthsMembership(ms, r[0]);
    }
  }

  /** `months.indexOf(x)`: the first position of `x`, or -1. */
  function IndexOf(s: seq<string>, x: string): (r: int)
    ensures -1 <= r < |s|
    ensures r == -1 <==> x !in s
    ensures r >= 0 ==> s[r] == x && x !in s[..r]
  {
    if x in s then FirstIndex(s, x) else -1
  }

  /** `rangeValues`: the slider positions of the selected months, defaulting to the whole range. */
  function RangeValues(months: seq<string>, f: Filters): (int, int) {
    var fromIdx, toIdx := IndexOf(months, f.fromMonth), IndexOf(months, f.toMonth);
    if |months| > 0 then
      (if fromIdx >= 0 then fromIdx else 0, if toIdx >= 0 then toIdx else if |months| > 0 then |months| - 1 else 0)
    else (0, 0)
  }

  /**
   * With months, both positions are on the slider: at the selected month
   * when it is listed, else at the first (last) month; with none, both are 0.
   */
  lemma RangeValuesSpec(months: seq<string>, f: Filters)
    ensures |months| == 0 ==> RangeValues(months, f) == (0, 0)
    ensures |months| > 0 ==>
      0 <= RangeValues(months, f).0 < |months| && 0 <= RangeValues(months, f).1 < |months|
      && (if f.fromMonth in months then months[RangeValues(months, f).0] == f.fromMonth else RangeValues(months, f).0 == 0)
      && (if f.toMonth in months then months[RangeValues(months, f).1] == f.toMonth else RangeValues(months, f).1 == |months| - 1)
  {
  }

  /** `months[i]` in JavaScript: `undefined` outside the list. */
  function At(months: seq<string>, i: int): Option<string> {
    if 0 <= i < |months| then Some(months[i]) else None
  }

  /** JavaScript truthiness of a possibly undefined string. */
  predicate Truthy(s: Option<string>) {
    s.Some? && s.value != ""
  }

  /** `handleMonthRangeChange`: set both bounds when both positions name a month, else change nothing. */
  function MonthRangeChange(months: seq<string>, f: Filters, fromIdx: int, toIdx: int): Filters {
    var from, to := At(months, fromIdx), At(months, toIdx);
    if Truthy(from) && Truthy(to) then f.(fromMonth := from.value, toMonth := to.value) else f
  }

  /**
   * On a list of non-empty months, a slider change sets exactly the two
   * bounds when both positions are on the slider, and is ignored otherwise.
   */
  lemma MonthRangeChangeSpec(months: seq<string>, f: Filters, fromIdx: int, toIdx: int)
    requires forall k :: 0 <= k < |months| ==> months[k] != ""
    ensures 0 <= fromIdx < |months| && 0 <= toIdx < |months| ==>
      MonthRangeChange(months, f, fromIdx, toIdx) == f.(fromMonth := months[fromIdx], toMonth := months[toIdx])
    ensures !(0 <= fromIdx < |months| && 0 <= toIdx < |months|) ==> MonthRangeChange(months, f, fromIdx, toIdx) == f
  {
  }

  /**
   * The slider and the filters agree both ways on a duplicate-free list of
   * non-empty months: moving the slider to two positions and reading the
   * positions back gives the same two; reporting the current positions
   * when both bounds are listed changes nothing.
   */
  lemma SliderRoundTrip(months: seq<string>, f: Filters, fromIdx: int, toIdx: int)
    requires NoDup(months)
    requires forall k :: 0 <= k < |months| ==> months[k] != ""
    ensures 0 <= fromIdx < |months| && 0 <= toIdx < |months| ==>
      RangeValues(months, MonthRangeChange(months, f, fromIdx, toIdx)) == (fromIdx, toIdx)
    ensures f.fromMonth in months && f.toMonth in months ==>
      MonthRangeChange(months, f, RangeValues(months, f).0, RangeValues(months, f).1) == f
  {
    if 0 <= fromIdx < |months| && 0 <= toIdx < |months| {
      var g := MonthRangeChange(months, f, fromIdx, toIdx);
      var i, j := IndexOf(months, g.fromMonth), IndexOf(months, g.toMonth);
      assert months[i] == months[fromIdx] && months[j] == months[toIdx];
    }
  }

  /** A bound that is empty or not among the months. */
  predicate Unset(bound: string, months: seq<string>) {
    bound == "" || bound !in months
  }

  /** The default-range effect: with months and neither bound listed, select the whole range. */
  function AutoDefault(months: seq<string>, f: Filters): Filters {
    if |months| > 0 && Unset(f.fromMonth, months) && Unset(f.toMonth, months) then
      f.(fromMonth := months[0], toMonth := months[|months| - 1])
    else f
  }

  /**
   * The effect touches only the two bounds; afterwards, with months, at
   * least one bound is listed, so running it again changes nothing.
   */
  lemma AutoDefaultSpec(months: seq<string>, f: Filters)
    ensures AutoDefault(months, f).(fromMonth := f.fromMonth, toMonth := f.toMonth) == f
    ensures (|months| > 0 && forall k :: 0 <= k < |months| ==> months[k] != "") ==>
      (!Unset(AutoDefault(months, f).fromMonth, months) || !Unset(AutoDefault(months, f).toMonth, months))
    ensures AutoDefault(months, AutoDefault(months, f)) == AutoDefault(months, f)
  {
  }

  /** The default range of the month list admits every match that has a month. */
  lemma DefaultRangeCoversAll(ms: seq<Game>, f: Filters)
    requires Months(ms) != []
    ensures var g := AutoDefault(Months(ms), f);
      Unset(f.fromMonth, Months(ms)) && Unset(f.toMonth, Months(ms)) ==>
        forall i :: 0 <= i < |ms| && MonthOf(ms[i]) != "" ==>
          FromAdmits(g.fromMonth, MonthOf(ms[i])) && ToAdmits(g.toMonth, MonthOf(ms[i]))
  {
    var months := Months(ms);
    forall i | 0 <= i < |ms| && MonthOf(ms[i]) != ""
      ensures Le(months[0], MonthOf(ms[i])) && Le(MonthOf(ms[i]), months[|months| - 1])
    {
      var x := MonthOf(ms[i]);
      MonthsMembership(ms, x);
      MonthsOrdered(ms);
      var k :| 0 <= k < |months| && months[k] == x;
      if k > 0 {
        assert InOrder(Identity(months[0]), Identity(months[k]), false);
      } else {
        LeReflexive(x);
      }
      if k < |months| - 1 {
        assert InOrder(Identity(months[k]), Identity(months[|months| - 1]), false);
      } else {
        LeReflexive(x);
      }
    }
  }

  /** The user army dropdown: select the army and reset the user detachment to `"all"`. */
  function SetUserArmy(f: Filters, army: string): (r: Filters)
    ensures r.userArmy == army && r.userDetachment == "all"
    ensures r.(userArmy := f.userArmy, userDetachment := f.userDetachment) == f
  {
    f.(userArmy := army, userDetachment := "all")
  }

  /** The opponent army dropdown: select the army and reset the opponent detachment to `"all"`. */
  function SetOpponentArmy(f: Filters, army: string): (r: Filters)
    ensures r.opponentArmy == army && r.opponentDetachment == "all"
    ensures r.(opponentArmy := f.opponentArmy, opponentDetachment := f.opponentDetachment) == f
  {
    f.(opponentArmy := army, opponentDetachment := "all")
  }

  /**
   * After an army change a match is kept exactly when it has the new army
   * and passes every other check, whatever detachment was selected before.
   */
  lemma ArmyChangeKeep(f: Filters, army: string, m: Game)
    ensures Keep(SetUserArmy(f, army), m) <==>
      NameAdmits(army, m.userArmy) && Keep(f.(userArmy := "all", userDetachment := "all"), m)
    ensures Keep(SetOpponentArmy(f, army), m) <==>
      NameAdmits(army, m.opponentArmy) && Keep(f.(opponentArmy := "all", opponentDetachment := "all"), m)
  {
    KeepIsConjunction(SetUserArmy(f, army), m);
    KeepIsConjunction(f.(userArmy := "all", userDetachment := "all"), m);
    KeepIsConjunction(SetOpponentArmy(f, army), m);
    KeepIsConjunction(f.(opponentArmy := "all", opponentDetachment := "all"), m);
  }
}
