/**
 * The match entry form: its initial record, the option lists derived from
 * the fetched armies, and the updates that keep dependent fields
 * consistent (the detachment of a side whose army changes, the tournament
 * name behind the tournament checkbox).
 */
module MatchFormState {
  import opened Wrappers
  import opened Text
  import opened Seqs

  /** An army as `/api/armies` delivers it to the form, with its detachments. */
  datatype Detachment = Detachment(id: int, name: string)
  datatype Army = Army(id: int, name: string, detachments: seq<Detachment>)

  /** The form record; `tournamentName` is absent (`undefined`) when `None`. */
  datatype MatchForm = MatchForm(
    userArmy: string,
    userDetachment: string,
    opponentArmy: string,
    opponentDetachment: string,
    date: string,
    userScore: int,
    opponentScore: int,
    isTournament: bool,
    tournamentName: Option<string>)

  const InitialForm := MatchForm("", "", "", "", "", 0, 0, false, Some(""))

  /** The initial form is blank: no armies or date chosen, 0 to 0, not a tournament, and an empty tournament name. */
  lemma InitialFormBlank()
    ensures InitialForm.userArmy == "" && InitialForm.opponentArmy == ""
    ensures InitialForm.userDetachment == "" && InitialForm.opponentDetachment == ""
    ensures InitialForm.userScore == 0 && InitialForm.opponentScore == 0
    ensures !InitialForm.isTournament && InitialForm.tournamentName == Some("")
  {
  }

  function ArmyName(a: Army): string {
    a.name
  }

  function DetachmentName(d: Detachment): string {
    d.name
  }

  /** `armies.map(army => army.name).sort()`. */
  function ArmyNames(armies: seq<Army>): seq<string> {
    SortBy(Project(armies, ArmyName), Identity, false)
  }

  /** The army list is every army's name, each as often as it occurs, in ascending order. */
  lemma ArmyNamesSpec(armies: seq<Army>)
    ensures Ordered(ArmyNames(armies), Identity, false)
    ensures multiset(ArmyNames(armies)) == multiset(Project(armies, ArmyName))
    ensures |ArmyNames(armies)| == |armies|
  {
    SortByCorrect(Project(armies, ArmyName), Identity, false);
    assert |multiset(ArmyNames(armies))| == |multiset(Project(armies, ArmyName))|;
  }

  /** `armies.find(army => army.name === name)`: the first army with that name. */
  function FindByName(armies: seq<Army>, name: string): Option<Army>
    decreases |armies|
  {
    if armies == [] then None
    else if armies[0].name == name then Some(armies[0])
    else FindByName(armies[1..], name)
  }

  /** `find` fails exactly when no army has the name, and otherwise yields the first army that has it. */
  lemma {:induction false} FindByNameSpec(armies: seq<Army>, name: string)
    ensures FindByName(armies, name).None? <==> forall i :: 0 <= i < |armies| ==> armies[i].name != name
    ensures FindByName(armies, name).Some? ==>
      exists k :: 0 <= k < |armies| && armies[k] == FindByName(armies, name).value && armies[k].name == name
        && forall i :: 0 <= i < k ==> armies[i].name != name
    decreases |armies|
  {
    if armies != [] && armies[0].name != name {
      var t := armies[1..];
      FindByNameSpec(t, name);
      forall i | 0 <= i < |t|
        ensures t[i] == armies[i + 1]
      {
      }
      if FindByName(t, name).Some? {
        var k :| 0 <= k < |t| && t[k] == FindByName(t, name).value && t[k].name == name
          && forall i :: 0 <= i < k ==> t[i].name != name;
        assert armies[k + 1] == t[k];
        forall i | 0 <= i < k + 1
          ensures armies[i].name != name
        {
          if i > 0 {
            assert armies[i] == t[i - 1];
          }
        }
      }
    }
  }

  /** `selectedArmy?.detachments.map(det => det.name).sort() ?? []`. */
  function DetachmentOptions(armies: seq<Army>, selected: string): seq<string> {
    match FindByName(armies, selected)
    case None => []
    case Some(a) => SortBy(Project(a.detachments, DetachmentName), Identity, false)
  }

  /**
   * The detachment options are the sorted detachment names of the first
   * army named as selected, and empty when no army has that name.
   */
  lemma DetachmentOptionsSpec(armies: seq<Army>, selected: string)
    ensures Ordered(DetachmentOptions(armies, selected), Identity, false)
    ensures FindByName(armies, selected).None? ==> DetachmentOptions(armies, selected) == []
    ensures FindByName(armies, selected).Some? ==>
      multiset(DetachmentOptions(armies, selected))
        == multiset(Project(FindByName(armies, selected).value.detachments, DetachmentName))
  {
    match FindByName(armies, selected)
    case None =>
    case Some(a) =>
      SortByCorrect(Project(a.detachments, DetachmentName), Identity, false);
  }

  /** The fields outside the two army and detachment pairs are equal. */
  predicate SameMatchDetails(a: MatchForm, b: MatchForm) {
    a.date == b.date && a.userScore == b.userScore && a.opponentScore == b.opponentScore
    && a.isTournament == b.isTournament && a.tournamentName == b.tournamentName
  }

  /** Choosing the user's army clears the user's detachment and keeps every other field. */
  function SelectUserArmy(f: MatchForm, val: string): (r: MatchForm)
    ensures r.userArmy == val && r.userDetachment == ""
    ensures r.opponentArmy == f.opponentArmy && r.opponentDetachment == f.opponentDetachment
    ensures SameMatchDetails(r, f)
  {
    f.(userArmy := val, userDetachment := "")
  }

  /** Choosing the opponent's army clears the opponent's detachment and keeps every other field. */
  function SelectOpponentArmy(f: MatchForm, val: string): (r: MatchForm)
    ensures r.opponentArmy == val && r.opponentDetachment == ""
    ensures r.userArmy == f.userArmy && r.userDetachment == f.userDetachment
    ensures SameMatchDetails(r, f)
  {
    f.(opponentArmy := val, opponentDetachment := "")
  }

  /**
   * The tournament checkbox: switched on it keeps the previous name, or
   * `''` when there was none; switched off it drops the name.
   */
  function ToggleTournament(prev: MatchForm, isTournament: bool): (r: MatchForm)
    ensures r.isTournament == isTournament
    ensures isTournament && prev.tournamentName.Some? ==> r.tournamentName == prev.tournamentName
    ensures isTournament && prev.tournamentName.None? ==> r.tournamentName == Some("")
    ensures !isTournament ==> r.tournamentName == None
    ensures r.userArmy == prev.userArmy && r.userDetachment == prev.userDetachment
    ensures r.opponentArmy == prev.opponentArmy && r.opponentDetachment == prev.opponentDetachment
    ensures r.date == prev.date && r.userScore == prev.userScore && r.opponentScore == prev.opponentScore
  {
    var name := if isTournament then Some(prev.tournamentName.GetOr("")) else None;
    prev.(isTournament := isTournament, tournamentName := name)
  }

  /**
   * Switching the checkbox off and on again leaves an empty tournament
   * name, whatever was typed before; switching it on twice changes nothing
   * more than switching it on once.
   */
  lemma ToggleTournamentCycle(f: MatchForm)
    ensures ToggleTournament(ToggleTournament(f, false), true).tournamentName == Some("")
    ensures ToggleTournament(ToggleTournament(f, true), true) == ToggleTournament(f, true)
  {
  }
}
