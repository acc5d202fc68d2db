/**
 * The army editor: the army fetched for editing, the handlers that edit
 * its detachment list, and the body the save button sends back. The
 * detachment entries are objects; renaming one writes into the object that
 * the previous list holds as well.
 */
module EditArmyState {
  import opened Wrappers
  import opened Seqs
  import opened Reconcile

  /** One detachment entry of the editor: fetched ones carry an id, added ones are marked new. */
  class Entry {
    var id: Option<int>
    var name: string
    var isNew: bool

    constructor (id: Option<int>, name: string, isNew: bool)
      ensures this.id == id && this.name == name && this.isNew == isNew
    {
      this.id, this.name, this.isNew := id, name, isNew;
    }
  }

  /** The entries as the request body carries them: each entry's id, if any, and its name. */
  function EntryValues(es: seq<Entry>): (r: seq<IncomingDetachment>)
    reads es
    ensures |r| == |es|
    ensures forall i :: 0 <= i < |es| ==> r[i] == IncomingDetachment(es[i].id, es[i].name)
    decreases |es|
  {
    if es == [] then [] else EntryValues(es[..|es| - 1]) + [IncomingDetachment(es[|es| - 1].id, es[|es| - 1].name)]
  }

  /**
   * `s.splice(index, 1)` on a copy: a negative index counts from the end
   * (and below `-|s|` means the first element), an index at or past the
   * end removes nothing.
   */
  function SpliceOne<T>(s: seq<T>, index: int): (r: seq<T>)
    ensures 0 <= index < |s| ==> r == RemoveAt(s, index)
    ensures -|s| <= index < 0 ==> r == RemoveAt(s, |s| + index)
    ensures index < -|s| && s != [] ==> r == RemoveAt(s, 0)
    ensures |s| <= index || s == [] ==> r == s
  {
    var start := if index < 0 then (if |s| + index < 0 then 0 else |s| + index) else index;
    if start < |s| then RemoveAt(s, start) else s
  }

  /** `SpliceOne` removes at most one element and keeps the others in their order. */
  lemma SpliceOneOrder<T>(s: seq<T>, index: int)
    ensures var r := SpliceOne(s, index);
      (|r| == |s| && r == s) ||
      (|r| == |s| - 1 && exists k :: 0 <= k < |s| && r == s[..k] + s[k + 1..])
  {
    var r := SpliceOne(s, index);
    var start := if index < 0 then (if |s| + index < 0 then 0 else |s| + index) else index;
    if start < |s| {
      assert r == s[..start] + s[start + 1..];
    }
  }

  /** The editor's state: `army` (absent until it is fetched) with its name and detachment entries. */
  class EditArmy {
    var loaded: bool
    var armyId: int
    var name: string
    var detachments: seq<Entry>

    /** The list holds each entry object once. */
    ghost predicate Valid()
      reads this
    {
      NoDup(detachments)
    }

    /** Before the fetch completes `army` is `null`. */
    constructor (armyId: int)
      ensures Valid()
      ensures !loaded && this.armyId == armyId && name == "" && detachments == []
    {
      loaded, this.armyId, name, detachments := false, armyId, "", [];
    }

    /** `setArmy(data)` with the fetched army: one fresh entry per fetched detachment. */
    method Load(newName: string, fetched: seq<IncomingDetachment>)
      requires Valid()
      modifies this
      ensures Valid()
      ensures loaded && name == newName && armyId == old(armyId)
      ensures EntryValues(detachments) == fetched
      ensures forall i :: 0 <= i < |detachments| ==> fresh(detachments[i]) && !detachments[i].isNew
    {
      var es: seq<Entry> := [];
      var i := 0;
      while i < |fetched|
        invariant 0 <= i <= |fetched|
        invariant |es| == i && NoDup(es) && armyId == old(armyId)
        invariant forall j :: 0 <= j < i ==> fresh(es[j]) && !es[j].isNew
        invariant forall j :: 0 <= j < i ==> es[j].id == fetched[j].id && es[j].name == fetched[j].name
      {
        var e := new Entry(fetched[i].id, fetched[i].name, false);
        es := es + [e];
        i := i + 1;
      }
      loaded, name, detachments := true, newName, es;
    }

    /** `handleArmyNameChange(newName)`: renames the army; a no-op while `army` is `null`. */
    method ArmyNameChange(newName: string)
      requires Valid()
      modifies this
      ensures Valid()
      ensures name == if old(loaded) then newName else old(name)
      ensures loaded == old(loaded) && armyId == old(armyId) && detachments == old(detachments)
    {
      if loaded {
        name := newName;
      }
    }

    /** The army-name field's `onChange`: it passes the current name, whatever was typed, so the name never changes. */
    method NameFieldChange(typed: string)
      requires Valid()
      modifies this
      ensures Valid()
      ensures name == old(name) && loaded == old(loaded) && armyId == old(armyId) && detachments == old(detachments)
    {
      ArmyNameChange(name);
    }

    /** The name field wired as evidently intended, passing the typed text on: the loaded army takes the typed name. */
    method NameFieldTyped(typed: string)
      requires Valid()
      modifies this
      ensures Valid()
      ensures name == if old(loaded) then typed else old(name)
      ensures loaded == old(loaded) && armyId == old(armyId) && detachments == old(detachments)
    {
      ArmyNameChange(typed);
    }

    /**
     * `handleDetachmentChange(index, newName)`: the list keeps the same
     * entry objects, and the entry at `index` gets the new name. A missing
     * entry makes the assignment throw (`ok` false) before anything changes.
     */
    method DetachmentChange(index: int, newName: string) returns (ok: bool)
      requires Valid()
      modifies this, detachments
      ensures Valid()
      ensures ok == (!old(loaded) || 0 <= index < |old(detachments)|)
      ensures detachments == old(detachments) && loaded == old(loaded) && name == old(name) && armyId == old(armyId)
      ensures EntryValues(detachments) ==
        if old(loaded) && 0 <= index < |detachments|
        then old(EntryValues(detachments))[index := IncomingDetachment(old(detachments[index].id), newName)]
        else old(EntryValues(detachments))
      ensures forall i :: 0 <= i < |detachments| ==> detachments[i].isNew == old(detachments[i].isNew)
    {
      if !loaded {
        return true;
      }
      if index < 0 || index >= |detachments| {
        return false;
      }
      detachments[index].name := newName;
      ok := true;
    }

    /** `handleDeleteDetachment(index)`: `splice(index, 1)` on a copy of the list; a no-op while `army` is `null`. */
    method DeleteDetachment(index: int)
      requires Valid()
      modifies this
      ensures Valid()
      ensures detachments == if old(loaded) then SpliceOne(old(detachments), index) else old(detachments)
      ensures loaded == old(loaded) && name == old(name) && armyId == old(armyId)
    {
      if loaded {
        var start := if index < 0 then (if |detachments| + index < 0 then 0 else |detachments| + index) else index;
        if start < |detachments| {
          RemoveAtNoDup(detachments, start);
        }
        detachments := SpliceOne(detachments, index);
      }
    }

    /**
     * `handleAddDetachment`: appends a fresh entry `{name: '', isNew: true}`
     * without an id, so the update handler creates a detachment for it.
     */
    method AddDetachment()
      requires Valid()
      modifies this
      ensures Valid()
      ensures loaded == old(loaded) && name == old(name) && armyId == old(armyId)
      ensures !old(loaded) ==> detachments == old(detachments)
      ensures old(loaded) ==>
        |detachments| == |old(detachments)| + 1 && detachments[..|old(detachments)|] == old(detachments)
        && fresh(detachments[|old(detachments)|]) && detachments[|old(detachments)|].isNew
      ensures EntryValues(detachments) ==
        if old(loaded) then old(EntryValues(detachments)) + [IncomingDetachment(None, "")] else old(EntryValues(detachments))
      ensures old(loaded) ==> !HasTruthyId(EntryValues(detachments)[|old(detachments)|])
    {
      if loaded {
        var e := new Entry(None, "", true);
        detachments := detachments + [e];
      }
    }

    /**
     * The body `handleSave` sends: the whole army, or `null` before the
     * fetch completes. The update handler reads the name and, per entry,
     * the id and the name.
     */
    function Payload(): (r: Option<(string, seq<IncomingDetachment>)>)
      reads this, detachments
      ensures r.Some? <==> loaded
      ensures r.Some? ==> r.value.0 == name && |r.value.1| == |detachments|
    {
      if loaded then Some((name, EntryValues(detachments))) else None
    }
  }
}
