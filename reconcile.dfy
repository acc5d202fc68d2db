/**
 * The detachment reconciliation of `updateArmyById`: the ids the request
 * keeps, the existing ids it soft-deletes, and the per-entry pass that
 * renames an entry with a truthy `id` and creates one without.
 */
module Reconcile {
  import opened Wrappers
  import opened Seqs
  import opened Tables

  /** One element of the request's `detachments`: `{ id?: number, name: string }`. */
  datatype IncomingDetachment = IncomingDetachment(id: Option<int>, name: string)

  /** JavaScript truthiness of `d.id`: a missing id and the id 0 are both falsy. */
  predicate HasTruthyId(e: IncomingDetachment) {
    e.id.Some? && e.id.value != 0
  }

  /** `detachments.filter(d => d.id).map(d => d.id)`. */
  function IncomingIds(entries: seq<IncomingDetachment>): (r: seq<int>)
    ensures |r| <= |entries|
    decreases |entries|
  {
    if entries == [] then []
    else
      var p, e := IncomingIds(entries[..|entries| - 1]), entries[|entries| - 1];
      if HasTruthyId(e) then p + [e.id.value] else p
  }

  /** The `id` field of every entry, set or not. */
  function EntryIds(entries: seq<IncomingDetachment>): (r: seq<Option<int>>)
    ensures |r| == |entries|
    ensures forall i :: 0 <= i < |entries| ==> r[i] == entries[i].id
  {
    seq(|entries|, i requires 0 <= i < |entries| => entries[i].id)
  }

  /** An id is kept by the request exactly when some entry carries it and it is not 0. */
  lemma {:induction false} IncomingIdsMembership(entries: seq<IncomingDetachment>, x: int)
    ensures x in IncomingIds(entries) <==> x != 0 && Some(x) in EntryIds(entries)
    decreases |entries|
  {
    if entries != [] {
      var p := entries[..|entries| - 1];
      IncomingIdsMembership(p, x);
      assert EntryIds(entries) == EntryIds(p) + [entries[|entries| - 1].id];
    }
  }

  /** `existingArmy.detachments.map(d => d.id)`: the ids of every detachment of the army, deleted or not. */
  function ExistingIds(rows: seq<Detachment>, armyId: int): seq<int> {
    DetachmentIds(Filter(rows, OfArmy(armyId)))
  }

  /** With unique ids, a row's id is among the existing ids exactly when the row belongs to the army. */
  lemma ExistingIdsMembership(rows: seq<Detachment>, armyId: int, i: nat)
    requires NoDup(DetachmentIds(rows))
    requires i < |rows|
    ensures rows[i].id in ExistingIds(rows, armyId) <==> rows[i].armyId == armyId
  {
    var kept := Filter(rows, OfArmy(armyId));
    FilterMembership(rows, OfArmy(armyId), rows[i]);
    if rows[i].id in ExistingIds(rows, armyId) {
      var k :| 0 <= k < |kept| && DetachmentIds(kept)[k] == rows[i].id;
      FilterMembership(rows, OfArmy(armyId), kept[k]);
      var j :| 0 <= j < |rows| && rows[j] == kept[k];
      assert DetachmentIds(rows)[j] == DetachmentIds(rows)[i];
    }
    if rows[i].armyId == armyId {
      var k :| 0 <= k < |kept| && kept[k] == rows[i];
      assert DetachmentIds(kept)[k] == rows[i].id;
    }
  }

  /** `i => !incomingIds.includes(i)`. */
  function NotIn(ids: seq<int>): int -> bool {
    x => x !in ids
  }

  /** `existingIds.filter(i => !incomingIds.includes(i))`. */
  function IdsToDelete(existing: seq<int>, incoming: seq<int>): seq<int> {
    Filter(existing, NotIn(incoming))
  }

  /** An existing id is either kept by the request or deleted, never both and never neither. */
  lemma Partition(existing: seq<int>, incoming: seq<int>, x: int)
    ensures x in IdsToDelete(existing, incoming) <==> x in existing && x !in incoming
    ensures x in existing ==> (x in incoming <==> x !in IdsToDelete(existing, incoming))
  {
    FilterMembership(existing, NotIn(incoming), x);
  }

  /**
   * The soft-delete step of an update marks exactly the army's detachments
   * whose id the request does not keep; every other row is untouched.
   */
  lemma SoftDeletedByUpdate(rows: seq<Detachment>, armyId: int, entries: seq<IncomingDetachment>)
    requires NoDup(DetachmentIds(rows))
    ensures forall i :: 0 <= i < |rows| ==>
      SoftDeleteIds(rows, IdsToDelete(ExistingIds(rows, armyId), IncomingIds(entries)))[i]
      == if rows[i].armyId == armyId && rows[i].id !in IncomingIds(entries) then rows[i].(isDeleted := true) else rows[i]
  {
    forall i | 0 <= i < |rows|
      ensures rows[i].id in IdsToDelete(ExistingIds(rows, armyId), IncomingIds(entries))
          <==> rows[i].armyId == armyId && rows[i].id !in IncomingIds(entries)
    {
      ExistingIdsMembership(rows, armyId, i);
      Partition(ExistingIds(rows, armyId), IncomingIds(entries), rows[i].id);
    }
  }

  /** The detachment table and its id counter during the per-entry pass, and whether a write failed. */
  datatype Outcome = Outcome(rows: seq<Detachment>, nextId: int, failed: bool)

  /**
   * One entry of the pass: a truthy `id` renames the row with that id,
   * whichever army it belongs to, and fails when there is none; any other
   * entry creates a detachment under the army.
   */
  function EntryStep(o: Outcome, e: IncomingDetachment, armyId: int): Outcome {
    if HasTruthyId(e) then
      match FindDetachment(o.rows, e.id.value)
      case None => o.(failed := true)
      case Some(k) => o.(rows := o.rows[k := o.rows[k].(name := e.name)])
    else
      Outcome(o.rows + [Detachment(o.nextId, e.name, false, armyId)], o.nextId + 1, o.failed)
  }

  /** The pass over all entries, one at a time and in order. */
  function ApplyEntries(o: Outcome, entries: seq<IncomingDetachment>, armyId: int): Outcome
    decreases |entries|
  {
    if entries == [] then o
    else EntryStep(ApplyEntries(o, entries[..|entries| - 1], armyId), entries[|entries| - 1], armyId)
  }

  /** One more entry of the pass. */
  lemma ApplyEntriesPrefix(o: Outcome, entries: seq<IncomingDetachment>, i: nat, armyId: int)
    requires i < |entries|
    ensures ApplyEntries(o, entries[..i + 1], armyId) == EntryStep(ApplyEntries(o, entries[..i], armyId), entries[i], armyId)
  {
    assert entries[..i + 1][..i] == entries[..i];
  }

  /** The names of the entries that create, in order. */
  function NewNames(entries: seq<IncomingDetachment>): (r: seq<string>)
    ensures |r| <= |entries|
    decreases |entries|
  {
    if entries == [] then []
    else
      var p, e := NewNames(entries[..|entries| - 1]), entries[|entries| - 1];
      if HasTruthyId(e) then p else p + [e.name]
  }

  /** The name the last entry renaming `id` gives, or `current` when none does. */
  function LastName(entries: seq<IncomingDetachment>, id: int, current: string): string
    decreases |entries|
  {
    if entries == [] then current
    else
      var e := entries[|entries| - 1];
      if HasTruthyId(e) && e.id.value == id then e.name else LastName(entries[..|entries| - 1], id, current)
  }

  /** Whether some entry names an id not in `ids`. */
  predicate AnyUnknown(entries: seq<IncomingDetachment>, ids: seq<int>)
    decreases |entries|
  {
    if entries == [] then false
    else
      var e := entries[|entries| - 1];
      AnyUnknown(entries[..|entries| - 1], ids) || (HasTruthyId(e) && e.id.value !in ids)
  }

  /** Two rows that agree on everything but the name. */
  predicate SameButName(a: Detachment, b: Detachment) {
    a.id == b.id && a.isDeleted == b.isDeleted && a.armyId == b.armyId
  }

  /**
   * The pass never removes a row and never touches a row's id, deletion
   * flag or army; it appends one row per creating entry, with consecutive
   * fresh ids, under the army and not deleted.
   */
  lemma {:induction false} ApplyShape(o: Outcome, entries: seq<IncomingDetachment>, armyId: int)
    ensures |ApplyEntries(o, entries, armyId).rows| == |o.rows| + |NewNames(entries)|
    ensures ApplyEntries(o, entries, armyId).nextId == o.nextId + |NewNames(entries)|
    ensures forall i :: 0 <= i < |o.rows| ==> SameButName(ApplyEntries(o, entries, armyId).rows[i], o.rows[i])
    ensures forall k :: |o.rows| <= k < |ApplyEntries(o, entries, armyId).rows| ==>
      SameButName(ApplyEntries(o, entries, armyId).rows[k], Detachment(o.nextId + (k - |o.rows|), "", false, armyId))
    decreases |entries|
  {
    if entries != [] {
      var p, e := entries[..|entries| - 1], entries[|entries| - 1];
      ApplyShape(o, p, armyId);
      var q := ApplyEntries(o, p, armyId);
      var r := ApplyEntries(o, entries, armyId);
      assert r == EntryStep(q, e, armyId);
      if !HasTruthyId(e) {
        assert NewNames(entries) == NewNames(p) + [e.name];
        assert r.rows == q.rows + [Detachment(q.nextId, e.name, false, armyId)];
      } else {
        assert NewNames(entries) == NewNames(p);
      }
    }
  }

  /** Ids stay unique and below the counter through the pass. */
  lemma ApplyUnique(o: Outcome, entries: seq<IncomingDetachment>, armyId: int)
    requires NoDup(DetachmentIds(o.rows))
    requires forall i :: 0 <= i < |o.rows| ==> o.rows[i].id < o.nextId
    ensures NoDup(DetachmentIds(ApplyEntries(o, entries, armyId).rows))
    ensures forall i :: 0 <= i < |ApplyEntries(o, entries, armyId).rows| ==>
      ApplyEntries(o, entries, armyId).rows[i].id < ApplyEntries(o, entries, armyId).nextId
  {
    var r := ApplyEntries(o, entries, armyId);
    ApplyShape(o, entries, armyId);
    var n := |o.rows|;
    forall i | 0 <= i < |r.rows| ensures r.rows[i].id == if i < n then o.rows[i].id else o.nextId + (i - n) {
    }
    forall i, j | 0 <= i < j < |r.rows| ensures DetachmentIds(r.rows)[i] != DetachmentIds(r.rows)[j] {
      if j < n {
        assert DetachmentIds(o.rows)[i] != DetachmentIds(o.rows)[j];
      }
    }
  }

  /** The ids the table holds after a prefix of the pass, below the counter at its start, are the original ids. */
  lemma OriginalIdsKept(o: Outcome, entries: seq<IncomingDetachment>, armyId: int, x: int)
    requires forall i :: 0 <= i < |o.rows| ==> o.rows[i].id < o.nextId
    requires x < o.nextId
    ensures x in DetachmentIds(ApplyEntries(o, entries, armyId).rows) <==> x in DetachmentIds(o.rows)
    ensures forall k :: 0 <= k < |ApplyEntries(o, entries, armyId).rows| && ApplyEntries(o, entries, armyId).rows[k].id == x ==> k < |o.rows|
  {
    var r := ApplyEntries(o, entries, armyId);
    ApplyShape(o, entries, armyId);
    var n := |o.rows|;
    assert forall k :: n <= k < |r.rows| ==> r.rows[k].id >= o.nextId;
    if x in DetachmentIds(r.rows) {
      var k :| 0 <= k < |r.rows| && DetachmentIds(r.rows)[k] == x;
      assert DetachmentIds(o.rows)[k] == x;
    }
    if x in DetachmentIds(o.rows) {
      var k :| 0 <= k < n && DetachmentIds(o.rows)[k] == x;
      assert DetachmentIds(r.rows)[k] == x;
    }
  }

  /** Every original row ends with the name of the last entry that renames it, or its own. */
  lemma {:induction false} ApplyNames(o: Outcome, entries: seq<IncomingDetachment>, armyId: int)
    requires NoDup(DetachmentIds(o.rows))
    requires forall i :: 0 <= i < |o.rows| ==> o.rows[i].id < o.nextId
    ensures forall i :: 0 <= i < |o.rows| ==>
      i < |ApplyEntries(o, entries, armyId).rows|
      && ApplyEntries(o, entries, armyId).rows[i].name == LastName(entries, o.rows[i].id, o.rows[i].name)
    decreases |entries|
  {
    ApplyShape(o, entries, armyId);
    if entries != [] {
      var p, e := entries[..|entries| - 1], entries[|entries| - 1];
      ApplyNames(o, p, armyId);
      ApplyShape(o, p, armyId);
      ApplyUnique(o, p, armyId);
      var q := ApplyEntries(o, p, armyId);
      var r := ApplyEntries(o, entries, armyId);
      assert r == EntryStep(q, e, armyId);
      if HasTruthyId(e) {
        var x := e.id.value;
        match FindDetachment(q.rows, x)
        case None =>
          forall i | 0 <= i < |o.rows| ensures o.rows[i].id != x {
            assert SameButName(q.rows[i], o.rows[i]);
            assert DetachmentIds(q.rows)[i] == q.rows[i].id;
          }
        case Some(k) =>
          forall i | 0 <= i < |o.rows|
            ensures r.rows[i].name == LastName(entries, o.rows[i].id, o.rows[i].name)
          {
            assert SameButName(q.rows[i], o.rows[i]);
            if o.rows[i].id == x {
              FindDetachmentUnique(q.rows, x, i);
            }
          }
      }
    }
  }

  /** When every id the request keeps is an id the table could already hold, the created rows carry the new names in order. */
  lemma {:induction false} ApplyNewNames(o: Outcome, entries: seq<IncomingDetachment>, armyId: int)
    requires forall i :: 0 <= i < |o.rows| ==> o.rows[i].id < o.nextId
    requires forall x :: x in IncomingIds(entries) ==> x < o.nextId
    ensures |ApplyEntries(o, entries, armyId).rows| == |o.rows| + |NewNames(entries)|
    ensures forall j :: 0 <= j < |NewNames(entries)| ==> ApplyEntries(o, entries, armyId).rows[|o.rows| + j].name == NewNames(entries)[j]
    decreases |entries|
  {
    ApplyShape(o, entries, armyId);
    if entries != [] {
      var p, e := entries[..|entries| - 1], entries[|entries| - 1];
      assert forall x :: x in IncomingIds(p) ==> x in IncomingIds(entries);
      ApplyNewNames(o, p, armyId);
      ApplyShape(o, p, armyId);
      var q := ApplyEntries(o, p, armyId);
      var r := ApplyEntries(o, entries, armyId);
      assert r == EntryStep(q, e, armyId);
      if HasTruthyId(e) {
        assert NewNames(entries) == NewNames(p);
        var x := e.id.value;
        assert x in IncomingIds(entries);
        OriginalIdsKept(o, p, armyId, x);
      } else {
        assert NewNames(entries) == NewNames(p) + [e.name];
      }
    }
  }

  /** When every id the request keeps is below the counter, the pass fails exactly when some kept id names no row. */
  lemma {:induction false} ApplyFailed(o: Outcome, entries: seq<IncomingDetachment>, armyId: int)
    requires forall i :: 0 <= i < |o.rows| ==> o.rows[i].id < o.nextId
    requires forall x :: x in IncomingIds(entries) ==> x < o.nextId
    ensures ApplyEntries(o, entries, armyId).failed == (o.failed || AnyUnknown(entries, DetachmentIds(o.rows)))
    decreases |entries|
  {
    if entries != [] {
      var p, e := entries[..|entries| - 1], entries[|entries| - 1];
      assert forall x :: x in IncomingIds(p) ==> x in IncomingIds(entries);
      ApplyFailed(o, p, armyId);
      var q := ApplyEntries(o, p, armyId);
      assert ApplyEntries(o, entries, armyId) == EntryStep(q, e, armyId);
      if HasTruthyId(e) {
        assert e.id.value in IncomingIds(entries);
        OriginalIdsKept(o, p, armyId, e.id.value);
      }
    }
  }

  /** An entry with `id: 0` is treated exactly like one without an id: it creates. */
  lemma ZeroIdCreates(o: Outcome, name: string, armyId: int)
    ensures EntryStep(o, IncomingDetachment(Some(0), name), armyId) == EntryStep(o, IncomingDetachment(None, name), armyId)
    ensures |EntryStep(o, IncomingDetachment(Some(0), name), armyId).rows| == |o.rows| + 1
  {
  }

  /** An entry renames the row with its id even when that row belongs to another army. */
  lemma RenameIgnoresArmy(o: Outcome, e: IncomingDetachment, armyId: int, k: nat)
    requires NoDup(DetachmentIds(o.rows))
    requires HasTruthyId(e) && k < |o.rows| && o.rows[k].id == e.id.value
    ensures EntryStep(o, e, armyId).rows == o.rows[k := o.rows[k].(name := e.name)]
    ensures !EntryStep(o, e, armyId).failed <==> !o.failed
  {
    FindDetachmentUnique(o.rows, e.id.value, k);
  }

  /**
   * The detachment side of `updateArmyById` on the table: soft-delete the
   * army's ids the request drops, then run the per-entry pass.
   */
  function Reconciliation(rows: seq<Detachment>, nextId: int, armyId: int, entries: seq<IncomingDetachment>): Outcome {
    var marked := SoftDeleteIds(rows, IdsToDelete(ExistingIds(rows, armyId), IncomingIds(entries)));
    ApplyEntries(Outcome(marked, nextId, false), entries, armyId)
  }

  /**
   * What an update does to the detachments: no row disappears; an old row
   * keeps its id and army, becomes deleted exactly when it was already or
   * belongs to the army and the request drops its id, and takes the name
   * of the last entry naming it; new rows carry fresh consecutive ids,
   * the army and no deletion mark.
   */
  lemma ReconciliationSpec(rows: seq<Detachment>, nextId: int, armyId: int, entries: seq<IncomingDetachment>)
    requires NoDup(DetachmentIds(rows))
    requires forall i :: 0 <= i < |rows| ==> rows[i].id < nextId
    ensures var r := Reconciliation(rows, nextId, armyId, entries);
      |r.rows| == |rows| + |NewNames(entries)| && r.nextId == nextId + |NewNames(entries)|
    ensures var r := Reconciliation(rows, nextId, armyId, entries);
      forall i :: 0 <= i < |rows| ==>
        r.rows[i].id == rows[i].id && r.rows[i].armyId == rows[i].armyId
        && r.rows[i].isDeleted == (rows[i].isDeleted || (rows[i].armyId == armyId && rows[i].id !in IncomingIds(entries)))
        && r.rows[i].name == LastName(entries, rows[i].id, rows[i].name)
    ensures var r := Reconciliation(rows, nextId, armyId, entries);
      forall k :: |rows| <= k < |r.rows| ==>
        r.rows[k].id == nextId + (k - |rows|) && r.rows[k].armyId == armyId && !r.rows[k].isDeleted
  {
    var marked := SoftDeleteIds(rows, IdsToDelete(ExistingIds(rows, armyId), IncomingIds(entries)));
    var o := Outcome(marked, nextId, false);
    SoftDeletedByUpdate(rows, armyId, entries);
    assert DetachmentIds(marked) == DetachmentIds(rows);
    ApplyShape(o, entries, armyId);
    ApplyNames(o, entries, armyId);
    var r := ApplyEntries(o, entries, armyId);
    forall i | 0 <= i < |rows|
      ensures r.rows[i].id == rows[i].id && r.rows[i].armyId == rows[i].armyId
      ensures r.rows[i].isDeleted == (rows[i].isDeleted || (rows[i].armyId == armyId && rows[i].id !in IncomingIds(entries)))
    {
      assert SameButName(r.rows[i], marked[i]);
    }
  }

  /**
   * When every id the request keeps is below the counter, the new rows
   * carry the new names in order and the update fails exactly when a kept
   * id names no row.
   */
  lemma ReconciliationCreates(rows: seq<Detachment>, nextId: int, armyId: int, entries: seq<IncomingDetachment>)
    requires forall i :: 0 <= i < |rows| ==> rows[i].id < nextId
    requires forall x :: x in IncomingIds(entries) ==> x < nextId
    ensures var r := Reconciliation(rows, nextId, armyId, entries);
      |r.rows| == |rows| + |NewNames(entries)|
      && (forall j :: 0 <= j < |NewNames(entries)| ==> r.rows[|rows| + j].name == NewNames(entries)[j])
      && (r.failed <==> AnyUnknown(entries, DetachmentIds(rows)))
  {
    var marked := SoftDeleteIds(rows, IdsToDelete(ExistingIds(rows, armyId), IncomingIds(entries)));
    var o := Outcome(marked, nextId, false);
    assert DetachmentIds(marked) == DetachmentIds(rows);
    ApplyNewNames(o, entries, armyId);
    ApplyFailed(o, entries, armyId);
  }

  /** An update of an existing army keeps the tables well formed. */
  lemma ReconciliationKeeps(armies: seq<Army>, rows: seq<Detachment>, nextArmyId: int, nextId: int, armyId: int, entries: seq<IncomingDetachment>)
    requires WellFormed(armies, rows, nextArmyId, nextId)
    requires armyId in ArmyIds(armies)
    ensures var r := Reconciliation(rows, nextId, armyId, entries);
      WellFormed(armies, r.rows, nextArmyId, r.nextId) && |r.rows| >= |rows|
  {
    var marked := SoftDeleteIds(rows, IdsToDelete(ExistingIds(rows, armyId), IncomingIds(entries)));
    var o := Outcome(marked, nextId, false);
    var r := ApplyEntries(o, entries, armyId);
    assert DetachmentIds(marked) == DetachmentIds(rows);
    ApplyShape(o, entries, armyId);
    ApplyUnique(o, entries, armyId);
    forall i | 0 <= i < |r.rows| ensures 1 <= r.rows[i].id && r.rows[i].armyId in ArmyIds(armies) {
      if i < |rows| {
        assert SameButName(r.rows[i], marked[i]);
      }
    }
  }
}
