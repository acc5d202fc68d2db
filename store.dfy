/**
 * The army and detachment handlers as operations on one in-memory
 * database: each handler looks rows up, inserts, renames, marks deleted or
 * removes them, answers with a status code, and keeps the tables well
 * formed.
 */
module Store {
  import opened Wrappers
  import opened Seqs
  import opened Tables
  import opened Reconcile

  /** The status codes the handlers answer with: 200, 201, 404 and 500. */
  datatype Status = Ok | Created | NotFound | ServerError

  /**
   * One entry of the `Promise.all` in `updateArmyById`: an entry with a
   * truthy id renames that row (a missing row makes the update throw), any
   * other entry creates a detachment under the army.
   */
  method ApplyEntry(o: Outcome, e: IncomingDetachment, armyId: int) returns (r: Outcome)
    ensures r == EntryStep(o, e, armyId)
  {
    if e.id.Some? && e.id.value != 0 {
      var found := FindDetachment(o.rows, e.id.value);
      if found.None? {
        r := o.(failed := true);
      } else {
        var k := found.value;
        r := o.(rows := o.rows[k := o.rows[k].(name := e.name)]);
      }
    } else {
      r := Outcome(o.rows + [Detachment(o.nextId, e.name, false, armyId)], o.nextId + 1, o.failed);
    }
  }

  /** The `detachments.map(...)` of `updateArmyById`, one entry after the other in request order. */
  method ApplyAll(start: Outcome, entries: seq<IncomingDetachment>, armyId: int) returns (r: Outcome)
    ensures r == ApplyEntries(start, entries, armyId)
  {
    r := start;
    var i := 0;
    while i < |entries|
      invariant 0 <= i <= |entries|
      invariant r == ApplyEntries(start, entries[..i], armyId)
    {
      ApplyEntriesPrefix(start, entries, i, armyId);
      r := ApplyEntry(r, entries[i], armyId);
      i := i + 1;
    }
    assert entries[..|entries|] == entries;
  }

  /** The `armies` and `detachments` tables with their autoincrement counters. */
  class Database {
    var armies: seq<Army>
    var detachments: seq<Detachment>
    var nextArmyId: int
    var nextDetachmentId: int

    /** Unique positive ids below the counters, and every detachment's army exists. */
    ghost predicate Valid()
      reads this
    {
      WellFormed(armies, detachments, nextArmyId, nextDetachmentId)
    }

    /** An empty database whose counters start at 1. */
    constructor ()
      ensures Valid()
      ensures armies == [] && detachments == [] && nextArmyId == 1 && nextDetachmentId == 1
    {
      armies, detachments := [], [];
      nextArmyId, nextDetachmentId := 1, 1;
    }

    /** `createArmy`: a fresh army and one fresh detachment under it per name, answered with 201 and both. */
    method CreateArmy(name: string, names: seq<string>) returns (status: Status, created: ArmyListing)
      requires Valid()
      modifies this
      ensures Valid()
      ensures created.army == Army(old(nextArmyId), name, false)
      ensures created.detachments == NewDetachments(old(nextDetachmentId), names, old(nextArmyId))
      ensures armies == old(armies) + [created.army]
      ensures detachments == old(detachments) + created.detachments
      ensures nextArmyId == old(nextArmyId) + 1 && nextDetachmentId == old(nextDetachmentId) + |names|
      ensures status == Created
    {
      var army := Army(nextArmyId, name, false);
      var rows := NewDetachments(nextDetachmentId, names, army.id);
      AppendArmyKeeps(armies, detachments, nextArmyId, nextDetachmentId, army);
      AppendDetachmentsKeeps(armies + [army], detachments, nextArmyId + 1, nextDetachmentId, rows);
      armies := armies + [army];
      detachments := detachments + rows;
      nextArmyId := nextArmyId + 1;
      nextDetachmentId := nextDetachmentId + |rows|;
      status, created := Created, ArmyListing(army, rows);
    }

    /**
     * `deleteArmyById`: remove every detachment of the army, then the army;
     * a missing army answers 404, and then nothing changes, because no
     * detachment references a missing army.
     */
    method DeleteArmy(id: int) returns (status: Status)
      requires Valid()
      modifies this
      ensures Valid()
      ensures detachments == Filter(old(detachments), NotOfArmy(id))
      ensures match old(FindArmy(armies, id))
        case None => status == NotFound && armies == old(armies) && detachments == old(detachments)
        case Some(k) => status == Ok && armies == RemoveAt(old(armies), k)
      ensures id !in ArmyIds(armies)
      ensures forall i :: 0 <= i < |detachments| ==> detachments[i].armyId != id
      ensures nextArmyId == old(nextArmyId) && nextDetachmentId == old(nextDetachmentId)
    {
      var found := FindArmy(armies, id);
      if found.None? {
        FilterAll(detachments, NotOfArmy(id));
        detachments := Filter(detachments, NotOfArmy(id));
        status := NotFound;
      } else {
        var k := found.value;
        RemoveArmyKeeps(armies, detachments, nextArmyId, nextDetachmentId, k);
        detachments := Filter(detachments, NotOfArmy(id));
        armies := RemoveAt(armies, k);
        status := Ok;
      }
    }

    /**
     * `softDeleteArmyById`: mark the army and every detachment that
     * references it as deleted; a missing army answers 404 and changes nothing.
     */
    method SoftDeleteArmy(id: int) returns (status: Status)
      requires Valid()
      modifies this
      ensures Valid()
      ensures match old(FindArmy(armies, id))
        case None => status == NotFound && armies == old(armies) && detachments == old(detachments)
        case Some(k) =>
          status == Ok
          && armies == old(armies)[k := old(armies)[k].(isDeleted := true)]
          && detachments == SoftDeleteOfArmy(old(detachments), id)
      ensures status == Ok ==>
        (forall i :: 0 <= i < |armies| && armies[i].id == id ==> armies[i].isDeleted)
        && (forall i :: 0 <= i < |detachments| && detachments[i].armyId == id ==> detachments[i].isDeleted)
      ensures nextArmyId == old(nextArmyId) && nextDetachmentId == old(nextDetachmentId)
    {
      var found := FindArmy(armies, id);
      if found.None? {
        status := NotFound;
        return;
      }
      var k := found.value;
      var marked := armies[k := armies[k].(isDeleted := true)];
      RelabelKeeps(armies, detachments, marked, SoftDeleteOfArmy(detachments, id), nextArmyId, nextDetachmentId);
      FindArmyUnique(armies, id, k);
      detachments := SoftDeleteOfArmy(detachments, id);
      armies := marked;
      status := Ok;
    }

    /**
     * `updateArmyById`: rename the army, soft-delete the army's detachments
     * the request drops, then rename or create one entry at a time. A
     * missing army answers 404 and changes nothing; an entry naming a
     * missing detachment makes the answer 500, with every other write done.
     */
    method UpdateArmy(id: int, name: string, incoming: seq<IncomingDetachment>) returns (status: Status)
      requires Valid()
      modifies this
      ensures Valid()
      ensures match old(FindArmy(armies, id))
        case None =>
          status == NotFound && armies == old(armies) && detachments == old(detachments)
          && nextDetachmentId == old(nextDetachmentId)
        case Some(k) =>
          armies == old(armies)[k := old(armies)[k].(name := name)]
          && detachments == Reconciliation(old(detachments), old(nextDetachmentId), id, incoming).rows
          && nextDetachmentId == Reconciliation(old(detachments), old(nextDetachmentId), id, incoming).nextId
          && status == if Reconciliation(old(detachments), old(nextDetachmentId), id, incoming).failed then ServerError else Ok
      ensures |detachments| >= old(|detachments|)
      ensures nextArmyId == old(nextArmyId)
    {
      var found := FindArmy(armies, id);
      if found.None? {
        status := NotFound;
        return;
      }
      var k := found.value;
      var renamed := armies[k := armies[k].(name := name)];
      RelabelKeeps(armies, detachments, renamed, detachments, nextArmyId, nextDetachmentId);
      armies := renamed;
      ReconciliationKeeps(armies, detachments, nextArmyId, nextDetachmentId, id, incoming);
      var marked := SoftDeleteIds(detachments, IdsToDelete(ExistingIds(detachments, id), IncomingIds(incoming)));
      var o := ApplyAll(Outcome(marked, nextDetachmentId, false), incoming, id);
      detachments, nextDetachmentId := o.rows, o.nextId;
      status := if o.failed then ServerError else Ok;
    }

    /**
     * `createDetachment`: a fresh detachment under the army, answered with
     * 201 and the row; connecting to a missing army throws, answering 500
     * with nothing changed.
     */
    method CreateDetachment(name: string, armyId: int) returns (status: Status, created: Option<Detachment>)
      requires Valid()
      modifies this
      ensures Valid()
      ensures armyId !in old(ArmyIds(armies)) ==>
        status == ServerError && created == None
        && detachments == old(detachments) && nextDetachmentId == old(nextDetachmentId)
      ensures armyId in old(ArmyIds(armies)) ==>
        status == Created && created == Some(Detachment(old(nextDetachmentId), name, false, armyId))
        && detachments == old(detachments) + [created.value] && nextDetachmentId == old(nextDetachmentId) + 1
      ensures armies == old(armies) && nextArmyId == old(nextArmyId)
    {
      if armyId !in ArmyIds(armies) {
        status, created := ServerError, None;
        return;
      }
      var row := Detachment(nextDetachmentId, name, false, armyId);
      AppendDetachmentsKeeps(armies, detachments, nextArmyId, nextDetachmentId, [row]);
      detachments := detachments + [row];
      nextDetachmentId := nextDetachmentId + 1;
      status, created := Created, Some(row);
    }

    /** `updateDetachmentById`: change only the name; a missing id answers 404 and changes nothing. */
    method UpdateDetachment(id: int, name: string) returns (status: Status, updated: Option<Detachment>)
      requires Valid()
      modifies this
      ensures Valid()
      ensures match old(FindDetachment(detachments, id))
        case None => status == NotFound && updated == None && detachments == old(detachments)
        case Some(k) =>
          status == Ok
          && detachments == old(detachments)[k := old(detachments)[k].(name := name)]
          && updated == Some(detachments[k])
      ensures armies == old(armies) && nextArmyId == old(nextArmyId) && nextDetachmentId == old(nextDetachmentId)
    {
      var found := FindDetachment(detachments, id);
      if found.None? {
        status, updated := NotFound, None;
        return;
      }
      var k := found.value;
      var row := detachments[k].(name := name);
      RelabelKeeps(armies, detachments, armies, detachments[k := row], nextArmyId, nextDetachmentId);
      detachments := detachments[k := row];
      status, updated := Ok, Some(row);
    }

    /**
     * `softDeleteDetachmentById`: mark the row deleted, after which it is
     * still found by id; a missing id answers 404 and changes nothing.
     */
    method SoftDeleteDetachment(id: int) returns (status: Status, updated: Option<Detachment>)
      requires Valid()
      modifies this
      ensures Valid()
      ensures match old(FindDetachment(detachments, id))
        case None => status == NotFound && updated == None && detachments == old(detachments)
        case Some(k) =>
          status == Ok
          && detachments == old(detachments)[k := old(detachments)[k].(isDeleted := true)]
          && updated == Some(detachments[k])
          && GetDetachment(detachments, id) == updated
      ensures armies == old(armies) && nextArmyId == old(nextArmyId) && nextDetachmentId == old(nextDetachmentId)
    {
      var found := FindDetachment(detachments, id);
      if found.None? {
        status, updated := NotFound, None;
        return;
      }
      var k := found.value;
      var row := detachments[k].(isDeleted := true);
      RelabelKeeps(armies, detachments, armies, detachments[k := row], nextArmyId, nextDetachmentId);
      detachments := detachments[k := row];
      GetDetachmentSpec(detachments, id, k);
      status, updated := Ok, Some(row);
    }

    /**
     * `deleteDetachmentById`: remove the row, after which it is no longer
     * found by id; a missing id answers 404 and changes nothing.
     */
    method DeleteDetachment(id: int) returns (status: Status)
      requires Valid()
      modifies this
      ensures Valid()
      ensures match old(FindDetachment(detachments, id))
        case None => status == NotFound && detachments == old(detachments)
        case Some(k) => status == Ok && detachments == RemoveAt(old(detachments), k)
      ensures GetDetachment(detachments, id) == None
      ensures armies == old(armies) && nextArmyId == old(nextArmyId) && nextDetachmentId == old(nextDetachmentId)
    {
      var found := FindDetachment(detachments, id);
      if found.None? {
        status := NotFound;
        return;
      }
      var k := found.value;
      RemoveDetachmentKeeps(armies, detachments, nextArmyId, nextDetachmentId, k);
      detachments := RemoveAt(detachments, k);
      status := Ok;
    }
  }
}
