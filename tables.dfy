/**
 * The two tables of the backend: armies and their detachments, with the
 * lookups, filters and listings the army and detachment handlers run on them.
 * Ids are unique, positive and below the next id the table will hand out,
 * and every detachment belongs to an existing army.
 */
module Tables {
  import opened Wrappers
  import opened Seqs

  datatype Army = Army(id: int, name: string, isDeleted: bool)

  datatype Detachment = Detachment(id: int, name: string, isDeleted: bool, armyId: int)

  function ArmyIds(rows: seq<Army>): (r: seq<int>)
    ensures |r| == |rows|
    ensures forall i :: 0 <= i < |rows| ==> r[i] == rows[i].id
  {
    seq(|rows|, i requires 0 <= i < |rows| => rows[i].id)
  }

  function DetachmentIds(rows: seq<Detachment>): (r: seq<int>)
    ensures |r| == |rows|
    ensures forall i :: 0 <= i < |rows| ==> r[i] == rows[i].id
  {
    seq(|rows|, i requires 0 <= i < |rows| => rows[i].id)
  }

  /** The database's own guarantees: primary keys, the autoincrement counters, the foreign key. */
  predicate WellFormed(armies: seq<Army>, detachments: seq<Detachment>, nextArmyId: int, nextDetachmentId: int) {
    1 <= nextArmyId && 1 <= nextDetachmentId
    && NoDup(ArmyIds(armies))
    && NoDup(DetachmentIds(detachments))
    && (forall i :: 0 <= i < |armies| ==> 1 <= armies[i].id < nextArmyId)
    && (forall i :: 0 <= i < |detachments| ==> 1 <= detachments[i].id < nextDetachmentId)
    && (forall i :: 0 <= i < |detachments| ==> detachments[i].armyId in ArmyIds(armies))
  }

  /** `findUnique({ where: { id } })` on the armies: the position of the row, if any. */
  function FindArmy(rows: seq<Army>, id: int): (r: Option<nat>)
    ensures r.Some? ==> r.value < |rows| && rows[r.value].id == id
    ensures r.None? <==> id !in ArmyIds(rows)
  {
    if id in ArmyIds(rows) then Some(FirstIndex(ArmyIds(rows), id)) else None
  }

  /** `findUnique({ where: { id } })` on the detachments. */
  function FindDetachment(rows: seq<Detachment>, id: int): (r: Option<nat>)
    ensures r.Some? ==> r.value < |rows| && rows[r.value].id == id
    ensures r.None? <==> id !in DetachmentIds(rows)
  {
    if id in DetachmentIds(rows) then Some(FirstIndex(DetachmentIds(rows), id)) else None
  }

  /** With unique ids, the row found is the only one carrying that id. */
  lemma FindDetachmentUnique(rows: seq<Detachment>, id: int, i: nat)
    requires NoDup(DetachmentIds(rows))
    requires i < |rows| && rows[i].id == id
    ensures FindDetachment(rows, id) == Some(i)
  {
    var k := FindDetachment(rows, id).value;
    assert DetachmentIds(rows)[k] == DetachmentIds(rows)[i];
  }

  lemma FindArmyUnique(rows: seq<Army>, id: int, i: nat)
    requires NoDup(ArmyIds(rows))
    requires i < |rows| && rows[i].id == id
    ensures FindArmy(rows, id) == Some(i)
  {
    var k := FindArmy(rows, id).value;
    assert ArmyIds(rows)[k] == ArmyIds(rows)[i];
  }

  predicate IsActiveArmy(a: Army) {
    !a.isDeleted
  }

  predicate IsActiveDetachment(d: Detachment) {
    !d.isDeleted
  }

  /** `where: { army_id }`. */
  function OfArmy(armyId: int): Detachment -> bool {
    (d: Detachment) => d.armyId == armyId
  }

  /** `where: { armyId, isDeleted: false }`. */
  function ActiveOfArmy(armyId: int): Detachment -> bool {
    (d: Detachment) => d.armyId == armyId && !d.isDeleted
  }

  /** `where: { army_id: { not: armyId } }`: what `deleteMany({ where: { army_id } })` keeps. */
  function NotOfArmy(armyId: int): Detachment -> bool {
    (d: Detachment) => d.armyId != armyId
  }

  function ArmyName(a: Army): string {
    a.name
  }

  function DetachmentName(d: Detachment): string {
    d.name
  }

  /** One army of the `getArmies` response with its `detachments`. */
  datatype ArmyListing = ArmyListing(army: Army, detachments: seq<Detachment>)

  /**
   * `getArmies`: the armies with `is_deleted: false` ordered by name
   * ascending, each with its non-deleted detachments ordered by name ascending.
   */
  function ListArmies(armies: seq<Army>, detachments: seq<Detachment>): (r: seq<ArmyListing>)
    ensures |r| == |SortBy(Filter(armies, IsActiveArmy), ArmyName, false)|
  {
    var sorted := SortBy(Filter(armies, IsActiveArmy), ArmyName, false);
    seq(|sorted|, i requires 0 <= i < |sorted| =>
      ArmyListing(sorted[i], SortBy(Filter(detachments, ActiveOfArmy(sorted[i].id)), DetachmentName, false)))
  }

  /** `getDetachments`: the non-deleted detachments, ordered by name descending. */
  function ListDetachments(detachments: seq<Detachment>): seq<Detachment> {
    SortBy(Filter(detachments, IsActiveDetachment), DetachmentName, true)
  }

  /** `getDetachmentByArmy`: the non-deleted detachments of one army, ordered by name descending. */
  function ListDetachmentsOfArmy(detachments: seq<Detachment>, armyId: int): seq<Detachment> {
    SortBy(Filter(detachments, ActiveOfArmy(armyId)), DetachmentName, true)
  }

  /** A sorted filter holds exactly the rows that pass the filter, in order of the key. */
  lemma SortedFilter<T>(s: seq<T>, f: T -> bool, key: T -> string, desc: bool, x: T)
    ensures Ordered(SortBy(Filter(s, f), key, desc), key, desc)
    ensures multiset(SortBy(Filter(s, f), key, desc)) == multiset(Filter(s, f))
    ensures x in SortBy(Filter(s, f), key, desc) <==> x in s && f(x)
  {
    SortByCorrect(Filter(s, f), key, desc);
    FilterMembership(s, f, x);
    assert x in SortBy(Filter(s, f), key, desc) <==> x in multiset(SortBy(Filter(s, f), key, desc));
  }

  /**
   * `getDetachments` holds exactly the non-deleted detachments, each as
   * often as in the table, by name descending.
   */
  lemma ListDetachmentsSpec(detachments: seq<Detachment>, d: Detachment)
    ensures Ordered(ListDetachments(detachments), DetachmentName, true)
    ensures multiset(ListDetachments(detachments)) == multiset(Filter(detachments, IsActiveDetachment))
    ensures d in ListDetachments(detachments) <==> d in detachments && !d.isDeleted
  {
    SortedFilter(detachments, IsActiveDetachment, DetachmentName, true, d);
  }

  /** `getDetachmentByArmy` holds exactly the army's non-deleted detachments, by name descending. */
  lemma ListDetachmentsOfArmySpec(detachments: seq<Detachment>, armyId: int, d: Detachment)
    ensures Ordered(ListDetachmentsOfArmy(detachments, armyId), DetachmentName, true)
    ensures multiset(ListDetachmentsOfArmy(detachments, armyId)) == multiset(Filter(detachments, ActiveOfArmy(armyId)))
    ensures d in ListDetachmentsOfArmy(detachments, armyId) <==> d in detachments && d.armyId == armyId && !d.isDeleted
  {
    SortedFilter(detachments, ActiveOfArmy(armyId), DetachmentName, true, d);
  }

  /**
   * `getArmies` lists exactly the non-deleted armies, by name ascending; the
   * detachments listed under an army are exactly its non-deleted ones, by
   * name ascending.
   */
  lemma ListArmiesSpec(armies: seq<Army>, detachments: seq<Detachment>, a: Army)
    ensures Ordered(SortBy(Filter(armies, IsActiveArmy), ArmyName, false), ArmyName, false)
    ensures multiset(SortBy(Filter(armies, IsActiveArmy), ArmyName, false)) == multiset(Filter(armies, IsActiveArmy))
    ensures forall i :: 0 <= i < |ListArmies(armies, detachments)| ==>
      ListArmies(armies, detachments)[i].army == SortBy(Filter(armies, IsActiveArmy), ArmyName, false)[i]
    ensures (exists i :: 0 <= i < |ListArmies(armies, detachments)| && ListArmies(armies, detachments)[i].army == a)
      <==> a in armies && !a.isDeleted
    ensures forall i :: 0 <= i < |ListArmies(armies, detachments)| ==>
      var entry := ListArmies(armies, detachments)[i];
      Ordered(entry.detachments, DetachmentName, false)
      && (forall d :: d in entry.detachments <==> d in detachments && d.armyId == entry.army.id && !d.isDeleted)
  {
    var sorted := SortBy(Filter(armies, IsActiveArmy), ArmyName, false);
    var r := ListArmies(armies, detachments);
    SortedFilter(armies, IsActiveArmy, ArmyName, false, a);
    if a in armies && !a.isDeleted {
      var i :| 0 <= i < |sorted| && sorted[i] == a;
      assert r[i].army == a;
    }
    forall i | 0 <= i < |r|
      ensures Ordered(r[i].detachments, DetachmentName, false)
      ensures forall d :: d in r[i].detachments <==> d in detachments && d.armyId == r[i].army.id && !d.isDeleted
    {
      forall d ensures d in r[i].detachments <==> d in detachments && d.armyId == r[i].army.id && !d.isDeleted {
        SortedFilter(detachments, ActiveOfArmy(sorted[i].id), DetachmentName, false, d);
      }
      SortByCorrect(Filter(detachments, ActiveOfArmy(sorted[i].id)), DetachmentName, false);
    }
  }

  /** `detachments.map(d => ({ name: d }))` under a new army: fresh ids from `nextId` on, not deleted. */
  function NewDetachments(nextId: int, names: seq<string>, armyId: int): (r: seq<Detachment>)
    ensures |r| == |names|
    ensures forall j :: 0 <= j < |names| ==> r[j] == Detachment(nextId + j, names[j], false, armyId)
  {
    seq(|names|, j requires 0 <= j < |names| => Detachment(nextId + j, names[j], false, armyId))
  }

  /** `updateMany({ where: { army_id }, data: { is_deleted: true } })`. */
  function SoftDeleteOfArmy(rows: seq<Detachment>, armyId: int): (r: seq<Detachment>)
    ensures |r| == |rows|
    ensures forall i :: 0 <= i < |rows| ==>
      r[i] == if rows[i].armyId == armyId then rows[i].(isDeleted := true) else rows[i]
  {
    seq(|rows|, i requires 0 <= i < |rows| => if rows[i].armyId == armyId then rows[i].(isDeleted := true) else rows[i])
  }

  /** `updateMany({ where: { id: { in: ids } }, data: { is_deleted: true } })`. */
  function SoftDeleteIds(rows: seq<Detachment>, ids: seq<int>): (r: seq<Detachment>)
    ensures |r| == |rows|
    ensures forall i :: 0 <= i < |rows| ==>
      r[i] == if rows[i].id in ids then rows[i].(isDeleted := true) else rows[i]
  {
    seq(|rows|, i requires 0 <= i < |rows| => if rows[i].id in ids then rows[i].(isDeleted := true) else rows[i])
  }

  /** `findUnique` on a detachment id: the row, whether deleted or not. */
  function GetDetachment(rows: seq<Detachment>, id: int): (r: Option<Detachment>)
    ensures r.None? <==> id !in DetachmentIds(rows)
    ensures r.Some? ==> r.value in rows && r.value.id == id
  {
    match FindDetachment(rows, id)
    case None => None
    case Some(k) => Some(rows[k])
  }

  /** With unique ids, the row returned is the one row with that id, deleted or not. */
  lemma GetDetachmentSpec(rows: seq<Detachment>, id: int, i: nat)
    requires NoDup(DetachmentIds(rows))
    requires i < |rows| && rows[i].id == id
    ensures GetDetachment(rows, id) == Some(rows[i])
  {
    FindDetachmentUnique(rows, id, i);
  }

  /** `getArmyById`: the army, deleted or not, with every detachment that references it. */
  function GetArmy(armies: seq<Army>, detachments: seq<Detachment>, id: int): (r: Option<ArmyListing>)
    ensures r.None? <==> id !in ArmyIds(armies)
  {
    match FindArmy(armies, id)
    case None => None
    case Some(k) => Some(ArmyListing(armies[k], Filter(detachments, OfArmy(armies[k].id))))
  }

  /**
   * A found army is the one row with that id, and it comes with exactly the
   * detachments whose army is that id, including the deleted ones.
   */
  lemma GetArmySpec(armies: seq<Army>, detachments: seq<Detachment>, id: int, d: Detachment)
    requires NoDup(ArmyIds(armies))
    ensures GetArmy(armies, detachments, id).Some? ==>
      GetArmy(armies, detachments, id).value.army in armies
      && GetArmy(armies, detachments, id).value.army.id == id
      && (d in GetArmy(armies, detachments, id).value.detachments <==> d in detachments && d.armyId == id)
    ensures forall i :: 0 <= i < |armies| && armies[i].id == id ==> GetArmy(armies, detachments, id).value.army == armies[i]
  {
    FilterMembership(detachments, OfArmy(id), d);
    forall i | 0 <= i < |armies| && armies[i].id == id ensures GetArmy(armies, detachments, id).value.army == armies[i] {
      FindArmyUnique(armies, id, i);
    }
  }

  /** Changing anything but the ids and the army references keeps the tables well formed. */
  lemma RelabelKeeps(armies: seq<Army>, detachments: seq<Detachment>, armies': seq<Army>, detachments': seq<Detachment>, nextArmyId: int, nextDetachmentId: int)
    requires WellFormed(armies, detachments, nextArmyId, nextDetachmentId)
    requires |armies'| == |armies| && forall i :: 0 <= i < |armies| ==> armies'[i].id == armies[i].id
    requires |detachments'| == |detachments|
    requires forall i :: 0 <= i < |detachments| ==> detachments'[i].id == detachments[i].id && detachments'[i].armyId == detachments[i].armyId
    ensures WellFormed(armies', detachments', nextArmyId, nextDetachmentId)
  {
    assert ArmyIds(armies') == ArmyIds(armies);
    assert DetachmentIds(detachments') == DetachmentIds(detachments);
  }

  /** Appending detachments with the next ids, under existing armies, keeps the tables well formed. */
  lemma AppendDetachmentsKeeps(armies: seq<Army>, detachments: seq<Detachment>, nextArmyId: int, nextDetachmentId: int, created: seq<Detachment>)
    requires WellFormed(armies, detachments, nextArmyId, nextDetachmentId)
    requires forall j :: 0 <= j < |created| ==> created[j].id == nextDetachmentId + j && created[j].armyId in ArmyIds(armies)
    ensures WellFormed(armies, detachments + created, nextArmyId, nextDetachmentId + |created|)
  {
    var all := detachments + created;
    var n := |detachments|;
    forall i | 0 <= i < |all| ensures 1 <= all[i].id < nextDetachmentId + |created| && all[i].armyId in ArmyIds(armies) {
      if i >= n {
        assert all[i] == created[i - n];
      }
    }
    forall i, j | 0 <= i < j < |all| ensures DetachmentIds(all)[i] != DetachmentIds(all)[j] {
      if j < n {
        assert DetachmentIds(detachments)[i] != DetachmentIds(detachments)[j];
      } else {
        assert all[j] == created[j - n];
        if i >= n {
          assert all[i] == created[i - n];
        }
      }
    }
  }

  /** Appending an army with the next army id keeps the tables well formed. */
  lemma AppendArmyKeeps(armies: seq<Army>, detachments: seq<Detachment>, nextArmyId: int, nextDetachmentId: int, army: Army)
    requires WellFormed(armies, detachments, nextArmyId, nextDetachmentId)
    requires army.id == nextArmyId
    ensures WellFormed(armies + [army], detachments, nextArmyId + 1, nextDetachmentId)
    ensures army.id in ArmyIds(armies + [army])
  {
    var all := armies + [army];
    assert ArmyIds(all) == ArmyIds(armies) + [army.id];
    forall i, j | 0 <= i < j < |all| ensures ArmyIds(all)[i] != ArmyIds(all)[j] {
      if j < |armies| {
        assert ArmyIds(armies)[i] != ArmyIds(armies)[j];
      }
    }
  }

  /** Removing one detachment keeps the tables well formed. */
  lemma RemoveDetachmentKeeps(armies: seq<Army>, detachments: seq<Detachment>, nextArmyId: int, nextDetachmentId: int, k: nat)
    requires WellFormed(armies, detachments, nextArmyId, nextDetachmentId)
    requires k < |detachments|
    ensures WellFormed(armies, RemoveAt(detachments, k), nextArmyId, nextDetachmentId)
    ensures detachments[k].id !in DetachmentIds(RemoveAt(detachments, k))
  {
    var r := RemoveAt(detachments, k);
    forall i, j | 0 <= i < j < |r| ensures DetachmentIds(r)[i] != DetachmentIds(r)[j] {
      var i', j' := if i < k then i else i + 1, if j < k then j else j + 1;
      assert DetachmentIds(detachments)[i'] != DetachmentIds(detachments)[j'];
    }
    forall i | 0 <= i < |r| ensures DetachmentIds(r)[i] != detachments[k].id {
      var i' := if i < k then i else i + 1;
      assert DetachmentIds(detachments)[i'] != DetachmentIds(detachments)[k];
    }
  }

  /** Removing one army of a table with unique ids removes exactly its id. */
  lemma RemoveArmyIds(armies: seq<Army>, k: nat, x: int)
    requires NoDup(ArmyIds(armies))
    requires k < |armies|
    ensures NoDup(ArmyIds(RemoveAt(armies, k)))
    ensures x in ArmyIds(RemoveAt(armies, k)) <==> x in ArmyIds(armies) && x != armies[k].id
  {
    var ra := RemoveAt(armies, k);
    forall i, j | 0 <= i < j < |ra| ensures ArmyIds(ra)[i] != ArmyIds(ra)[j] {
      var i', j' := if i < k then i else i + 1, if j < k then j else j + 1;
      assert ArmyIds(armies)[i'] != ArmyIds(armies)[j'];
    }
    forall i | 0 <= i < |ra| ensures ArmyIds(ra)[i] != armies[k].id && ArmyIds(ra)[i] in ArmyIds(armies) {
      var i' := if i < k then i else i + 1;
      assert ArmyIds(armies)[i'] != ArmyIds(armies)[k];
      assert ArmyIds(armies)[i'] == ArmyIds(ra)[i];
    }
    if x in ArmyIds(armies) && x != armies[k].id {
      var a :| 0 <= a < |armies| && ArmyIds(armies)[a] == x;
      var a' := if a < k then a else a - 1;
      assert ArmyIds(ra)[a'] == x;
    }
  }

  /** Removing an army together with every detachment that references it keeps the tables well formed. */
  lemma RemoveArmyKeeps(armies: seq<Army>, detachments: seq<Detachment>, nextArmyId: int, nextDetachmentId: int, k: nat)
    requires WellFormed(armies, detachments, nextArmyId, nextDetachmentId)
    requires k < |armies|
    ensures WellFormed(RemoveAt(armies, k), Filter(detachments, NotOfArmy(armies[k].id)), nextArmyId, nextDetachmentId)
    ensures armies[k].id !in ArmyIds(RemoveAt(armies, k))
  {
    var ra := RemoveAt(armies, k);
    var rd := Filter(detachments, NotOfArmy(armies[k].id));
    RemoveArmyIds(armies, k, armies[k].id);
    FilterKeepsIds(detachments, NotOfArmy(armies[k].id));
    forall i | 0 <= i < |ra| ensures 1 <= ra[i].id < nextArmyId {
      assert ra[i] == armies[if i < k then i else i + 1];
    }
    forall i | 0 <= i < |rd| ensures 1 <= rd[i].id < nextDetachmentId && rd[i].armyId in ArmyIds(ra) {
      FilterMembership(detachments, NotOfArmy(armies[k].id), rd[i]);
      RemoveArmyIds(armies, k, rd[i].armyId);
    }
  }

  /** A filter of a table with unique ids has unique ids. */
  lemma {:induction false} FilterKeepsIds(rows: seq<Detachment>, f: Detachment -> bool)
    requires NoDup(DetachmentIds(rows))
    ensures NoDup(DetachmentIds(Filter(rows, f)))
    decreases |rows|
  {
    if rows != [] {
      var p := rows[..|rows| - 1];
      var last := rows[|rows| - 1];
      assert DetachmentIds(p) == DetachmentIds(rows)[..|rows| - 1];
      FilterKeepsIds(p, f);
      if f(last) {
        var q := Filter(p, f);
        var r := q + [last];
        forall i, j | 0 <= i < j < |r| ensures DetachmentIds(r)[i] != DetachmentIds(r)[j] {
          if j == |q| {
            FilterMembership(p, f, q[i]);
            var m :| 0 <= m < |p| && p[m] == q[i];
            assert DetachmentIds(rows)[m] != DetachmentIds(rows)[|rows| - 1];
          } else {
            assert DetachmentIds(q)[i] != DetachmentIds(q)[j];
          }
        }
      }
    }
  }
}
