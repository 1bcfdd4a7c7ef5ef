/**
 * Soft deletion: a single update of the stored record that sets its `deleted`
 * flag. Nothing is ever erased, and every read leaves such records out.
 */
module Lifecycle {
  import opened Wrappers
  import opened Seqs
  import opened TicketData
  import opened Queries
  import opened Reports

  function HasId(id: ObjectId): TicketRecord -> bool {
    (t: TicketRecord) => t.id == id
  }

  /** The store after `findOneAndUpdate({_id: id}, {deleted: true})`: the first record with that id is flagged. */
  function SoftDeleted(store: Store, id: ObjectId): (r: Store)
    ensures |r| == |store|
    ensures forall i :: 0 <= i < |store| ==> r[i].id == store[i].id
    ensures forall i :: 0 <= i < |store| ==>
              r[i] == store[i] || (store[i].id == id && r[i] == store[i].(deleted := true))
    // the first record with that id is flagged; with no such record nothing changes
    ensures FirstIndex(store, HasId(id)).Some? ==>
              var k := FirstIndex(store, HasId(id)).value;
              r[k] == store[k].(deleted := true)
    ensures FirstIndex(store, HasId(id)).None? ==> r == store
    ensures (exists i :: 0 <= i < |store| && store[i].id == id) ==> exists i :: 0 <= i < |r| && r[i].id == id && r[i].deleted
  {
    match FirstIndex(store, HasId(id))
    case None => store
    case Some(i) => store[i := store[i].(deleted := true)]
  }

  /** With unique ids, exactly the record with that id is flagged and every other record is untouched. */
  lemma SoftDeleteFlagsOnlyThatId(store: Store, id: ObjectId)
    requires UniqueIds(store)
    ensures forall i :: 0 <= i < |store| ==>
              SoftDeleted(store, id)[i] == if store[i].id == id then store[i].(deleted := true) else store[i]
  {
    var r := SoftDeleted(store, id);
    forall i | 0 <= i < |store| && store[i].id == id
      ensures r[i] == store[i].(deleted := true)
    {
      assert HasId(id)(store[i]);
      var k := FirstIndex(store, HasId(id));
      assert k.Some? && k.value == i;
    }
  }

  /** Deleting twice is deleting once. */
  lemma SoftDeleteIdempotent(store: Store, id: ObjectId)
    ensures SoftDeleted(SoftDeleted(store, id), id) == SoftDeleted(store, id)
  {
    var once := SoftDeleted(store, id);
    FirstIndexSameIds(store, once, id);
  }

  /** Records with the same ids in the same places have the same first record with a given id. */
  lemma {:induction false} FirstIndexSameIds(a: Store, b: Store, id: ObjectId)
    requires |a| == |b| && forall i :: 0 <= i < |a| ==> a[i].id == b[i].id
    ensures FirstIndex(a, HasId(id)) == FirstIndex(b, HasId(id))
  {
    if a != [] {
      FirstIndexSameIds(a[1..], b[1..], id);
    }
  }

  /** Deleting keeps every id in its place, so ids stay unique. */
  lemma SoftDeleteKeepsUniqueIds(store: Store, id: ObjectId)
    requires UniqueIds(store)
    ensures UniqueIds(SoftDeleted(store, id))
  {
  }

  /** After deleting an id, every record with that id is flagged. */
  lemma SoftDeleteFlagsEveryMatch(store: Store, id: ObjectId)
    requires UniqueIds(store)
    ensures forall t :: t in SoftDeleted(store, id) && t.id == id ==> t.deleted
  {
    var r := SoftDeleted(store, id);
    SoftDeleteFlagsOnlyThatId(store, id);
    forall t | t in r && t.id == id ensures t.deleted {
      var i :| 0 <= i < |r| && r[i] == t;
      assert r[i] == store[i].(deleted := true);
    }
  }

  /** After deleting an id, neither a lookup by that id nor a listing returns a ticket with it. */
  lemma SoftDeleteHidesTicket(store: Store, id: ObjectId)
    requires UniqueIds(store)
    ensures GetTicketById(SoftDeleted(store, id), Some(id)) == Ok(None)
    ensures forall t :: t in GetAll(SoftDeleted(store, id)) ==> t.id != id
  {
    var r := SoftDeleted(store, id);
    SoftDeleteFlagsEveryMatch(store, id);
    assert FindFirst(r, LiveWithId(id)).None?;
    forall t | t in GetAll(r) ensures t.id != id {
      assert t in multiset(r);
    }
  }

  /** Deleting an id lowers the total count by one exactly when a live ticket had that id. */
  lemma SoftDeleteTotalCount(store: Store, id: ObjectId)
    requires UniqueIds(store)
    ensures GetTotalCount(SoftDeleted(store, id))
         == GetTotalCount(store) - (if exists i :: 0 <= i < |store| && store[i].id == id && !store[i].deleted then 1 else 0)
  {
    match FirstIndex(store, HasId(id))
    case None =>
      assert SoftDeleted(store, id) == store;
    case Some(k) =>
      assert SoftDeleted(store, id) == store[k := store[k].(deleted := true)];
      FilterCountUpdate(store, k, store[k].(deleted := true), IsLive);
      if exists i :: 0 <= i < |store| && store[i].id == id && !store[i].deleted {
        var i :| 0 <= i < |store| && store[i].id == id && !store[i].deleted;
        assert i == k;
      }
  }

  /** The ticket collection as the store holds it. */
  class TicketStore {
    var records: Store

    ghost predicate Valid()
      reads this
    {
      UniqueIds(records)
    }

    constructor (records: Store)
      requires UniqueIds(records)
      ensures Valid() && this.records == records
    {
      this.records := records;
    }

    /**
     * softDelete: flags the record with that id as deleted and hands back the record as
     * it was before the update, or nothing when no record has that id. An undefined id
     * is an error.
     */
    method SoftDelete(id: Option<ObjectId>) returns (r: Result<Option<TicketRecord>, Error>)
      requires Valid()
      modifies this
      ensures Valid()
      ensures id.None? ==> r == Err(InvalidObjectId) && records == old(records)
      ensures id.Some? ==> records == SoftDeleted(old(records), id.value)
                           && r == Ok(FindFirst(old(records), HasId(id.value)))
    {
      if id.None? {
        return Err(InvalidObjectId);
      }
      r := Ok(FindFirst(records, HasId(id.value)));
      SoftDeleteKeepsUniqueIds(records, id.value);
      records := SoftDeleted(records, id.value);
    }
  }
}
