/**
 * The finder and count statics of the ticket model as functions over the
 * store's records. Every one leaves soft-deleted tickets out.
 */
module Queries {
  import opened Wrappers
  import opened Seqs
  import opened TicketData
  import opened Sorting

  /** The ticket collection, in the store's natural order. */
  type Store = seq<TicketRecord>

  /** The group-id argument of the group-scoped listings. */
  datatype GroupArg = NoGroups | OneGroup(id: GroupId) | GroupList(ids: seq<GroupId>)

  /** The store gives every record its own id. */
  predicate UniqueIds(store: Store) {
    forall i, j :: 0 <= i < j < |store| ==> store[i].id != store[j].id
  }

  predicate IsLive(t: TicketRecord) {
    !t.deleted
  }

  function LiveInGroups(ids: seq<GroupId>): TicketRecord -> bool {
    (t: TicketRecord) => !t.deleted && t.group in ids
  }

  function LiveInGroupsWithStatus(ids: seq<GroupId>, status: int): TicketRecord -> bool {
    (t: TicketRecord) => !t.deleted && t.group in ids && t.status == status
  }

  function LiveWithUid(uid: int): TicketRecord -> bool {
    (t: TicketRecord) => !t.deleted && t.uid == Some(uid)
  }

  function LiveWithId(id: ObjectId): TicketRecord -> bool {
    (t: TicketRecord) => !t.deleted && t.id == id
  }

  function OpenAssignedTo(userId: AccountId): TicketRecord -> bool {
    (t: TicketRecord) => !t.deleted && t.assignee == Some(userId) && t.status != CLOSED
  }

  // ---------------------------------------------------------------- listings

  /** getAll: every live ticket, sorted by status. */
  function GetAll(store: Store): (r: seq<TicketRecord>)
    ensures forall t :: t in r ==> !t.deleted
    ensures forall i :: 0 <= i < |store| && !store[i].deleted ==> store[i] in r
    ensures multiset(r) <= multiset(store)
    ensures SortedByStatus(r)
  {
    var live := Filter(store, IsLive);
    var r := SortByStatus(live);
    assert forall t :: t in r ==> t in live by {
      forall t | t in r ensures t in live {
        assert t in multiset(r);
      }
    }
    assert forall t :: t in live ==> t in r by {
      forall t | t in live ensures t in r {
        assert t in multiset(live);
      }
    }
    r
  }

  /** The first page of the live tickets that pass `p`, sorted by status. */
  function Page(store: Store, p: TicketRecord -> bool): (r: seq<TicketRecord>)
    ensures |r| <= PAGE_LIMIT && SortedByStatus(r)
    ensures forall t :: t in r ==> t in store && p(t)
    ensures multiset(r) <= multiset(Filter(store, p))
    ensures |Filter(store, p)| <= PAGE_LIMIT ==> multiset(r) == multiset(Filter(store, p))
    ensures |Filter(store, p)| > PAGE_LIMIT ==> |r| == PAGE_LIMIT
    ensures forall x, y :: x in r && y in multiset(Filter(store, p)) - multiset(r) ==> x.status <= y.status
  {
    var matches := Filter(store, p);
    var r := FirstPage(matches);
    assert forall t :: t in r ==> t in matches by {
      forall t | t in r ensures t in matches {
        assert t in multiset(r);
      }
    }
    r
  }

  /**
   * getTickets: the first 100 live tickets of the listed groups, sorted by status.
   * An undefined or non-array argument is an error; an empty list is not.
   */
  function GetTickets(store: Store, groups: GroupArg): (r: Result<seq<TicketRecord>, Error>)
    ensures groups.NoGroups? <==> r == Err(InvalidGroupId)
    ensures groups.OneGroup? <==> r == Err(GroupIdNotArray)
    ensures groups.GroupList? ==> r.Ok? && |r.value| <= PAGE_LIMIT && SortedByStatus(r.value)
    ensures groups.GroupList? ==> forall t :: t in r.value ==> t in store && !t.deleted && t.group in groups.ids
    ensures groups.GroupList? ==> multiset(r.value) <= multiset(store)
    ensures groups == GroupList([]) ==> r == Ok([])
  {
    match groups
    case NoGroups => Err(InvalidGroupId)
    case OneGroup(_) => Err(GroupIdNotArray)
    case GroupList(ids) =>
      Ok(Page(store, LiveInGroups(ids)))
  }

  /** Every live ticket of the listed groups is on the page, or the page is full. */
  lemma GetTicketsCompleteUpToLimit(store: Store, ids: seq<GroupId>, t: TicketRecord)
    requires t in store && !t.deleted && t.group in ids
    ensures t in GetTickets(store, GroupList(ids)).value || |GetTickets(store, GroupList(ids)).value| == PAGE_LIMIT
  {
    var p := LiveInGroups(ids);
    var matches := Filter(store, p);
    var i :| 0 <= i < |store| && store[i] == t;
    assert t in matches;
    if |matches| <= PAGE_LIMIT {
      assert t in multiset(matches);
    }
  }

  /**
   * getTicketsByStatus: the first 100 live tickets of the groups with that status,
   * in store order (sorting tickets of one status moves none). Only an undefined
   * argument is refused; a single id stands for a one-element list.
   */
  function GetTicketsByStatus(store: Store, groups: GroupArg, status: int): (r: Result<seq<TicketRecord>, Error>)
    ensures groups.NoGroups? <==> r == Err(InvalidGroupId)
    ensures groups.GroupList? ==> r == Ok(Take(Filter(store, LiveInGroupsWithStatus(groups.ids, status))))
    ensures groups.OneGroup? ==> r == Ok(Take(Filter(store, LiveInGroupsWithStatus([groups.id], status))))
  {
    if groups.NoGroups? then Err(InvalidGroupId)
    else
      var ids := if groups.OneGroup? then [groups.id] else groups.ids;
      var matches := Filter(store, LiveInGroupsWithStatus(ids, status));
      FirstPageOfOneStatus(matches, status);
      Ok(FirstPage(matches))
  }

  /** The first `PAGE_LIMIT` records of `s`. */
  function Take(s: seq<TicketRecord>): seq<TicketRecord> {
    if |s| <= PAGE_LIMIT then s else s[..PAGE_LIMIT]
  }

  /** Paging records of one status is just taking the first of them. */
  lemma FirstPageOfOneStatus(s: seq<TicketRecord>, k: int)
    requires forall i :: 0 <= i < |s| ==> s[i].status == k
    ensures FirstPage(s) == Take(s)
  {
    SortOfOneStatus(s, k);
  }

  // ---------------------------------------------------------------- single records

  /** getTicketByUid: the first live ticket with that `uid`, or none. */
  function GetTicketByUid(store: Store, uid: Option<int>): (r: Result<Option<TicketRecord>, Error>)
    ensures uid.None? <==> r == Err(InvalidUid)
    ensures r.Ok? && r.value.Some? ==> r.value.value in store && !r.value.value.deleted && r.value.value.uid == uid
    ensures r.Ok? && r.value.None? ==> forall i :: 0 <= i < |store| ==> store[i].deleted || store[i].uid != uid
  {
    if uid.None? then Err(InvalidUid) else Ok(FindFirst(store, LiveWithUid(uid.value)))
  }

  /** getTicketById: the live ticket with that id, or none. */
  function GetTicketById(store: Store, id: Option<ObjectId>): (r: Result<Option<TicketRecord>, Error>)
    ensures id.None? <==> r == Err(InvalidId)
    ensures r.Ok? && r.value.Some? ==> r.value.value in store && !r.value.value.deleted && r.value.value.id == id.value
    ensures r.Ok? && r.value.None? ==> forall i :: 0 <= i < |store| ==> store[i].deleted || store[i].id != id.value
  {
    if id.None? then Err(InvalidId) else Ok(FindFirst(store, LiveWithId(id.value)))
  }

  /**
   * getComments: the live ticket with that id, looked up for its comments; it differs
   * from getTicketById only in which references the store expands.
   */
  function GetComments(store: Store, ticketId: Option<ObjectId>): (r: Result<Option<TicketRecord>, Error>)
    ensures ticketId.None? <==> r == Err(InvalidTicketId)
    ensures r.Ok? && r.value.Some? ==> r.value.value in store && !r.value.value.deleted && r.value.value.id == ticketId.value
    ensures r.Ok? && r.value.None? ==> forall i :: 0 <= i < |store| ==> store[i].deleted || store[i].id != ticketId.value
  {
    if ticketId.None? then Err(InvalidTicketId) else Ok(FindFirst(store, LiveWithId(ticketId.value)))
  }

  /** With unique ids, looking a stored ticket up by its id finds it exactly when it is not deleted. */
  lemma {:induction false} GetTicketByIdFindsStored(store: Store, i: nat)
    requires UniqueIds(store) && i < |store|
    ensures GetTicketById(store, Some(store[i].id)) == Ok(if store[i].deleted then None else Some(store[i]))
  {
    var p := LiveWithId(store[i].id);
    var k := FirstIndex(store, p);
    if !store[i].deleted {
      assert p(store[i]);
      assert k.Some? && k.value == i;
    }
  }

  /** getAssigned: the open (not closed), live tickets assigned to the user, in store order. */
  function GetAssigned(store: Store, userId: Option<AccountId>): (r: Result<seq<TicketRecord>, Error>)
    ensures userId.None? <==> r == Err(InvalidId)
    ensures r.Ok? ==> forall t :: t in r.value ==>
              t in store && !t.deleted && t.assignee == userId && t.status != CLOSED
    ensures r.Ok? ==> multiset(r.value) <= multiset(store)
    ensures r.Ok? ==> forall i :: 0 <= i < |store| ==>
              (!store[i].deleted && store[i].assignee == userId && store[i].status != CLOSED ==> store[i] in r.value)
  {
    if userId.None? then Err(InvalidId) else Ok(Filter(store, OpenAssignedTo(userId.value)))
  }
}
