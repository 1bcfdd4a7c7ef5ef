/**
 * The shape of a stored ticket document and of the values embedded in it.
 * References to accounts, groups, ticket types and comments are opaque ids.
 */
module TicketData {
  import opened Wrappers
  import opened Calendar

  /** An opaque document id (a Mongo ObjectId). */
  type ObjectId = nat
  type AccountId = ObjectId
  type GroupId = ObjectId
  type TypeId = ObjectId
  type CommentId = ObjectId

  /** The status code that means "closed". */
  const CLOSED: int := 3

  /** An embedded comment; only its id matters to the ticket. */
  datatype Comment = Comment(id: CommentId, owner: AccountId, text: string)

  /** A ticket type as handed to `setTicketType`: its id and its display name. */
  datatype TicketType = TicketType(id: TypeId, name: string)

  /**
   * What a history entry's text says, kept as the value it was built from
   * instead of the concatenated string.
   */
  datatype Description =
    | StatusSetTo(status: int)
    | AssigneeSet(userId: AccountId)
    | AssigneeCleared
    | TypeSetTo(typeName: string)
    | PrioritySetTo(priority: int)
    | GroupSetTo(groupId: GroupId)
    | CommentDeleted(commentId: CommentId)

  /** One audit-trail entry: an action tag and its description. */
  datatype HistoryEntry = HistoryEntry(action: string, description: Description)

  /** A ticket document as the store holds it. `None` is an unset (undefined or null) field. */
  datatype TicketRecord = TicketRecord(
    id: ObjectId,
    uid: Option<int>,
    owner: AccountId,
    group: GroupId,
    assignee: Option<AccountId>,
    date: Time,
    updated: Option<Time>,
    deleted: bool,
    ticketType: TypeId,
    status: int,
    priority: int,
    tags: seq<string>,
    subject: string,
    issue: string,
    closedDate: Option<Time>,
    comments: seq<Comment>,
    history: seq<HistoryEntry>)

  /** The errors the operations hand to their callbacks. */
  datatype Error =
    | InvalidStatus
    | InvalidUserId
    | InvalidGroupId
    | GroupIdNotArray
    | InvalidUid
    | InvalidId
    | InvalidTicketId
    | InvalidDate
    | InvalidMonth
    | InvalidYear
    | InvalidObjectId
      /** The store refuses a filter holding NaN or an invalid Date. */
    | CastFailure

  /** The fields of a ticket other than its id, for saying which ones an operation may change. */
  datatype Field =
    | Uid | Owner | Group | Assignee | Date | Updated | Deleted | Type | Status
    | Priority | Tags | Subject | Issue | ClosedDate | Comments | History

  /** `a` and `b` are the same document except, possibly, in the fields listed in `changed`. */
  predicate SameExcept(a: TicketRecord, b: TicketRecord, changed: set<Field>) {
    a.id == b.id
    && (Uid !in changed ==> a.uid == b.uid)
    && (Owner !in changed ==> a.owner == b.owner)
    && (Group !in changed ==> a.group == b.group)
    && (Assignee !in changed ==> a.assignee == b.assignee)
    && (Date !in changed ==> a.date == b.date)
    && (Updated !in changed ==> a.updated == b.updated)
    && (Deleted !in changed ==> a.deleted == b.deleted)
    && (Type !in changed ==> a.ticketType == b.ticketType)
    && (Status !in changed ==> a.status == b.status)
    && (Priority !in changed ==> a.priority == b.priority)
    && (Tags !in changed ==> a.tags == b.tags)
    && (Subject !in changed ==> a.subject == b.subject)
    && (Issue !in changed ==> a.issue == b.issue)
    && (ClosedDate !in changed ==> a.closedDate == b.closedDate)
    && (Comments !in changed ==> a.comments == b.comments)
    && (History !in changed ==> a.history == b.history)
  }

  /** `closedDate` is set exactly when the ticket is closed. */
  predicate ClosedDateConsistent(t: TicketRecord) {
    t.closedDate.Some? <==> t.status == CLOSED
  }
}
