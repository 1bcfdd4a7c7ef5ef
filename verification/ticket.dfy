/**
 * A ticket document loaded in memory. Its mutators assign its fields and push
 * onto its history in place; each is proved against `Mutators.Apply`.
 */
module TicketAggregate {
  import opened Wrappers
  import opened Calendar
  import opened Seqs
  import opened TicketData
  import opened Mutators

  /** What a mutator hands its callback: no error, or the error and the document untouched. */
  predicate Committed(before: TicketRecord, m: Mutation, outcome: Result<(), Error>, after: TicketRecord) {
    match Apply(before, m)
    case Ok(r) => outcome == Ok(()) && after == r
    case Err(e) => outcome == Err(e) && after == before
  }

  class Ticket {
    var id: ObjectId
    var uid: Option<int>
    var owner: AccountId
    var group: GroupId
    var assignee: Option<AccountId>
    var date: Time
    var updated: Option<Time>
    var deleted: bool
    var ticketType: TypeId
    var status: int
    var priority: int
    var tags: seq<string>
    var subject: string
    var issue: string
    var closedDate: Option<Time>
    var comments: seq<Comment>
    var history: seq<HistoryEntry>

    /** The document as it would be saved. */
    function Record(): TicketRecord
      reads this
    {
      TicketRecord(id, uid, owner, group, assignee, date, updated, deleted, ticketType,
                   status, priority, tags, subject, issue, closedDate, comments, history)
    }

    /** A document loaded from the store. */
    constructor Load(r: TicketRecord)
      ensures Record() == r
    {
      id, uid, owner, group, assignee := r.id, r.uid, r.owner, r.group, r.assignee;
      date, updated, deleted, ticketType := r.date, r.updated, r.deleted, r.ticketType;
      status, priority, tags, subject, issue := r.status, r.priority, r.tags, r.subject, r.issue;
      closedDate, comments, history := r.closedDate, r.comments, r.history;
    }

    /**
     * The pre-save hook. `next` is the value the ticket counter would hand out;
     * `drawn` says whether the hook drew it.
     */
    method PreSave(next: int) returns (drawn: bool)
      modifies this
      ensures (Record(), drawn) == AllocateUid(old(Record()), next)
      ensures drawn <==> old(uid).None?
      ensures uid == if old(uid).None? then Some(next) else old(uid)
    {
      if uid.Some? {
        return false;
      }
      uid := Some(next);
      drawn := true;
    }

    method SetStatus(status: Option<int>, now: Time) returns (outcome: Result<(), Error>)
      modifies this
      ensures Committed(old(Record()), Mutation.SetStatus(status, now), outcome, Record())
      ensures status.None? ==> outcome == Err(InvalidStatus) && Record() == old(Record())
      ensures status.Some? ==> this.status == status.value
                               && (closedDate.Some? <==> this.status == CLOSED)
                               && (this.status == CLOSED ==> closedDate == Some(now))
                               && history == old(history) + [HistoryEntry(STATUS_ACTION, StatusSetTo(status.value))]
    {
      if status.None? {
        return Err(InvalidStatus);
      }
      if status.value == CLOSED {
        closedDate := Some(now);
      } else {
        closedDate := None;
      }
      this.status := status.value;
      history := history + [HistoryEntry(STATUS_ACTION, StatusSetTo(status.value))];
      outcome := Ok(());
    }

    method SetAssignee(userId: Option<AccountId>) returns (outcome: Result<(), Error>)
      modifies this
      ensures Committed(old(Record()), Mutation.SetAssignee(userId), outcome, Record())
      ensures userId.None? ==> outcome == Err(InvalidUserId) && Record() == old(Record())
      ensures userId.Some? ==> assignee == userId
                               && history == old(history) + [HistoryEntry(ASSIGNEE_ACTION, AssigneeSet(userId.value))]
    {
      if userId.None? {
        return Err(InvalidUserId);
      }
      assignee := userId;
      history := history + [HistoryEntry(ASSIGNEE_ACTION, AssigneeSet(userId.value))];
      outcome := Ok(());
    }

    method ClearAssignee()
      modifies this
      ensures Committed(old(Record()), Mutation.ClearAssignee, Ok(()), Record())
      ensures assignee.None?
      ensures history == old(history) + [HistoryEntry(ASSIGNEE_ACTION, AssigneeCleared)]
    {
      assignee := None;
      history := history + [HistoryEntry(ASSIGNEE_ACTION, AssigneeCleared)];
    }

    method SetTicketType(ticketType: TicketType)
      modifies this
      ensures Committed(old(Record()), Mutation.SetTicketType(ticketType), Ok(()), Record())
      ensures this.ticketType == ticketType.id
      ensures history == old(history) + [HistoryEntry(TYPE_ACTION, TypeSetTo(ticketType.name))]
    {
      this.ticketType := ticketType.id;
      history := history + [HistoryEntry(TYPE_ACTION, TypeSetTo(ticketType.name))];
    }

    method SetTicketPriority(priority: int)
      modifies this
      ensures Committed(old(Record()), Mutation.SetTicketPriority(priority), Ok(()), Record())
      ensures this.priority == priority
      ensures history == old(history) + [HistoryEntry(PRIORITY_ACTION, PrioritySetTo(priority))]
    {
      this.priority := priority;
      history := history + [HistoryEntry(PRIORITY_ACTION, PrioritySetTo(priority))];
    }

    method SetTicketGroup(groupId: GroupId)
      modifies this
      ensures Committed(old(Record()), Mutation.SetTicketGroup(groupId), Ok(()), Record())
      ensures group == groupId
      ensures history == old(history) + [HistoryEntry(GROUP_ACTION, GroupSetTo(groupId))]
    {
      group := groupId;
      history := history + [HistoryEntry(GROUP_ACTION, GroupSetTo(groupId))];
    }

    method RemoveComment(commentId: CommentId)
      modifies this
      ensures Committed(old(Record()), Mutation.RemoveComment(commentId), Ok(()), Record())
      ensures forall c :: c in comments <==> c in old(comments) && c.id != commentId
      ensures history == old(history) + [HistoryEntry(DELETE_COMMENT_ACTION, CommentDeleted(commentId))]
    {
      ghost var before := Record();
      comments := Filter(comments, KeepsComment(commentId));
      forall c | c in before.comments && c.id != commentId
        ensures c in comments
      {
        var i :| 0 <= i < |before.comments| && before.comments[i] == c;
        assert KeepsComment(commentId)(before.comments[i]);
      }
      history := history + [HistoryEntry(DELETE_COMMENT_ACTION, CommentDeleted(commentId))];
      assert Record() == before.(comments := comments, history := history);
    }
  }
}
