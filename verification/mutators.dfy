/**
 * The ticket mutators and the pre-save hook as functions on a ticket document:
 * the specification the in-memory `Ticket` object is proved against.
 */
module Mutators {
  import opened Wrappers
  import opened Calendar
  import opened Seqs
  import opened JsValues
  import opened TicketData

  const STATUS_ACTION: string := "ticket:set:status"
  const ASSIGNEE_ACTION: string := "ticket:set:assignee"
  const TYPE_ACTION: string := "ticket:set:type"
  const PRIORITY_ACTION: string := "ticket:set:priority"
  const GROUP_ACTION: string := "ticket:set:group"
  const DELETE_COMMENT_ACTION: string := "ticket:delete:comment"

  /**
   * A call of one mutator with its argument; `None` is an `undefined` argument.
   * `setStatus` also reads the clock: `now` is the instant it reads.
   */
  datatype Mutation =
    | SetStatus(status: Option<int>, now: Time)
    | SetAssignee(userId: Option<AccountId>)
    | ClearAssignee
    | SetTicketType(ticketType: TicketType)
    | SetTicketPriority(priority: int)
    | SetTicketGroup(groupId: GroupId)
    | RemoveComment(commentId: CommentId)

  /** The two calls that fail: an undefined status or an undefined user id. */
  predicate Rejected(m: Mutation) {
    (m.SetStatus? && m.status.None?) || m == SetAssignee(None)
  }

  /** The action tag of the history entry a mutator appends. */
  function Action(m: Mutation): string {
    match m
    case SetStatus(_, _) => STATUS_ACTION
    case SetAssignee(_) => ASSIGNEE_ACTION
    case ClearAssignee => ASSIGNEE_ACTION
    case SetTicketType(_) => TYPE_ACTION
    case SetTicketPriority(_) => PRIORITY_ACTION
    case SetTicketGroup(_) => GROUP_ACTION
    case RemoveComment(_) => DELETE_COMMENT_ACTION
  }

  /** What the appended entry's text says. */
  function Describe(m: Mutation): Description
    requires !Rejected(m)
  {
    match m
    case SetStatus(s, _) => StatusSetTo(s.value)
    case SetAssignee(u) => AssigneeSet(u.value)
    case ClearAssignee => AssigneeCleared
    case SetTicketType(tt) => TypeSetTo(tt.name)
    case SetTicketPriority(p) => PrioritySetTo(p)
    case SetTicketGroup(g) => GroupSetTo(g)
    case RemoveComment(c) => CommentDeleted(c)
  }

  /** The entry a successful call appends to the history. */
  function Entry(m: Mutation): HistoryEntry
    requires !Rejected(m)
  {
    HistoryEntry(Action(m), Describe(m))
  }

  /** The fields other than `history` that a mutator writes. */
  function Targets(m: Mutation): set<Field> {
    match m
    case SetStatus(_, _) => {Status, ClosedDate}
    case SetAssignee(_) => {Assignee}
    case ClearAssignee => {Assignee}
    case SetTicketType(_) => {Type}
    case SetTicketPriority(_) => {Priority}
    case SetTicketGroup(_) => {Group}
    case RemoveComment(_) => {Comments}
  }

  /** The test `removeComment` keeps a comment by. */
  function KeepsComment(commentId: CommentId): Comment -> bool {
    (c: Comment) => c.id != commentId
  }

  /** The test that picks out the comments `removeComment` drops. */
  function MatchesComment(commentId: CommentId): Comment -> bool {
    (c: Comment) => c.id == commentId
  }

  /** One mutator call on document `t`. */
  function Apply(t: TicketRecord, m: Mutation): (r: Result<TicketRecord, Error>)
    ensures r.Err? <==> Rejected(m)
    ensures m.SetStatus? && m.status.None? ==> r == Err(InvalidStatus)
    ensures m == SetAssignee(None) ==> r == Err(InvalidUserId)
    // exactly one entry, with the mutator's tag, appended after an untouched history
    ensures r.Ok? ==> |r.value.history| == |t.history| + 1
                      && r.value.history[..|t.history|] == t.history
                      && r.value.history[|t.history|] == Entry(m)
    // no field outside the mutator's own changes
    ensures r.Ok? ==> SameExcept(t, r.value, Targets(m) + {History})
    ensures r.Ok? && m.SetStatus? ==>
              r.value.status == m.status.value
              && ClosedDateConsistent(r.value)
              && (r.value.status == CLOSED ==> r.value.closedDate == Some(m.now))
    ensures r.Ok? && m.SetAssignee? ==> r.value.assignee == m.userId
    ensures r.Ok? && m.ClearAssignee? ==> r.value.assignee == None
    ensures r.Ok? && m.SetTicketType? ==> r.value.ticketType == m.ticketType.id
    ensures r.Ok? && m.SetTicketPriority? ==> r.value.priority == m.priority
    ensures r.Ok? && m.SetTicketGroup? ==> r.value.group == m.groupId
    ensures r.Ok? && m.RemoveComment? ==> r.value.comments == Filter(t.comments, KeepsComment(m.commentId))
    ensures r.Ok? && m.RemoveComment? ==>
              forall c :: c in r.value.comments <==> c in t.comments && c.id != m.commentId
    ensures r.Ok? && ClosedDateConsistent(t) ==> ClosedDateConsistent(r.value)
  {
    match m
    case SetStatus(None, _) => Err(InvalidStatus)
    case SetStatus(Some(s), now) =>
      Ok(t.(closedDate := if s == CLOSED then Some(now) else None,
            status := s,
            history := t.history + [Entry(m)]))
    case SetAssignee(None) => Err(InvalidUserId)
    case SetAssignee(Some(u)) =>
      Ok(t.(assignee := Some(u), history := t.history + [Entry(m)]))
    case ClearAssignee =>
      Ok(t.(assignee := None, history := t.history + [Entry(m)]))
    case SetTicketType(tt) =>
      Ok(t.(ticketType := tt.id, history := t.history + [Entry(m)]))
    case SetTicketPriority(p) =>
      Ok(t.(priority := p, history := t.history + [Entry(m)]))
    case SetTicketGroup(g) =>
      Ok(t.(group := g, history := t.history + [Entry(m)]))
    case RemoveComment(c) =>
      Ok(t.(comments := Filter(t.comments, KeepsComment(c)), history := t.history + [Entry(m)]))
  }

  /**
   * `removeComment` keeps the comments with another id in their order, drops as many
   * as match, and changes nothing when none matches.
   */
  lemma RemoveCommentEffect(t: TicketRecord, commentId: CommentId)
    ensures Apply(t, RemoveComment(commentId)).Ok?
    ensures var after := Apply(t, RemoveComment(commentId)).value.comments;
            |after| == |t.comments| - |Filter(t.comments, MatchesComment(commentId))|
            && ((forall i :: 0 <= i < |t.comments| ==> t.comments[i].id != commentId) ==> after == t.comments)
  {
    var keep, drop := KeepsComment(commentId), MatchesComment(commentId);
    assert Apply(t, RemoveComment(commentId)).value.comments == Filter(t.comments, keep);
    assert forall i :: 0 <= i < |t.comments| ==> keep(t.comments[i]) == !drop(t.comments[i]);
    FilterComplement(t.comments, drop, keep);
    if forall i :: 0 <= i < |t.comments| ==> t.comments[i].id != commentId {
      assert forall i :: 0 <= i < |t.comments| ==> keep(t.comments[i]);
      FilterKeepsAll(t.comments, keep);
    }
  }

  /** The status strings the schema cannot cast to a number: the empty string casts to no status at all. */
  predicate UncastableStatus(status: JsArg) {
    status.Str? && (status.s == "" || StringToNumber(status.s).None?)
  }

  /**
   * setStatus as written, for a number or a string argument. The schema casts the
   * argument to the number it stores, but the closing date is set only when the
   * argument is the number 3 itself, by a strict comparison. A string the schema
   * cannot cast leaves a document that cannot be saved.
   */
  function SetStatusAsWritten(t: TicketRecord, status: JsArg, now: Time): (r: Result<TicketRecord, Error>)
    ensures status.Undefined? <==> r == Err(InvalidStatus)
    ensures UncastableStatus(status) <==> r == Err(CastFailure)
    ensures status.Num? ==> r == Apply(t, SetStatus(Some(status.n), now))
    ensures r.Ok? ==> ToNumber(status) == Some(r.value.status)
                      && (r.value.closedDate.Some? <==> status == Num(CLOSED))
                      && r.value.history == t.history + [Entry(SetStatus(Some(r.value.status), now))]
                      && SameExcept(t, r.value, {Status, ClosedDate, History})
  {
    match status
    case Undefined => Err(InvalidStatus)
    case Num(n) =>
      assert ToNumber(status) == Some(n);
      Apply(t, SetStatus(Some(n), now))
    case Str(s) =>
      if UncastableStatus(status) then Err(CastFailure)
      else
        var n := StringToNumber(s).value;
        Ok(t.(closedDate := None, status := n, history := t.history + [Entry(SetStatus(Some(n), now))]))
  }

  /**
   * The status "3" closes the ticket without a closing date: the stored document breaks
   * the rule that a ticket has a closing date exactly when it is closed.
   */
  lemma SetStatusStringLeavesClosedDateEmpty(t: TicketRecord, now: Time)
    ensures SetStatusAsWritten(t, Str("3"), now).Ok?
    ensures var r := SetStatusAsWritten(t, Str("3"), now).value;
            r.status == CLOSED && r.closedDate.None? && !ClosedDateConsistent(r)
  {
    assert AllDigits("3") && "3"[..0] == "";
    assert StringToNumber("3") == Some(3);
  }

  /**
   * setStatus as evidently intended: the closing date follows the status the document
   * stores, whichever form the argument came in.
   */
  function SetStatusCorrected(t: TicketRecord, status: JsArg, now: Time): (r: Result<TicketRecord, Error>)
    ensures status.Undefined? <==> r == Err(InvalidStatus)
    ensures UncastableStatus(status) <==> r == Err(CastFailure)
    ensures r.Ok? ==> ToNumber(status) == Some(r.value.status)
                      && (r.value.closedDate.Some? <==> r.value.status == CLOSED)
                      && (r.value.status == CLOSED ==> r.value.closedDate == Some(now))
                      && ClosedDateConsistent(r.value)
  {
    if UncastableStatus(status) then Err(CastFailure)
    else Apply(t, SetStatus(ToNumber(status), now))
  }

  /**
   * The corrected call agrees with the one as written on numbers, and a status's decimal
   * string has the same effect as the number.
   */
  lemma SetStatusCorrectedAgrees(t: TicketRecord, n: int, now: Time)
    ensures SetStatusCorrected(t, Num(n), now) == SetStatusAsWritten(t, Num(n), now)
    ensures SetStatusCorrected(t, Str(IntToString(n)), now) == SetStatusCorrected(t, Num(n), now)
  {
    assert ToNumber(Num(n)) == Some(n);
    assert ToNumber(Str(IntToString(n))) == Some(n);
  }

  /** The in-memory document after one call: a rejected call leaves it as it was. */
  function Step(t: TicketRecord, m: Mutation): TicketRecord {
    match Apply(t, m)
    case Ok(t') => t'
    case Err(_) => t
  }

  /** The document after a series of calls, made in order. */
  function Replay(t: TicketRecord, calls: seq<Mutation>): TicketRecord {
    if calls == [] then t
    else Step(Replay(t, calls[..|calls| - 1]), calls[|calls| - 1])
  }

  /** The entries the accepted calls of a series produce, in call order. */
  function Log(calls: seq<Mutation>): seq<HistoryEntry> {
    if calls == [] then []
    else
      var last := calls[|calls| - 1];
      Log(calls[..|calls| - 1]) + (if Rejected(last) then [] else [Entry(last)])
  }

  /**
   * The audit trail is a complete change log: after any series of calls the history is
   * the old history followed by one entry per accepted call, in call order.
   */
  lemma {:induction false} ReplayAppendsLog(t: TicketRecord, calls: seq<Mutation>)
    ensures Replay(t, calls).history == t.history + Log(calls)
  {
    if calls != [] {
      ReplayAppendsLog(t, calls[..|calls| - 1]);
    }
  }

  /** Each call adds at most one entry. */
  lemma {:induction false} LogLength(calls: seq<Mutation>)
    ensures |Log(calls)| <= |calls|
  {
    if calls != [] {
      LogLength(calls[..|calls| - 1]);
    }
  }

  /** When no call is rejected, the entries carry their mutators' tags, one per call, in order. */
  lemma {:induction false} LogTags(calls: seq<Mutation>)
    requires forall i :: 0 <= i < |calls| ==> !Rejected(calls[i])
    ensures |Log(calls)| == |calls|
    ensures forall i :: 0 <= i < |calls| ==> Log(calls)[i].action == Action(calls[i])
  {
    if calls != [] {
      var init, last := calls[..|calls| - 1], calls[|calls| - 1];
      assert forall i :: 0 <= i < |init| ==> init[i] == calls[i];
      LogTags(init);
      assert !Rejected(last);
      var log := Log(init) + [Entry(last)];
      assert Log(calls) == log;
      forall i | 0 <= i < |calls|
        ensures log[i].action == Action(calls[i])
      {
        if i < |init| {
          assert log[i] == Log(init)[i];
        }
      }
    }
  }

  /** No series of calls breaks the rule that `closedDate` is set exactly when the status is closed. */
  lemma {:induction false} ReplayKeepsClosedDateConsistent(t: TicketRecord, calls: seq<Mutation>)
    requires ClosedDateConsistent(t)
    ensures ClosedDateConsistent(Replay(t, calls))
  {
    if calls != [] {
      ReplayKeepsClosedDateConsistent(t, calls[..|calls| - 1]);
    }
  }

  /** Closing, reopening and closing again stamps the last closing instant. */
  lemma ReclosingRefreshesClosedDate(t: TicketRecord, open: int, t1: Time, t2: Time, t3: Time)
    requires open != CLOSED
    ensures var calls := [SetStatus(Some(CLOSED), t1), SetStatus(Some(open), t2), SetStatus(Some(CLOSED), t3)];
            Replay(t, calls).closedDate == Some(t3)
            && |Replay(t, calls).history| == |t.history| + 3
  {
    var calls := [SetStatus(Some(CLOSED), t1), SetStatus(Some(open), t2), SetStatus(Some(CLOSED), t3)];
    var s1 := Step(t, calls[0]);
    assert Replay(t, calls[..1]) == s1 by {
      assert calls[..1][..0] == [];
    }
    var s2 := Step(s1, calls[1]);
    assert Replay(t, calls[..2]) == s2 by {
      assert calls[..2][..1] == calls[..1];
    }
    assert calls[..3] == calls;
    assert Replay(t, calls) == Step(s2, calls[2]);
  }

  /**
   * The pre-save hook: a document without a `uid` takes the counter's next value;
   * one that has a `uid` keeps it. The flag says whether the counter was drawn on.
   */
  function AllocateUid(t: TicketRecord, next: int): (r: (TicketRecord, bool))
    ensures r.1 <==> t.uid.None?
    ensures t.uid.Some? ==> r.0 == t
    ensures t.uid.None? ==> r.0.uid == Some(next) && SameExcept(t, r.0, {Uid})
  {
    if t.uid.Some? then (t, false) else (t.(uid := Some(next)), true)
  }

  /** Saving twice does not allocate a second `uid`. */
  lemma SavingTwiceKeepsUid(t: TicketRecord, first: int, second: int)
    ensures AllocateUid(AllocateUid(t, first).0, second) == (AllocateUid(t, first).0, false)
    ensures AllocateUid(t, first).0.uid.Some?
  {
  }
}
