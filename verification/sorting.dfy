/**
 * The store's `sort({status: 1})` and `limit(n)`: a stable sort by status
 * (ties keep the store's order) and the first page of its result.
 */
module Sorting {
  import opened Seqs
  import opened TicketData

  /** The most records a paged listing returns. */
  const PAGE_LIMIT: nat := 100

  predicate SortedByStatus(s: seq<TicketRecord>) {
    forall i, j :: 0 <= i < j < |s| ==> s[i].status <= s[j].status
  }

  /** Puts `t` after every record whose status is not greater than its own. */
  function InsertByStatus(s: seq<TicketRecord>, t: TicketRecord): (r: seq<TicketRecord>)
    requires SortedByStatus(s)
    ensures SortedByStatus(r)
    ensures |r| == |s| + 1
    ensures multiset(r) == multiset(s) + multiset{t}
    ensures forall x :: x in r ==> x in s || x == t
  {
    if s == [] || s[|s| - 1].status <= t.status then s + [t]
    else
      var init, last := s[..|s| - 1], s[|s| - 1];
      assert s == init + [last];
      var ins := InsertByStatus(init, t);
      assert forall i :: 0 <= i < |init| ==> init[i].status <= last.status;
      assert forall i :: 0 <= i < |ins| ==> ins[i].status <= last.status by {
        forall i | 0 <= i < |ins| ensures ins[i].status <= last.status {
          assert ins[i] in ins;
        }
      }
      ins + [last]
  }

  /** Sorts by status ascending, keeping the order of records with equal status. */
  function SortByStatus(s: seq<TicketRecord>): (r: seq<TicketRecord>)
    ensures SortedByStatus(r)
    ensures multiset(r) == multiset(s)
    ensures |r| == |s|
  {
    if s == [] then []
    else
      var init, last := s[..|s| - 1], s[|s| - 1];
      assert s == init + [last];
      InsertByStatus(SortByStatus(init), last)
  }

  function HasStatus(k: int): TicketRecord -> bool {
    (t: TicketRecord) => t.status == k
  }

  lemma {:induction false} InsertKeepsTies(s: seq<TicketRecord>, t: TicketRecord, k: int)
    requires SortedByStatus(s)
    ensures Filter(InsertByStatus(s, t), HasStatus(k)) == Filter(s, HasStatus(k)) + Filter([t], HasStatus(k))
  {
    var p := HasStatus(k);
    if s == [] || s[|s| - 1].status <= t.status {
      FilterAppend(s, [t], p);
    } else {
      var init, last := s[..|s| - 1], s[|s| - 1];
      InsertPassesLast(s, t);
      InsertKeepsTies(init, t, k);
      TieStep(init, InsertByStatus(init, t), t, last, k);
    }
  }

  /** The inductive step of `InsertKeepsTies`: placing `last` after the insertion keeps the ties' order. */
  lemma TieStep(init: seq<TicketRecord>, ins: seq<TicketRecord>, t: TicketRecord, last: TicketRecord, k: int)
    requires t.status < last.status
    requires Filter(ins, HasStatus(k)) == Filter(init, HasStatus(k)) + Filter([t], HasStatus(k))
    ensures Filter(ins + [last], HasStatus(k)) == Filter(init + [last], HasStatus(k)) + Filter([t], HasStatus(k))
  {
    var p := HasStatus(k);
    var before, mine, lasts := Filter(init, p), Filter([t], p), Filter([last], p);
    FilterAppend(ins, [last], p);
    FilterAppend(init, [last], p);
    AtMostOneTie(t, last, k);
    Regroup(Filter(ins + [last], p), Filter(init + [last], p), Filter(ins, p), before, mine, lasts);
  }

  /** Concatenations that differ only in the order of two parts, one of them empty, are equal. */
  lemma Regroup<T>(whole: seq<T>, rest: seq<T>, front: seq<T>, before: seq<T>, mine: seq<T>, lasts: seq<T>)
    requires whole == front + lasts && front == before + mine && rest == before + lasts
    requires mine == [] || lasts == []
    ensures whole == rest + mine
  {
    if mine == [] {
      assert before + mine == before;
      assert rest + mine == rest;
    } else {
      assert front + lasts == front;
      assert before + lasts == before;
    }
  }

  /** A record with a lower status than the last one is inserted before it. */
  lemma InsertPassesLast(s: seq<TicketRecord>, t: TicketRecord)
    requires SortedByStatus(s) && s != [] && t.status < s[|s| - 1].status
    ensures s == s[..|s| - 1] + [s[|s| - 1]]
    ensures InsertByStatus(s, t) == InsertByStatus(s[..|s| - 1], t) + [s[|s| - 1]]
  {
  }

  /** Two records in strictly increasing status cannot both have status `k`. */
  lemma AtMostOneTie(t: TicketRecord, last: TicketRecord, k: int)
    requires t.status < last.status
    ensures Filter([t], HasStatus(k)) == [] || Filter([last], HasStatus(k)) == []
  {
    var p := HasStatus(k);
    if p(t) {
      assert Filter([last], p) == Filter([last][1..], p);
    }
  }

  /** The sort is stable: for every status, the records with that status keep their order. */
  lemma {:induction false} SortKeepsTies(s: seq<TicketRecord>, k: int)
    ensures Filter(SortByStatus(s), HasStatus(k)) == Filter(s, HasStatus(k))
  {
    if s != [] {
      var init, last := s[..|s| - 1], s[|s| - 1];
      assert s == init + [last];
      SortKeepsTies(init, k);
      InsertKeepsTies(SortByStatus(init), last, k);
      FilterAppend(init, [last], HasStatus(k));
    }
  }

  /** Sorting records that all share one status leaves them in place. */
  lemma SortOfOneStatus(s: seq<TicketRecord>, k: int)
    requires forall i :: 0 <= i < |s| ==> s[i].status == k
    ensures SortByStatus(s) == s
  {
    var r := SortByStatus(s);
    SortKeepsTies(s, k);
    FilterKeepsAll(s, HasStatus(k));
    forall i | 0 <= i < |r| ensures HasStatus(k)(r[i]) {
      assert r[i] in multiset(s);
    }
    FilterKeepsAll(r, HasStatus(k));
  }

  /**
   * `matches` sorted by status and cut to the first `PAGE_LIMIT` records.
   * No record left out has a lower status than one on the page.
   */
  function FirstPage(matches: seq<TicketRecord>): (page: seq<TicketRecord>)
    ensures |page| == if |matches| <= PAGE_LIMIT then |matches| else PAGE_LIMIT
    ensures SortedByStatus(page)
    ensures multiset(page) <= multiset(matches)
    ensures |matches| <= PAGE_LIMIT ==> multiset(page) == multiset(matches)
    ensures forall x, y :: x in page && y in multiset(matches) - multiset(page) ==> x.status <= y.status
  {
    var sorted := SortByStatus(matches);
    var k := if |sorted| <= PAGE_LIMIT then |sorted| else PAGE_LIMIT;
    PageOfSorted(sorted, k);
    sorted[..k]
  }

  /** A prefix of a sorted sequence is sorted and holds its lowest statuses. */
  lemma PageOfSorted(sorted: seq<TicketRecord>, k: nat)
    requires SortedByStatus(sorted) && k <= |sorted|
    ensures SortedByStatus(sorted[..k])
    ensures multiset(sorted[..k]) <= multiset(sorted)
    ensures k == |sorted| ==> multiset(sorted[..k]) == multiset(sorted)
    ensures forall x, y :: x in sorted[..k] && y in multiset(sorted) - multiset(sorted[..k]) ==> x.status <= y.status
  {
    PrefixSplits(sorted, k);
    PrefixBelowSuffix(sorted, k);
  }

  /** In a sorted sequence, no record of a prefix has a higher status than a record after it. */
  lemma PrefixBelowSuffix(sorted: seq<TicketRecord>, k: nat)
    requires SortedByStatus(sorted) && k <= |sorted|
    ensures forall x, y :: x in sorted[..k] && y in multiset(sorted[k..]) ==> x.status <= y.status
  {
    var page, rest := sorted[..k], sorted[k..];
    forall x: TicketRecord, y: TicketRecord | x in page && y in multiset(rest)
      ensures x.status <= y.status
    {
      var i :| 0 <= i < k && sorted[i] == x;
      var j: nat :| j < |rest| && rest[j] == y;
      assert sorted[k + j] == y;
    }
  }

  /** What a prefix leaves out of a sequence is the matching suffix. */
  lemma PrefixSplits(s: seq<TicketRecord>, k: nat)
    requires k <= |s|
    ensures multiset(s) - multiset(s[..k]) == multiset(s[k..])
    ensures multiset(s[..k]) <= multiset(s)
    ensures k == |s| ==> s[..k] == s
  {
    assert s == s[..k] + s[k..];
  }
}
