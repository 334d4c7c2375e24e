/** The `outbox` table: queued sends and the statements that change them. */
module Outbox {
  import opened Calendar
  import opened Timestamps
  import opened Wrappers

  type Id = string

  datatype EntryState = Scheduled | Sending | Failed

  /** One row. `job` stands for the addressing and content columns, which no statement changes. */
  datatype Row = Row(
    job: string,
    state: EntryState,
    failReason: Option<string>,
    attemptCount: int,
    sendAfter: string)

  type Rows = map<Id, Row>

  datatype Entry = Entry(id: Id, row: Row)

  // ----- The statements, as functions of the table -----

  function Enqueued(rows: Rows, id: Id, job: string, sendAfter: string): Rows {
    rows[id := Row(job, Scheduled, None, 0, sendAfter)]
  }

  /** An UPDATE by primary key touches no row when the id is gone. */
  function Updated(rows: Rows, id: Id, change: Row -> Row): Rows {
    if id in rows then rows[id := change(rows[id])] else rows
  }

  function MarkedSending(rows: Rows, id: Id): Rows {
    Updated(rows, id, (r: Row) => r.(state := Sending))
  }

  function MarkedRetry(rows: Rows, id: Id, next: string, reason: string): Rows {
    Updated(rows, id, (r: Row) =>
      r.(state := Scheduled, sendAfter := next, attemptCount := r.attemptCount + 1, failReason := Some(reason)))
  }

  function MarkedFailed(rows: Rows, id: Id, reason: string): Rows {
    Updated(rows, id, (r: Row) => r.(state := Failed, failReason := Some(reason)))
  }

  function Deleted(rows: Rows, id: Id): Rows {
    rows - {id}
  }

  function Requeued(rows: Rows, id: Id, sendAfter: string): Rows {
    if id in rows && rows[id].state == Failed then
      rows[id := rows[id].(state := Scheduled, sendAfter := sendAfter, attemptCount := 0, failReason := None)]
    else rows
  }

  /** Rows other than `id` are as they were. */
  ghost predicate OthersKept(before: Rows, after: Rows, id: Id) {
    forall other :: other != id ==>
      (other in after <==> other in before) && (other in before ==> after[other] == before[other])
  }

  // ----- The due query -----

  predicate IsDue(row: Row, now: string) {
    row.state == Scheduled && TextLessEq(row.sendAfter, now)
  }

  ghost predicate SortedByDeadline(entries: seq<Entry>) {
    forall i, j :: 0 <= i < j < |entries| ==> TextLessEq(entries[i].row.sendAfter, entries[j].row.sendAfter)
  }

  ghost predicate DistinctIds(entries: seq<Entry>) {
    forall i, j :: 0 <= i < j < |entries| ==> entries[i].id != entries[j].id
  }

  /** The answer to the due query: every due row once, earliest deadline first. */
  ghost predicate IsDueList(rows: Rows, now: string, entries: seq<Entry>) {
    && SortedByDeadline(entries) && DistinctIds(entries)
    && forall e :: e in entries <==> e.id in rows && e.row == rows[e.id] && IsDue(e.row, now)
  }

  function InsertByDeadline(e: Entry, entries: seq<Entry>): (r: seq<Entry>)
    ensures forall x :: x in r <==> x == e || x in entries
    ensures DistinctIds(entries) && (forall x :: x in entries ==> x.id != e.id) ==> DistinctIds(r)
  {
    if entries == [] || TextLessEq(e.row.sendAfter, entries[0].row.sendAfter) then
      ConsEntry(e, entries);
      [e] + entries
    else
      var rest := InsertByDeadline(e, entries[1..]);
      assert entries == [entries[0]] + entries[1..];
      ConsEntry(entries[0], rest);
      ConsEntry(entries[0], entries[1..]);
      [entries[0]] + rest
  }

  lemma {:induction false} InsertKeepsOrder(e: Entry, entries: seq<Entry>)
    requires SortedByDeadline(entries)
    ensures SortedByDeadline(InsertByDeadline(e, entries))
  {
    if entries != [] {
      SortedTail(entries);
      if TextLessEq(e.row.sendAfter, entries[0].row.sendAfter) {
        forall x | x in entries ensures TextLessEq(e.row.sendAfter, x.row.sendAfter) {
          if x != entries[0] {
            TextLessEqTransitive(e.row.sendAfter, entries[0].row.sendAfter, x.row.sendAfter);
          }
        }
        SortedCons(e, entries);
      } else {
        TextOrderIsTotal(e.row.sendAfter, entries[0].row.sendAfter);
        InsertKeepsOrder(e, entries[1..]);
        SortedCons(entries[0], InsertByDeadline(e, entries[1..]));
      }
    }
  }

  lemma ConsEntry(e: Entry, entries: seq<Entry>)
    ensures forall x :: x in [e] + entries <==> x == e || x in entries
    ensures DistinctIds([e] + entries) <==> DistinctIds(entries) && forall x :: x in entries ==> x.id != e.id
  {
    var all := [e] + entries;
    assert forall i :: 0 <= i < |entries| ==> all[i + 1] == entries[i];
    assert all[0] == e;
    forall i, j | DistinctIds(all) && 0 <= i < j < |entries| ensures entries[i].id != entries[j].id {
      assert all[i + 1].id != all[j + 1].id;
    }
    forall j | DistinctIds(all) && 0 <= j < |entries| ensures entries[j].id != e.id {
      assert all[0].id != all[j + 1].id;
    }
  }

  lemma SortedTail(entries: seq<Entry>)
    requires entries != [] && SortedByDeadline(entries)
    ensures SortedByDeadline(entries[1..])
    ensures forall x :: x in entries[1..] ==> TextLessEq(entries[0].row.sendAfter, x.row.sendAfter)
  {
    forall j | 0 <= j < |entries[1..]|
      ensures TextLessEq(entries[0].row.sendAfter, entries[1..][j].row.sendAfter)
    {
      assert TextLessEq(entries[0].row.sendAfter, entries[j + 1].row.sendAfter);
    }
  }

  lemma SortedCons(e: Entry, entries: seq<Entry>)
    requires SortedByDeadline(entries)
    requires forall x :: x in entries ==> TextLessEq(e.row.sendAfter, x.row.sendAfter)
    ensures SortedByDeadline([e] + entries)
  {
  }

  predicate ScheduledFor(rows: Rows, id: Id, t: string) {
    id in rows && rows[id].state == Scheduled && rows[id].sendAfter == t
  }

  /** What `MIN(send_after)` over the scheduled rows means: NULL exactly when there are none. */
  ghost predicate IsEarliest(rows: Rows, earliest: Option<string>) {
    match earliest
    case None => forall id :: id in rows ==> rows[id].state != Scheduled
    case Some(t) =>
      && (exists id :: ScheduledFor(rows, id, t))
      && (forall id :: id in rows && rows[id].state == Scheduled ==> TextLessEq(t, rows[id].sendAfter))
  }

  class OutboxTable {
    var rows: Rows

    constructor ()
      ensures rows == map[]
    {
      rows := map[];
    }

    /** The primary key refuses an id already present. */
    method Enqueue(id: Id, job: string, sendAfter: string) returns (r: Result<Entry, string>)
      modifies this
      ensures id in old(rows) ==> r.Err? && rows == old(rows)
      ensures id !in old(rows) ==> rows == Enqueued(old(rows), id, job, sendAfter) && r == Ok(Entry(id, rows[id]))
      ensures id !in old(rows) ==>
                OthersKept(old(rows), rows, id) && rows[id] == Row(job, Scheduled, None, 0, sendAfter)
    {
      if id in rows {
        return Err("Failed to enqueue outbox entry");
      }
      rows := rows[id := Row(job, Scheduled, None, 0, sendAfter)];
      return Ok(Entry(id, rows[id]));
    }

    method Get(id: Id) returns (r: Option<Entry>)
      ensures r == if id in rows then Some(Entry(id, rows[id])) else None
    {
      r := if id in rows then Some(Entry(id, rows[id])) else None;
    }

    method ListDue(now: string) returns (due: seq<Entry>)
      ensures IsDueList(rows, now, due)
    {
      due := [];
      var todo := rows.Keys;
      while todo != {}
        invariant todo <= rows.Keys
        invariant SortedByDeadline(due) && DistinctIds(due)
        invariant forall e :: e in due <==> e.id in rows && e.id !in todo && e.row == rows[e.id] && IsDue(e.row, now)
      {
        var id :| id in todo;
        todo := todo - {id};
        if IsDue(rows[id], now) {
          InsertKeepsOrder(Entry(id, rows[id]), due);
          due := InsertByDeadline(Entry(id, rows[id]), due);
        }
      }
    }

    method NextSendAfter() returns (earliest: Option<string>)
      ensures IsEarliest(rows, earliest)
    {
      earliest := None;
      var todo := rows.Keys;
      while todo != {}
        invariant todo <= rows.Keys
        invariant IsEarliest(rows - todo, earliest)
      {
        var id :| id in todo;
        ghost var seen := rows - todo;
        todo := todo - {id};
        assert rows - todo == seen[id := rows[id]];
        assert earliest.Some? ==> exists other :: ScheduledFor(seen, other, earliest.value) && other != id;
        assert forall other :: other in seen && other != id ==>
          ScheduledFor(rows - todo, other, seen[other].sendAfter) == ScheduledFor(seen, other, seen[other].sendAfter);
        assert ScheduledFor(rows - todo, id, rows[id].sendAfter) == (rows[id].state == Scheduled);
        if rows[id].state == Scheduled {
          var t := rows[id].sendAfter;
          if earliest.None? || TextLess(t, earliest.value) {
            forall other | other in seen && seen[other].state == Scheduled
              ensures TextLessEq(t, seen[other].sendAfter)
            {
              TextLessEqTransitive(t, earliest.value, seen[other].sendAfter);
            }
            earliest := Some(t);
          } else {
            TextOrderIsTotal(t, earliest.value);
          }
        }
      }
      assert rows - {} == rows;
    }

    method MarkSending(id: Id)
      modifies this
      ensures rows == MarkedSending(old(rows), id)
      ensures OthersKept(old(rows), rows, id) && (id in rows <==> id in old(rows))
      ensures id in rows ==> rows[id] == old(rows)[id].(state := Sending)
    {
      if id in rows {
        rows := rows[id := rows[id].(state := Sending)];
      }
    }

    method MarkRetry(id: Id, nextSendAfter: string, reason: string)
      modifies this
      ensures rows == MarkedRetry(old(rows), id, nextSendAfter, reason)
      ensures OthersKept(old(rows), rows, id) && (id in rows <==> id in old(rows))
      ensures id in rows ==>
                var before := old(rows)[id];
                rows[id] == Row(before.job, Scheduled, Some(reason), before.attemptCount + 1, nextSendAfter)
    {
      if id in rows {
        var r := rows[id];
        rows := rows[id := r.(state := Scheduled, sendAfter := nextSendAfter,
                              attemptCount := r.attemptCount + 1, failReason := Some(reason))];
      }
    }

    method MarkFailed(id: Id, reason: string)
      modifies this
      ensures rows == MarkedFailed(old(rows), id, reason)
      ensures OthersKept(old(rows), rows, id) && (id in rows <==> id in old(rows))
      ensures id in rows ==>
                var before := old(rows)[id];
                rows[id] == Row(before.job, Failed, Some(reason), before.attemptCount, before.sendAfter)
    {
      if id in rows {
        rows := rows[id := rows[id].(state := Failed, failReason := Some(reason))];
      }
    }

    method Delete(id: Id) returns (changed: bool)
      modifies this
      ensures rows == Deleted(old(rows), id) && changed == (id in old(rows))
      ensures id !in rows && OthersKept(old(rows), rows, id)
    {
      changed := id in rows;
      rows := rows - {id};
    }

    method Requeue(id: Id, sendAfter: string) returns (changed: bool)
      modifies this
      ensures rows == Requeued(old(rows), id, sendAfter)
      ensures changed <==> id in old(rows) && old(rows)[id].state == Failed
      ensures changed ==> id in rows && rows[id] == Row(old(rows)[id].job, Scheduled, None, 0, sendAfter)
      ensures if changed then OthersKept(old(rows), rows, id) else rows == old(rows)
    {
      changed := id in rows && rows[id].state == Failed;
      if changed {
        var row := rows[id];
        rows := rows[id := row.(state := Scheduled, sendAfter := sendAfter, attemptCount := 0, failReason := None)];
      }
    }
  }

  // ----- Deadlines as text are deadlines in time -----

  /** Deadline `t` written in the application's format. */
  ghost predicate DeadlineAt(row: Row, t: int) {
    Representable(t) && row.sendAfter == Stamp(t)
  }

  /** The due query selects exactly the scheduled entries whose deadline has come. */
  lemma DueIffDeadlineReached(row: Row, deadline: int, now: int)
    requires DeadlineAt(row, deadline) && Representable(now)
    ensures IsDue(row, Stamp(now)) <==> row.state == Scheduled && deadline <= now
  {
    StampOrder(deadline, now);
  }

  /** `id` is scheduled and no scheduled entry has an earlier deadline. */
  ghost predicate FirstDeadline(rows: Rows, deadlines: map<Id, int>, id: Id) {
    && id in rows && rows[id].state == Scheduled && id in deadlines
    && forall other :: other in rows && rows[other].state == Scheduled ==>
                         other in deadlines && deadlines[id] <= deadlines[other]
  }

  /** The least text is the least deadline: what the worker sleeps until is the first moment anything is due. */
  lemma EarliestTextIsEarliestDeadline(rows: Rows, deadlines: map<Id, int>, earliest: string, now: int)
    requires IsEarliest(rows, Some(earliest)) && Representable(now)
    requires forall id :: id in rows ==> id in deadlines && DeadlineAt(rows[id], deadlines[id])
    ensures (exists id :: id in rows && IsDue(rows[id], Stamp(now))) <==> TextLessEq(earliest, Stamp(now))
    ensures exists id :: FirstDeadline(rows, deadlines, id) && earliest == rows[id].sendAfter
  {
    var first :| ScheduledFor(rows, first, earliest);
    forall id | id in rows && rows[id].state == Scheduled ensures deadlines[first] <= deadlines[id] {
      StampOrder(deadlines[first], deadlines[id]);
    }
    assert FirstDeadline(rows, deadlines, first);
    if id :| id in rows && IsDue(rows[id], Stamp(now)) {
      TextLessEqTransitive(earliest, rows[id].sendAfter, Stamp(now));
    }
  }
}
