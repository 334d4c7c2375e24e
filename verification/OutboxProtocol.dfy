/**
  The outbox worker of one user as a step system: route handlers, a worker that drains snapshots of
  the table, crashes, and status writes that get lost. Each user has a separate database and a separate
  slot in the worker map, so one user's world is independent of the others'.
 */
module OutboxProtocol {
  import opened Calendar
  import opened Timestamps
  import opened Wrappers
  import opened Outbox

  const MAX_ATTEMPTS := 5

  /** Seconds to wait after a failed attempt made with `attemptCount` earlier failures. */
  function Backoff(attemptCount: int): (secs: int)
    ensures 30 <= secs <= 1800
  {
    var doublings := if attemptCount < 0 then 0 else if attemptCount > 6 then 6 else attemptCount;
    var secs := 30 * [1, 2, 4, 8, 16, 32, 64][doublings];
    if secs < 1800 then secs else 1800
  }

  // ----- Worlds -----

  /** How a finished send ended; only a transient refusal is worth another attempt. */
  datatype Verdict = Accepted | Transient | Permanent

  /** One call of the send routine, in milliseconds. A crash leaves it `Running` for ever. */
  datatype Trial = Running(started: int) | Done(started: int, ended: int, verdict: Verdict)

  /** What the worker still has to write back. */
  datatype Outcome = Delivered | Retry(next: string, reason: string) | GiveUp(reason: string)

  datatype SendResult = Sent | Refused(retryable: bool, reason: string)

  datatype Phase =
    | Waiting
    | Draining(due: seq<Entry>)
    | Marked(entry: Entry, rest: seq<Entry>)
    | InFlight(entry: Entry, rest: seq<Entry>)
    | Finished(entry: Entry, rest: seq<Entry>, outcome: Outcome)

  type TaskId = nat

  /** `history` records, per entry, one round of trials for its enqueue and for each requeue. */
  datatype World = World(
    nowMs: int,
    rows: Rows,
    tasks: map<TaskId, Phase>,
    current: Option<TaskId>,
    cancels: set<Id>,
    history: map<Id, seq<seq<Trial>>>)

  function Seconds(ms: int): int {
    ms / 1000
  }

  /** The whole second the worker reads off its clock. */
  function Now(w: World): int {
    Seconds(w.nowMs)
  }

  // ----- Steps -----

  datatype Step =
    | Tick(nowMs: int)
    | EnqueueEntry(id: Id, job: string, sendAfter: string)
    | RequeueEntry(id: Id, sendAfter: string)
    | CancelCheck(id: Id)
    | CancelDelete(id: Id)
    | EnsureWorker(spawned: TaskId)
    | TakeDue(task: TaskId, asOf: int, due: seq<Entry>)
    | MarkEntry(task: TaskId, applied: bool, reported: bool)
    | StartSend(task: TaskId)
    | EndSend(task: TaskId, result: SendResult)
    | WriteBack(task: TaskId, applied: bool)
    | EndRound(task: TaskId)
    | EndTask(task: TaskId)
    | Crash

  function LastRound(rounds: seq<seq<Trial>>): seq<Trial>
    requires rounds != []
  {
    rounds[|rounds| - 1]
  }

  /** Replace the last round. */
  function WithLast(rounds: seq<seq<Trial>>, round: seq<Trial>): (r: seq<seq<Trial>>)
    requires rounds != []
    ensures |r| == |rounds| && LastRound(r) == round
    ensures forall i :: 0 <= i < |rounds| - 1 ==> r[i] == rounds[i]
  {
    rounds[|rounds| - 1 := round]
  }

  function VerdictOf(result: SendResult): Verdict {
    match result
    case Sent => Accepted
    case Refused(retryable, _) => if retryable then Transient else Permanent
  }

  /** The outcome a finished attempt leads to; `next` is the retry deadline worked out at that moment. */
  function OutcomeOf(result: SendResult, attemptCount: int, next: string): Outcome {
    match result
    case Sent => Delivered
    case Refused(retryable, reason) =>
      if retryable && attemptCount + 1 < MAX_ATTEMPTS then Retry(next, reason)
      else GiveUp(reason)
  }

  /** The status write of a finished entry. */
  function Written(rows: Rows, id: Id, outcome: Outcome): Rows {
    match outcome
    case Delivered => Deleted(rows, id)
    case Retry(next, reason) => MarkedRetry(rows, id, next, reason)
    case GiveUp(reason) => MarkedFailed(rows, id, reason)
  }

  /** The clock stays far enough below the year 10000 for a retry deadline to have a four-digit year. */
  predicate ClockInRange(nowMs: int) {
    Representable(Seconds(nowMs)) && Representable(Seconds(nowMs) + 1800)
  }

  ghost predicate Ticks(w: World, nowMs: int, w': World) {
    w.nowMs <= nowMs && ClockInRange(nowMs) && w' == w.(nowMs := nowMs)
  }

  ghost predicate Enqueues(w: World, id: Id, job: string, sendAfter: string, w': World) {
    id !in w.history && w' == w.(rows := Enqueued(w.rows, id, job, sendAfter), history := w.history[id := [[]]])
  }

  ghost predicate Requeues(w: World, id: Id, sendAfter: string, w': World) {
    if id in w.rows && w.rows[id].state == Failed && id in w.history then
      w' == w.(rows := Requeued(w.rows, id, sendAfter), history := w.history[id := w.history[id] + [[]]])
    else w' == w
  }

  /** The delete handler looks at the row in one statement and deletes it in another. */
  ghost predicate ChecksCancel(w: World, id: Id, w': World) {
    id in w.rows && w.rows[id].state != Sending && w' == w.(cancels := w.cancels + {id})
  }

  ghost predicate DeletesCancelled(w: World, id: Id, w': World) {
    id in w.cancels && w' == w.(rows := Deleted(w.rows, id), cancels := w.cancels - {id})
  }

  /** Check and spawn under one map-entry lock; a task that has ended does not count as running. */
  ghost predicate EnsuresWorker(w: World, spawned: TaskId, w': World) {
    if w.current.Some? && w.current.value in w.tasks then w' == w
    else spawned !in w.tasks && w' == w.(tasks := w.tasks[spawned := Waiting], current := Some(spawned))
  }

  /** The snapshot of due entries; the clock may have been read a little earlier. */
  ghost predicate TakesDue(w: World, task: TaskId, asOf: int, due: seq<Entry>, w': World) {
    && task in w.tasks && w.tasks[task] == Waiting
    && Representable(asOf) && asOf <= Now(w) && IsDueList(w.rows, Stamp(asOf), due)
    && w' == w.(tasks := w.tasks[task := Draining(due)])
  }

  /** The sending mark; when the call reports an error the entry is skipped, whether or not the row changed. */
  ghost predicate MarksEntry(w: World, task: TaskId, applied: bool, reported: bool, w': World) {
    && task in w.tasks && w.tasks[task].Draining? && w.tasks[task].due != []
    && (reported ==> applied)
    && var entry, rest := w.tasks[task].due[0], w.tasks[task].due[1..];
       w' == w.(rows := if applied then MarkedSending(w.rows, entry.id) else w.rows,
                tasks := w.tasks[task := if reported then Marked(entry, rest) else Draining(rest)])
  }

  ghost predicate StartsSend(w: World, task: TaskId, w': World) {
    && task in w.tasks && w.tasks[task].Marked?
    && var Marked(entry, rest) := w.tasks[task];
       && entry.id in w.history && w.history[entry.id] != []
       && var rounds := w.history[entry.id];
          w' == w.(tasks := w.tasks[task := InFlight(entry, rest)],
                   history := w.history[entry.id := WithLast(rounds, LastRound(rounds) + [Running(w.nowMs)])])
  }

  ghost predicate EndsSend(w: World, task: TaskId, result: SendResult, w': World) {
    && task in w.tasks && w.tasks[task].InFlight? && ClockInRange(w.nowMs)
    && var InFlight(entry, rest) := w.tasks[task];
       && entry.id in w.history && w.history[entry.id] != [] && LastRound(w.history[entry.id]) != []
       && var rounds := w.history[entry.id];
          var round := LastRound(rounds);
          var last := |round| - 1;
          var next := Stamp(Now(w) + Backoff(entry.row.attemptCount));
          w' == w.(tasks := w.tasks[task := Finished(entry, rest, OutcomeOf(result, entry.row.attemptCount, next))],
                   history := w.history[entry.id :=
                     WithLast(rounds, round[last := Done(round[last].started, w.nowMs, VerdictOf(result))])])
  }

  /** The status write of a finished entry, or its loss. */
  ghost predicate WritesBack(w: World, task: TaskId, applied: bool, w': World) {
    && task in w.tasks && w.tasks[task].Finished?
    && var Finished(entry, rest, outcome) := w.tasks[task];
       w' == w.(rows := if applied then Written(w.rows, entry.id, outcome) else w.rows,
                tasks := w.tasks[task := Draining(rest)])
  }

  ghost predicate EndsRound(w: World, task: TaskId, w': World) {
    task in w.tasks && w.tasks[task] == Draining([]) && w' == w.(tasks := w.tasks[task := Waiting])
  }

  /** Idle timeout or panic. */
  ghost predicate EndsTask(w: World, task: TaskId, w': World) {
    task in w.tasks && w' == w.(tasks := w.tasks - {task})
  }

  ghost predicate Crashes(w: World, w': World) {
    w' == w.(tasks := map[], current := None, cancels := {})
  }

  ghost predicate Steps(w: World, step: Step, w': World) {
    match step
    case Tick(nowMs) => Ticks(w, nowMs, w')
    case EnqueueEntry(id, job, sendAfter) => Enqueues(w, id, job, sendAfter, w')
    case RequeueEntry(id, sendAfter) => Requeues(w, id, sendAfter, w')
    case CancelCheck(id) => ChecksCancel(w, id, w')
    case CancelDelete(id) => DeletesCancelled(w, id, w')
    case EnsureWorker(spawned) => EnsuresWorker(w, spawned, w')
    case TakeDue(task, asOf, due) => TakesDue(w, task, asOf, due, w')
    case MarkEntry(task, applied, reported) => MarksEntry(w, task, applied, reported, w')
    case StartSend(task) => StartsSend(w, task, w')
    case EndSend(task, result) => EndsSend(w, task, result, w')
    case WriteBack(task, applied) => WritesBack(w, task, applied, w')
    case EndRound(task) => EndsRound(w, task, w')
    case EndTask(task) => EndsTask(w, task, w')
    case Crash => Crashes(w, w')
  }

  ghost predicate Init(w: World) {
    ClockInRange(w.nowMs) && w == World(w.nowMs, map[], map[], None, {}, map[])
  }

  ghost predicate Next(w: World, w': World) {
    exists step :: Steps(w, step, w')
  }

  /** A finite run from the empty outbox. */
  ghost predicate IsRun(run: seq<World>) {
    run != [] && Init(run[0]) && forall i :: 0 <= i < |run| - 1 ==> Next(run[i], run[i + 1])
  }

  // ----- Safety of a history -----

  predicate IsFailure(t: Trial) {
    t.Done? && !t.verdict.Accepted?
  }

  /** A failure that may be followed by another attempt. */
  predicate IsTransient(t: Trial) {
    t.Done? && t.verdict.Transient?
  }

  predicate AllTransient(round: seq<Trial>) {
    forall i :: 0 <= i < |round| ==> IsTransient(round[i])
  }

  predicate AllFailed(round: seq<Trial>) {
    forall i :: 0 <= i < |round| ==> IsFailure(round[i])
  }

  /** Attempt `j` starts a full backoff after the transient failure before it, in whole-second clock readings. */
  predicate Follows(round: seq<Trial>, i: int, j: int)
    requires 0 <= i < |round| && 0 <= j < |round|
  {
    IsTransient(round[i]) && Seconds(round[i].ended) + Backoff(i) <= Seconds(round[j].started)
  }

  predicate Spaced(round: seq<Trial>) {
    && (forall i, j :: 0 <= i && j == i + 1 < |round| ==> Follows(round, i, j))
    && (forall i :: 0 <= i < |round| && round[i].Done? ==> round[i].started <= round[i].ended)
  }

  /** Every attempt but possibly the very last is a known failure. */
  predicate OnlyLastMayDeliver(rounds: seq<seq<Trial>>) {
    && (forall r :: 0 <= r < |rounds| - 1 ==> AllFailed(rounds[r]))
    && (rounds != [] ==> forall i :: 0 <= i < |LastRound(rounds)| - 1 ==> IsFailure(LastRound(rounds)[i]))
  }

  predicate SafeHistory(rounds: seq<seq<Trial>>) {
    && rounds != []
    && OnlyLastMayDeliver(rounds)
    && (forall r :: 0 <= r < |rounds| ==> |rounds[r]| <= MAX_ATTEMPTS && Spaced(rounds[r]))
  }

  // ----- The invariant -----

  /** The timestamp is not reached before second `t`. */
  ghost predicate NotBefore(sendAfter: string, t: int) {
    forall now :: Representable(now) && TextLessEq(sendAfter, Stamp(now)) ==> t <= now
  }

  lemma StampNotBefore(t: int)
    requires Representable(t)
    ensures NotBefore(Stamp(t), t)
  {
    forall now | Representable(now) && TextLessEq(Stamp(t), Stamp(now)) ensures t <= now {
      StampOrder(t, now);
    }
  }

  /** All attempts of the last round failed transiently, and there were `count` of them. */
  predicate FailedSoFar(rounds: seq<seq<Trial>>, count: int) {
    rounds != [] && AllTransient(LastRound(rounds)) && |LastRound(rounds)| == count
  }

  /** The earliest second at which the next attempt of the round may start. */
  function RoundDeadline(round: seq<Trial>): int
    requires round != [] && AllTransient(round)
  {
    Seconds(round[|round| - 1].ended) + Backoff(|round| - 1)
  }

  ghost predicate MayStartAfter(rounds: seq<seq<Trial>>, count: int, sendAfter: string) {
    && FailedSoFar(rounds, count) && count < MAX_ATTEMPTS
    && (count > 0 ==> NotBefore(sendAfter, RoundDeadline(LastRound(rounds))))
  }

  predicate MayStartNow(rounds: seq<seq<Trial>>, count: int, now: int) {
    && FailedSoFar(rounds, count) && count < MAX_ATTEMPTS
    && (count > 0 ==> RoundDeadline(LastRound(rounds)) <= now)
  }

  /** What the table says about an entry agrees with what happened to it. */
  ghost predicate RowAgrees(row: Row, rounds: seq<seq<Trial>>) {
    match row.state
    case Scheduled => MayStartAfter(rounds, row.attemptCount, row.sendAfter)
    case Failed => rounds != [] && AllFailed(LastRound(rounds))
    case Sending => true
  }

  /** A snapshot entry not yet picked up: its row is untouched or gone. */
  predicate Pending(w: World, e: Entry) {
    && e.id in w.history && MayStartNow(w.history[e.id], e.row.attemptCount, Now(w))
    && e.row.state == Scheduled
    && (e.id in w.rows ==> w.rows[e.id] == e.row)
  }

  /** The entry being processed: its row says so or is gone. */
  predicate RowHeld(w: World, e: Entry) {
    && e.id in w.history
    && (e.id in w.rows ==> w.rows[e.id].state == Sending && w.rows[e.id].attemptCount == e.row.attemptCount)
  }

  ghost predicate OutcomeAgrees(rounds: seq<seq<Trial>>, count: int, outcome: Outcome) {
    match outcome
    case Delivered => true
    case Retry(next, _) => MayStartAfter(rounds, count + 1, next)
    case GiveUp(_) => rounds != [] && AllFailed(LastRound(rounds))
  }

  ghost predicate AllPending(w: World, entries: seq<Entry>) {
    DistinctIds(entries) && forall e :: e in entries ==> Pending(w, e)
  }

  ghost predicate Holds(w: World, e: Entry, rest: seq<Entry>) {
    RowHeld(w, e) && AllPending(w, rest) && forall x :: x in rest ==> x.id != e.id
  }

  ghost predicate PhaseInv(w: World, phase: Phase) {
    match phase
    case Waiting => true
    case Draining(due) => AllPending(w, due)
    case Marked(e, rest) =>
      Holds(w, e, rest) && MayStartNow(w.history[e.id], e.row.attemptCount, Now(w))
    case InFlight(e, rest) =>
      && Holds(w, e, rest)
      && var rounds := w.history[e.id];
         rounds != [] && |LastRound(rounds)| == e.row.attemptCount + 1 && e.row.attemptCount < MAX_ATTEMPTS
         && 0 <= e.row.attemptCount && LastRound(rounds)[e.row.attemptCount].started <= w.nowMs
    case Finished(e, rest, outcome) =>
      Holds(w, e, rest) && OutcomeAgrees(w.history[e.id], e.row.attemptCount, outcome)
  }

  ghost predicate Inv(w: World) {
    && ClockInRange(w.nowMs)
    && (forall t :: t in w.tasks ==> w.current == Some(t))
    && (forall id :: id in w.rows ==> id in w.history && RowAgrees(w.rows[id], w.history[id]))
    && (forall id :: id in w.history ==> SafeHistory(w.history[id]))
    && (forall t :: t in w.tasks ==> PhaseInv(w, w.tasks[t]))
  }

  // ----- Every step keeps the invariant -----

  /** Nothing that matters to a task processing `id` has changed, except that its row may be gone. */
  predicate Untouched(w: World, w': World, id: Id) {
    && (id in w.history ==> id in w'.history && w'.history[id] == w.history[id])
    && (id in w'.rows ==> id in w.rows && w'.rows[id] == w.rows[id])
  }

  function IdsIn(entries: seq<Entry>): set<Id> {
    set i | 0 <= i < |entries| :: entries[i].id
  }

  function PhaseIds(phase: Phase): set<Id> {
    match phase
    case Waiting => {}
    case Draining(due) => IdsIn(due)
    case Marked(e, rest) => {e.id} + IdsIn(rest)
    case InFlight(e, rest) => {e.id} + IdsIn(rest)
    case Finished(e, rest, _) => {e.id} + IdsIn(rest)
  }

  lemma PendingFrame(w: World, w': World, entries: seq<Entry>)
    requires AllPending(w, entries) && w.nowMs <= w'.nowMs
    requires forall id :: id in IdsIn(entries) ==> Untouched(w, w', id)
    ensures AllPending(w', entries)
  {
    forall e | e in entries ensures Pending(w', e) {
      assert e.id in IdsIn(entries);
      assert Pending(w, e) && Untouched(w, w', e.id);
    }
  }

  /** A task's assertions survive steps that leave its entries alone and let time pass. */
  lemma PhaseFrame(w: World, w': World, phase: Phase)
    requires PhaseInv(w, phase) && w.nowMs <= w'.nowMs
    requires forall id :: id in PhaseIds(phase) ==> Untouched(w, w', id)
    ensures PhaseInv(w', phase)
  {
    match phase
    case Waiting =>
    case Draining(due) =>
      PendingFrame(w, w', due);
    case Marked(e, rest) =>
      assert Untouched(w, w', e.id);
      PendingFrame(w, w', rest);
    case InFlight(e, rest) =>
      assert Untouched(w, w', e.id);
      PendingFrame(w, w', rest);
    case Finished(e, rest, _) =>
      assert Untouched(w, w', e.id);
      PendingFrame(w, w', rest);
  }

  /** The entries of a task are known, and none of their rows is marked failed. */
  lemma PhaseIdsAreKnown(w: World, phase: Phase, id: Id)
    requires PhaseInv(w, phase) && id in PhaseIds(phase)
    ensures id in w.history && (id in w.rows ==> w.rows[id].state != Failed)
  {
    var rest := match phase
      case Waiting => []
      case Draining(due) => due
      case Marked(_, rest) => rest
      case InFlight(_, rest) => rest
      case Finished(_, rest, _) => rest;
    if id in IdsIn(rest) {
      var i :| 0 <= i < |rest| && rest[i].id == id;
      assert rest[i] in rest;
      assert Pending(w, rest[i]);
    }
  }

  lemma TickKeepsInv(w: World, nowMs: int, w': World)
    requires Inv(w) && Ticks(w, nowMs, w')
    ensures Inv(w')
  {
    forall t | t in w'.tasks ensures PhaseInv(w', w'.tasks[t]) {
      PhaseFrame(w, w', w.tasks[t]);
    }
  }

  lemma EnqueueKeepsInv(w: World, id: Id, job: string, sendAfter: string, w': World)
    requires Inv(w) && Enqueues(w, id, job, sendAfter, w')
    ensures Inv(w')
  {
    forall t | t in w'.tasks ensures PhaseInv(w', w'.tasks[t]) {
      forall x | x in PhaseIds(w.tasks[t]) ensures Untouched(w, w', x) {
        PhaseIdsAreKnown(w, w.tasks[t], x);
      }
      PhaseFrame(w, w', w.tasks[t]);
    }
  }

  lemma NewRound(rounds: seq<seq<Trial>>)
    requires SafeHistory(rounds) && AllFailed(LastRound(rounds))
    ensures SafeHistory(rounds + [[]]) && LastRound(rounds + [[]]) == []
  {
    forall r | 0 <= r < |rounds| ensures AllFailed((rounds + [[]])[r]) && Spaced((rounds + [[]])[r]) {
      assert (rounds + [[]])[r] == rounds[r];
    }
  }

  lemma NewRowAgrees(row: Row, rounds: seq<seq<Trial>>)
    requires row.state == Scheduled && row.attemptCount == 0 && rounds != [] && LastRound(rounds) == []
    ensures RowAgrees(row, rounds)
  {
  }

  lemma RequeueKeepsInv(w: World, id: Id, sendAfter: string, w': World)
    requires Inv(w) && Requeues(w, id, sendAfter, w')
    ensures Inv(w')
  {
    hide Stamp, NotBefore, MayStartAfter, SafeHistory, PhaseInv, AllFailed, LastRound;
    if w' != w {
      NewRound(w.history[id]);
      NewRowAgrees(w'.rows[id], w'.history[id]);
      hide RowAgrees;
      forall t | t in w'.tasks ensures PhaseInv(w', w'.tasks[t]) {
        forall x | x in PhaseIds(w.tasks[t]) ensures Untouched(w, w', x) {
          PhaseIdsAreKnown(w, w.tasks[t], x);
        }
        PhaseFrame(w, w', w.tasks[t]);
      }
    }
  }

  lemma CancelKeepsInv(w: World, id: Id, w': World)
    requires Inv(w) && (ChecksCancel(w, id, w') || DeletesCancelled(w, id, w'))
    ensures Inv(w')
  {
    forall t | t in w'.tasks ensures PhaseInv(w', w'.tasks[t]) {
      PhaseFrame(w, w', w.tasks[t]);
    }
  }

  /** Steps that only start, end or idle a task. */
  lemma TaskSetKeepsInv(w: World, w': World)
    requires Inv(w)
    requires w'.nowMs == w.nowMs && w'.rows == w.rows && w'.history == w.history
    requires forall t :: t in w'.tasks ==> w'.current == Some(t)
    requires forall t :: t in w'.tasks ==> w'.tasks[t] == Waiting || (t in w.tasks && w'.tasks[t] == w.tasks[t])
    ensures Inv(w')
  {
    forall t | t in w'.tasks ensures PhaseInv(w', w'.tasks[t]) {
      if w'.tasks[t] != Waiting {
        PhaseFrame(w, w', w.tasks[t]);
      }
    }
  }

  lemma TakeDueKeepsInv(w: World, task: TaskId, asOf: int, due: seq<Entry>, w': World)
    requires Inv(w) && TakesDue(w, task, asOf, due, w')
    ensures Inv(w')
  {
    forall e | e in due ensures Pending(w', e) {
      assert e.id in w.rows && RowAgrees(w.rows[e.id], w.history[e.id]);
    }
  }

  lemma FirstAndRest(w: World, due: seq<Entry>)
    requires AllPending(w, due) && due != []
    ensures Pending(w, due[0]) && AllPending(w, due[1..])
    ensures due[0].id !in IdsIn(due[1..])
  {
    assert due[0] in due;
    forall e | e in due[1..] ensures Pending(w, e) {
      assert e in due;
    }
    forall i, j | 0 <= i < j < |due[1..]| ensures due[1..][i].id != due[1..][j].id {
      assert due[i + 1].id != due[j + 1].id;
    }
    forall i | 0 <= i < |due[1..]| ensures due[1..][i].id != due[0].id {
      assert due[i + 1].id != due[0].id;
    }
  }

  lemma HeldIdNotInRest(w: World, e: Entry, rest: seq<Entry>)
    ensures (forall x :: x in rest ==> x.id != e.id) <==> e.id !in IdsIn(rest)
  {
  }

  lemma MarkEntryKeepsInv(w: World, task: TaskId, applied: bool, reported: bool, w': World)
    requires Inv(w) && MarksEntry(w, task, applied, reported, w')
    ensures Inv(w')
  {
    var due := w.tasks[task].due;
    var entry, rest := due[0], due[1..];
    assert PhaseInv(w, w.tasks[task]);
    FirstAndRest(w, due);
    forall id | id in IdsIn(rest) ensures Untouched(w, w', id) {}
    PendingFrame(w, w', rest);
    HeldIdNotInRest(w, entry, rest);
    assert RowHeld(w', entry) || !applied;
    assert PhaseInv(w', w'.tasks[task]);
  }

  lemma ExtendHistory(rounds: seq<seq<Trial>>, count: int, nowMs: int)
    requires SafeHistory(rounds) && MayStartNow(rounds, count, Seconds(nowMs))
    ensures SafeHistory(WithLast(rounds, LastRound(rounds) + [Running(nowMs)]))
  {
    var round := LastRound(rounds);
    var extended := round + [Running(nowMs)];
    var rounds' := WithLast(rounds, extended);
    assert Spaced(round);
    forall i, j | 0 <= i && j == i + 1 < |extended|
      ensures Follows(extended, i, j)
    {
      assert j < |round| ==> Follows(round, i, j);
    }
    forall r | 0 <= r < |rounds'| ensures |rounds'[r]| <= MAX_ATTEMPTS && Spaced(rounds'[r]) {
      assert r < |rounds| - 1 ==> rounds'[r] == rounds[r];
    }
  }

  lemma StartSendKeepsInv(w: World, task: TaskId, w': World)
    requires Inv(w) && StartsSend(w, task, w')
    ensures Inv(w')
  {
    var Marked(entry, rest) := w.tasks[task];
    assert PhaseInv(w, w.tasks[task]);
    ExtendHistory(w.history[entry.id], entry.row.attemptCount, w.nowMs);
    HeldIdNotInRest(w, entry, rest);
    forall id | id in IdsIn(rest) ensures Untouched(w, w', id) {}
    PendingFrame(w, w', rest);
    assert PhaseInv(w', w'.tasks[task]);
  }

  lemma CloseHistory(rounds: seq<seq<Trial>>, nowMs: int, verdict: Verdict)
    requires SafeHistory(rounds) && LastRound(rounds) != []
    requires LastRound(rounds)[|LastRound(rounds)| - 1].started <= nowMs
    ensures var round := LastRound(rounds);
            var last := |round| - 1;
            var rounds' := WithLast(rounds, round[last := Done(round[last].started, nowMs, verdict)]);
            && SafeHistory(rounds')
            && (!verdict.Accepted? ==> AllFailed(LastRound(rounds')))
            && (verdict.Transient? ==> AllTransient(LastRound(rounds')))
  {
    var round := LastRound(rounds);
    var last := |round| - 1;
    var closed := round[last := Done(round[last].started, nowMs, verdict)];
    var rounds' := WithLast(rounds, closed);
    assert Spaced(round);
    forall i, j | 0 <= i && j == i + 1 < |closed|
      ensures Follows(closed, i, j)
    {
      assert Follows(round, i, j);
    }
    forall i | 0 <= i < last ensures IsTransient(closed[i]) {
      assert Follows(round, i, i + 1);
    }
    forall r | 0 <= r < |rounds'| ensures |rounds'[r]| <= MAX_ATTEMPTS && Spaced(rounds'[r]) {
      assert r < |rounds| - 1 ==> rounds'[r] == rounds[r];
    }
  }

  lemma ClosedOutcomeAgrees(
    rounds: seq<seq<Trial>>, count: int, nowMs: int, result: SendResult, next: string)
    requires SafeHistory(rounds) && |LastRound(rounds)| == count + 1 && 0 <= count < MAX_ATTEMPTS
    requires LastRound(rounds)[count].started <= nowMs
    requires NotBefore(next, Seconds(nowMs) + Backoff(count))
    ensures var round := LastRound(rounds);
            var rounds' := WithLast(rounds, round[count := Done(round[count].started, nowMs, VerdictOf(result))]);
            SafeHistory(rounds') && OutcomeAgrees(rounds', count, OutcomeOf(result, count, next))
  {
    hide Stamp;
    CloseHistory(rounds, nowMs, VerdictOf(result));
    var round := LastRound(rounds);
    var closed := round[count := Done(round[count].started, nowMs, VerdictOf(result))];
    var rounds' := WithLast(rounds, closed);
    assert LastRound(rounds') == closed && |closed| == count + 1;
    if result.Refused? && result.retryable {
      assert AllTransient(closed);
      assert RoundDeadline(closed) == Seconds(nowMs) + Backoff(count);
    }
  }

  lemma EndSendKeepsInv(w: World, task: TaskId, result: SendResult, w': World)
    requires Inv(w) && EndsSend(w, task, result, w')
    ensures Inv(w')
  {
    hide Stamp, NotBefore;
    var InFlight(entry, rest) := w.tasks[task];
    assert PhaseInv(w, w.tasks[task]);
    var count := entry.row.attemptCount;
    StampNotBefore(Now(w) + Backoff(count));
    ClosedOutcomeAgrees(w.history[entry.id], count, w.nowMs, result, Stamp(Now(w) + Backoff(count)));
    HeldIdNotInRest(w, entry, rest);
    forall id | id in IdsIn(rest) ensures Untouched(w, w', id) {}
    PendingFrame(w, w', rest);
    assert PhaseInv(w', w'.tasks[task]);
  }

  lemma WriteBackKeepsInv(w: World, task: TaskId, applied: bool, w': World)
    requires Inv(w) && WritesBack(w, task, applied, w')
    ensures Inv(w')
  {
    hide Stamp, NotBefore;
    var Finished(entry, rest, outcome) := w.tasks[task];
    assert PhaseInv(w, w.tasks[task]);
    HeldIdNotInRest(w, entry, rest);
    forall id | id in IdsIn(rest) ensures Untouched(w, w', id) {}
    PendingFrame(w, w', rest);
    assert PhaseInv(w', w'.tasks[task]);
  }

  lemma StepKeepsInv(w: World, step: Step, w': World)
    requires Inv(w) && Steps(w, step, w')
    ensures Inv(w')
  {
    match step
    case Tick(nowMs) => TickKeepsInv(w, nowMs, w');
    case EnqueueEntry(id, job, sendAfter) => EnqueueKeepsInv(w, id, job, sendAfter, w');
    case RequeueEntry(id, sendAfter) => RequeueKeepsInv(w, id, sendAfter, w');
    case CancelCheck(id) => CancelKeepsInv(w, id, w');
    case CancelDelete(id) => CancelKeepsInv(w, id, w');
    case EnsureWorker(spawned) => TaskSetKeepsInv(w, w');
    case TakeDue(task, asOf, due) => TakeDueKeepsInv(w, task, asOf, due, w');
    case MarkEntry(task, applied, reported) => MarkEntryKeepsInv(w, task, applied, reported, w');
    case StartSend(task) => StartSendKeepsInv(w, task, w');
    case EndSend(task, result) => EndSendKeepsInv(w, task, result, w');
    case WriteBack(task, applied) => WriteBackKeepsInv(w, task, applied, w');
    case EndRound(task) => TaskSetKeepsInv(w, w');
    case EndTask(task) => TaskSetKeepsInv(w, w');
    case Crash => TaskSetKeepsInv(w, w');
  }

  /** Every world of every run satisfies the invariant. */
  lemma {:induction false} RunKeepsInv(run: seq<World>, i: nat)
    requires IsRun(run) && i < |run|
    ensures Inv(run[i])
  {
    if i > 0 {
      RunKeepsInv(run, i - 1);
      assert Next(run[i - 1], run[i]);
      var step :| Steps(run[i - 1], step, run[i]);
      StepKeepsInv(run[i - 1], step, run[i]);
    }
  }

  // ----- What single steps decide -----

  /** The entry a send is under way for. */
  ghost predicate IsSending(w: World, task: TaskId, e: Entry) {
    task in w.tasks && w.tasks[task].InFlight? && w.tasks[task].entry == e
  }

  /**
    A finished send, written back, decides the row: gone if it was delivered; scheduled again, a backoff later, exactly
    after a refusal worth retrying before the fifth attempt; failed with the reason after every other refusal.
   */
  lemma FinishedSendDecidesRow(w: World, task: TaskId, e: Entry, result: SendResult, w1: World, w2: World)
    requires Inv(w) && IsSending(w, task, e) && e.id in w.rows
    requires Steps(w, EndSend(task, result), w1) && Steps(w1, WriteBack(task, true), w2)
    ensures result == Sent <==> e.id !in w2.rows
    ensures result.Refused? ==>
              var before, now := w.rows[e.id], w2.rows[e.id];
              && (now.state == Scheduled <==> result.retryable && before.attemptCount < 4)
              && (now.state == Scheduled ==>
                    && now.attemptCount == before.attemptCount + 1
                    && now.sendAfter == Stamp(Now(w) + Backoff(before.attemptCount)))
              && (now.state != Scheduled ==>
                    now.state == Failed && now.attemptCount == before.attemptCount && now.sendAfter == before.sendAfter)
              && now.failReason == Some(result.reason) && now.job == before.job
    ensures OthersKept(w.rows, w2.rows, e.id)
  {
    hide Stamp, Backoff, NotBefore, RowAgrees, SafeHistory, AllPending, OutcomeAgrees, MayStartAfter;
    assert PhaseInv(w, w.tasks[task]);
    assert RowHeld(w, e);
    hide Inv, PhaseInv, WithLast;
  }

  /** After a worker is ensured one is running, and a running one is left alone. */
  lemma EnsuredWorkerRuns(w: World, spawned: TaskId, w': World)
    requires Inv(w) && Steps(w, EnsureWorker(spawned), w')
    ensures exists task :: task in w'.tasks && w'.tasks.Keys == {task}
    ensures w.tasks != map[] ==> w' == w
  {
    var task := w'.current.value;
    assert task in w'.tasks;
    forall t | t in w'.tasks ensures t == task {
      assert t in w.tasks ==> w.current == Some(t);
    }
    assert w'.tasks.Keys == {task};
    if w.tasks != map[] {
      var t :| t in w.tasks;
    }
  }

  /** A send that starts, and ends at a later moment, leaves one more trial in the last round of its entry. */
  lemma SendLeavesOneTrial(w: World, task: TaskId, result: SendResult, ms: int, w1: World, w2: World, w3: World)
    requires Steps(w, StartSend(task), w1) && Steps(w1, Tick(ms), w2) && Steps(w2, EndSend(task, result), w3)
    ensures var id := w.tasks[task].entry.id;
            var verdict := if result == Sent then Accepted else if result.retryable then Transient else Permanent;
            && LastRound(w3.history[id]) == LastRound(w.history[id]) + [Done(w.nowMs, ms, verdict)]
            && |w3.history[id]| == |w.history[id]|
            && (forall r :: 0 <= r < |w.history[id]| - 1 ==> w3.history[id][r] == w.history[id][r])
            && w3.rows == w.rows && forall other :: other != id && other in w.history ==>
                 other in w3.history && w3.history[other] == w.history[other]
  {
    hide Stamp, Backoff, OutcomeOf;
    var id := w.tasks[task].entry.id;
    var round := LastRound(w.history[id]);
    assert LastRound(w2.history[id]) == round + [Running(w.nowMs)];
  }

  /** While a send is under way its entry cannot be marked for cancelling. */
  lemma InFlightCannotBeCancelled(w: World, task: TaskId, e: Entry, w': World)
    requires Inv(w) && IsSending(w, task, e)
    ensures !Steps(w, CancelCheck(e.id), w')
  {
    hide RowAgrees, SafeHistory, AllPending;
    assert PhaseInv(w, w.tasks[task]);
    assert RowHeld(w, e);
  }

  /** A cancel whose delete runs removes the entry from the table, and only it. */
  lemma CancelRemovesRow(w: World, id: Id, w': World)
    requires Steps(w, CancelDelete(id), w')
    ensures id !in w'.rows && OthersKept(w.rows, w'.rows, id)
  {
  }

  /** The delay starts at 30 seconds and doubles with every failure, up to half an hour. */
  lemma BackoffDoubles(n: int)
    ensures n <= 0 ==> Backoff(n) == 30
    ensures n >= 0 ==> Backoff(n + 1) == if 2 * Backoff(n) < 1800 then 2 * Backoff(n) else 1800
  {
  }

  // ----- Safety over whole runs -----

  /** At no point of any run do two worker tasks of the user exist, however often a worker is ensured. */
  lemma AtMostOneWorker(run: seq<World>, i: nat, s: TaskId, t: TaskId)
    requires IsRun(run) && i < |run| && s in run[i].tasks && t in run[i].tasks
    ensures s == t
  {
    RunKeepsInv(run, i);
  }

  /**
    Attempts in a list of rounds that may have delivered: all but the known failures. An attempt cut off by a crash
    counts, since the mail may have gone out before it.
   */
  function Deliveries(rounds: seq<seq<Trial>>): nat {
    if rounds == [] then 0 else RoundDeliveries(rounds[0]) + Deliveries(rounds[1..])
  }

  function RoundDeliveries(round: seq<Trial>): nat {
    if round == [] then 0 else (if IsFailure(round[0]) then 0 else 1) + RoundDeliveries(round[1..])
  }

  lemma {:induction false} RoundDeliversOnce(round: seq<Trial>)
    requires forall i :: 0 <= i < |round| - 1 ==> IsFailure(round[i])
    ensures RoundDeliveries(round) <= 1
    ensures AllFailed(round) ==> RoundDeliveries(round) == 0
  {
    if round != [] {
      assert forall i :: 0 <= i < |round[1..]| ==> round[1..][i] == round[i + 1];
      assert |round| > 1 ==> IsFailure(round[0]);
      RoundDeliversOnce(round[1..]);
    }
  }

  lemma {:induction false} DeliversOnce(rounds: seq<seq<Trial>>)
    requires OnlyLastMayDeliver(rounds)
    ensures Deliveries(rounds) <= 1
  {
    if rounds != [] {
      var rest := rounds[1..];
      assert forall r :: 0 <= r < |rest| ==> rest[r] == rounds[r + 1];
      if rest == [] {
        assert LastRound(rounds) == rounds[0];
        RoundDeliversOnce(rounds[0]);
      } else {
        assert LastRound(rest) == LastRound(rounds);
        assert AllFailed(rounds[0]);
        RoundDeliversOnce(rounds[0]);
        DeliversOnce(rest);
      }
    }
  }

  /**
    Over any run, at most one attempt of an entry is not known to have failed, across all its retries, requeues and
    crashes in mid-send: no mail goes out twice.
   */
  lemma SentAtMostOnce(run: seq<World>, i: nat, id: Id)
    requires IsRun(run) && i < |run| && id in run[i].history
    ensures Deliveries(run[i].history[id]) <= 1
  {
    RunKeepsInv(run, i);
    DeliversOnce(run[i].history[id]);
  }

  /** Over any run, each enqueue or requeue leads to at most five attempts, each a backoff after the one before. */
  lemma AttemptsAreBoundedAndSpaced(run: seq<World>, i: nat, id: Id, r: nat)
    requires IsRun(run) && i < |run| && id in run[i].history && r < |run[i].history[id]|
    ensures |run[i].history[id][r]| <= 5 && Spaced(run[i].history[id][r])
  {
    RunKeepsInv(run, i);
  }

  /** Over any run, a permanent refusal is the last attempt of its round. */
  lemma PermanentRefusalIsLast(run: seq<World>, i: nat, id: Id, r: nat, k: nat)
    requires IsRun(run) && i < |run| && id in run[i].history && r < |run[i].history[id]|
    requires k < |run[i].history[id][r]| && run[i].history[id][r][k].Done?
    requires run[i].history[id][r][k].verdict == Permanent
    ensures k == |run[i].history[id][r]| - 1
  {
    AttemptsAreBoundedAndSpaced(run, i, id, r);
    assert k + 1 < |run[i].history[id][r]| ==> Follows(run[i].history[id][r], k, k + 1);
  }

  /** Five attempts of one round span at least 30 + 60 + 120 + 240 seconds of clock readings. */
  lemma FiveAttemptsSpan450Seconds(run: seq<World>, i: nat, id: Id, r: nat)
    requires IsRun(run) && i < |run| && id in run[i].history && r < |run[i].history[id]|
    requires |run[i].history[id][r]| == 5
    ensures var round := run[i].history[id][r]; Seconds(round[4].started) - Seconds(round[0].started) >= 450
  {
    AttemptsAreBoundedAndSpaced(run, i, id, r);
    FiveSpacedAttempts(run[i].history[id][r]);
  }

  lemma FiveSpacedAttempts(round: seq<Trial>)
    requires |round| == 5 && Spaced(round)
    ensures Seconds(round[4].started) - Seconds(round[0].started) >= 450
  {
    assert Follows(round, 0, 1) && Follows(round, 1, 2) && Follows(round, 2, 3) && Follows(round, 3, 4);
  }

  /** At millisecond `ms` the worker sees a row with the given deadline as due. */
  ghost predicate DueAt(deadline: int, ms: int)
    requires Representable(deadline)
  {
    Representable(Seconds(ms)) && TextLessEq(Stamp(deadline), Stamp(Seconds(ms)))
  }

  /**
    Deadlines drop the fraction of a second. A retry is sure to wait out the full backoff in real time
    exactly when the failed attempt ended on a whole second; otherwise it may start early.
   */
  lemma FullBackoffIffWholeSecond(ended: int, backoff: int, deadline: int)
    requires 30 <= backoff <= 1800 && ClockInRange(ended) && deadline == Seconds(ended) + backoff
    ensures (forall started :: DueAt(deadline, started) ==> backoff * 1000 <= started - ended) <==>
            ended % 1000 == 0
  {
    hide Stamp;
    forall started | Representable(Seconds(started))
      ensures DueAt(deadline, started) <==> deadline * 1000 <= started
    {
      StampOrder(deadline, Seconds(started));
    }
    var earliest := deadline * 1000;
    assert Seconds(earliest) == deadline;
    assert DueAt(deadline, earliest);
  }

  /** In real time a retry starts less than one second early at most. */
  lemma BackoffFallsShortByLessThanASecond(round: seq<Trial>, i: nat)
    requires Spaced(round) && i + 1 < |round|
    ensures round[i].Done? && round[i + 1].started - round[i].ended > (Backoff(i) - 1) * 1000
  {
    assert Follows(round, i, i + 1);
  }
}
