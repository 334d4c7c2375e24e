/** A run in which a retry starts before its backoff is over in real time. */
module OutboxEarlyRetry {
  import opened Calendar
  import opened Timestamps
  import opened Wrappers
  import opened Outbox
  import opened OutboxProtocol

  const REASON := "busy"

  ghost predicate Reachable(w: World) {
    exists run :: EndsAt(run, w)
  }

  ghost predicate EndsAt(run: seq<World>, w: World) {
    IsRun(run) && run[|run| - 1] == w
  }

  lemma ReachStep(w: World, step: Step, w': World)
    requires Reachable(w) && Steps(w, step, w')
    ensures Reachable(w')
  {
    hide Init, Steps;
    var run :| EndsAt(run, w);
    assert Next(w, w');
    var longer := run + [w'];
    forall i | 0 <= i < |longer| - 1 ensures Next(longer[i], longer[i + 1]) {
      if i + 1 < |run| {
        assert longer[i] == run[i] && longer[i + 1] == run[i + 1];
      } else {
        assert longer[i] == w && longer[i + 1] == w';
      }
    }
    assert EndsAt(longer, w');
  }

  // ----- Worlds with one entry and one worker -----

  /** The worker waits between rounds. */
  function Idle(nowMs: int, id: Id, row: Row, round: seq<Trial>): World {
    World(nowMs, map[id := row], map[0 := Waiting], Some(0), {}, map[id := [round]])
  }

  /** The worker has just started a send. */
  function Busy(nowMs: int, id: Id, row: Row, round: seq<Trial>): World {
    World(nowMs, map[id := row.(state := Sending)], map[0 := InFlight(Entry(id, row), [])], Some(0), {},
          map[id := [round + [Running(nowMs)]]])
  }

  /** The row after a refused attempt made at `nowMs`. */
  ghost function Retried(row: Row, nowMs: int): Row
    requires ClockInRange(nowMs)
  {
    row.(state := Scheduled, sendAfter := Stamp(Seconds(nowMs) + Backoff(row.attemptCount)),
         attemptCount := row.attemptCount + 1, failReason := Some(REASON))
  }

  lemma OneDue(id: Id, row: Row, now: string)
    requires IsDue(row, now)
    ensures IsDueList(map[id := row], now, [Entry(id, row)])
  {
    hide IsDue;
  }

  lemma OnlyRound(round: seq<Trial>, next: seq<Trial>)
    ensures WithLast([round], next) == [next]
  {
  }

  /** A due entry is taken, marked and sent. */
  lemma Attempt(nowMs: int, id: Id, row: Row, round: seq<Trial>)
    requires Reachable(Idle(nowMs, id, row, round)) && Representable(Seconds(nowMs))
    requires IsDue(row, Stamp(Seconds(nowMs)))
    ensures Reachable(Busy(nowMs, id, row, round))
  {
    hide Reachable, Stamp, IsDueList, TextLessEq;
    var entry := Entry(id, row);
    var w0 := Idle(nowMs, id, row, round);
    var w1 := w0.(tasks := map[0 := Draining([entry])]);
    OneDue(id, row, Stamp(Seconds(nowMs)));
    assert w0.tasks[0 := Draining([entry])] == w1.tasks;
    ReachStep(w0, TakeDue(0, Seconds(nowMs), [entry]), w1);
    var w2 := w1.(rows := map[id := row.(state := Sending)], tasks := map[0 := Marked(entry, [])]);
    assert MarkedSending(w1.rows, id) == w2.rows && w1.tasks[0 := Marked(entry, [])] == w2.tasks;
    assert [entry][1..] == [];
    ReachStep(w1, MarkEntry(0, true, true), w2);
    var w3 := Busy(nowMs, id, row, round);
    assert w2.tasks[0 := InFlight(entry, [])] == w3.tasks;
    OnlyRound(round, round + [Running(nowMs)]);
    assert w2.history[id := WithLast([round], round + [Running(nowMs)])] == w3.history;
    ReachStep(w2, StartSend(0), w3);
  }

  /** The retry decided after a refused attempt. */
  ghost function RetryAfter(row: Row, nowMs: int): Outcome
    requires ClockInRange(nowMs)
  {
    Retry(Stamp(Seconds(nowMs) + Backoff(row.attemptCount)), REASON)
  }

  /** The send has been refused for now. */
  ghost function Turned(nowMs: int, id: Id, row: Row, round: seq<Trial>): World
    requires ClockInRange(nowMs)
  {
    World(nowMs, map[id := row.(state := Sending)], map[0 := Finished(Entry(id, row), [], RetryAfter(row, nowMs))],
          Some(0), {}, map[id := [round + [Done(nowMs, nowMs, Transient)]]])
  }

  lemma Refuse(nowMs: int, id: Id, row: Row, round: seq<Trial>)
    requires Reachable(Busy(nowMs, id, row, round)) && ClockInRange(nowMs)
    requires row.attemptCount + 1 < MAX_ATTEMPTS
    ensures Reachable(Turned(nowMs, id, row, round))
  {
    hide Reachable, Stamp, Backoff;
    var w0, w1 := Busy(nowMs, id, row, round), Turned(nowMs, id, row, round);
    var ended := round + [Done(nowMs, nowMs, Transient)];
    assert w0.tasks[0 := Finished(Entry(id, row), [], RetryAfter(row, nowMs))] == w1.tasks;
    assert (round + [Running(nowMs)])[|round| := Done(nowMs, nowMs, Transient)] == ended;
    OnlyRound(round + [Running(nowMs)], ended);
    assert w0.history[id := WithLast([round + [Running(nowMs)]], ended)] == w1.history;
    ReachStep(w0, EndSend(0, Refused(true, REASON)), w1);
  }

  /** The retry is written back, and the round ends. */
  lemma Record(nowMs: int, id: Id, row: Row, round: seq<Trial>)
    requires ClockInRange(nowMs) && Reachable(Turned(nowMs, id, row, round))
    ensures Reachable(Idle(nowMs, id, Retried(row, nowMs), round + [Done(nowMs, nowMs, Transient)]))
  {
    hide Reachable, Stamp, Backoff;
    var w1 := Turned(nowMs, id, row, round);
    var w2 := w1.(rows := map[id := Retried(row, nowMs)], tasks := map[0 := Draining([])]);
    assert Written(w1.rows, id, RetryAfter(row, nowMs)) == w2.rows && w1.tasks[0 := Draining([])] == w2.tasks;
    ReachStep(w1, WriteBack(0, true), w2);
    var w3 := Idle(nowMs, id, Retried(row, nowMs), round + [Done(nowMs, nowMs, Transient)]);
    assert w2.tasks[0 := Waiting] == w3.tasks;
    ReachStep(w2, EndRound(0), w3);
  }

  /** An entry due at once, and a worker for it. */
  lemma Begin(nowMs: int, id: Id, job: string, sendAfter: string)
    requires ClockInRange(nowMs)
    ensures Reachable(Idle(nowMs, id, Row(job, Scheduled, None, 0, sendAfter), []))
  {
    var w0 := World(nowMs, map[], map[], None, {}, map[]);
    assert EndsAt([w0], w0);
    hide Reachable;
    var row := Row(job, Scheduled, None, 0, sendAfter);
    var w1 := w0.(rows := map[id := row], history := map[id := [[]]]);
    ReachStep(w0, EnqueueEntry(id, job, sendAfter), w1);
    ReachStep(w1, EnsureWorker(0), Idle(nowMs, id, row, []));
  }

  /** A first attempt failed at `ended`, and the second started less than its backoff later. */
  predicate RetriedEarly(w: World, id: Id, ended: int) {
    && id in w.history && |w.history[id]| == 1 && |w.history[id][0]| == 2
    && w.history[id][0][0] == Done(ended, ended, Transient)
    && w.history[id][0][1].started - ended < Backoff(0) * 1000
  }

  /** Whenever a first attempt fails off the whole second, some run starts its retry early. */
  lemma EarlyRetryIsReachable(ended: int, id: Id, job: string)
    requires ended % 1000 != 0 && ClockInRange(ended) && ClockInRange(ended + 30000)
    ensures exists run :: IsRun(run) && RetriedEarly(run[|run| - 1], id, ended)
  {
    hide Stamp, IsRun;
    var first := Row(job, Scheduled, None, 0, Stamp(Seconds(ended)));
    var retry := (Seconds(ended) + 30) * 1000;
    Begin(ended, id, job, Stamp(Seconds(ended)));
    StampOrder(Seconds(ended), Seconds(ended));
    Attempt(ended, id, first, []);
    Refuse(ended, id, first, []);
    Record(ended, id, first, []);
    var round := [Done(ended, ended, Transient)];
    assert [] + round == round;
    var second := Retried(first, ended);
    ReachStep(Idle(ended, id, second, round), Tick(retry), Idle(retry, id, second, round));
    StampOrder(Seconds(retry), Seconds(retry));
    Attempt(retry, id, second, round);
    var w := Busy(retry, id, second, round);
    var run :| EndsAt(run, w);
    assert RetriedEarly(w, id, ended);
  }
}
