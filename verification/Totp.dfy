/** One-time codes: replay protection and lockout over the per-user MFA tables. */
module Totp {
  import opened Wrappers
  import opened Words

  const STEP := 30
  const PRUNE_AFTER := 300
  const MAX_FAILURES := 5
  const LOCKOUT_SECONDS := 900

  /** Consumed steps with the time they were recorded, and the single lockout row. */
  datatype Mfa = Mfa(
    usedSteps: map<nat, nat>,
    failedCount: nat,
    lockedUntil: Option<nat>,
    lastFailure: Option<nat>)

  /** The clock readings of one verification: at its start, when a row is written, and when a lock is set. */
  datatype Clock = Clock(now: nat, written: nat, locked: nat)

  predicate Forward(c: Clock) {
    c.now <= c.written <= c.locked
  }

  /** Code generation is left abstract: a code for every point in time. */
  type Generator = nat -> string

  datatype Verdict = Accepted(step: nat) | Replayed(step: nat) | Mismatch | WrongPassword

  predicate IsFailure(v: Verdict) {
    v.Mismatch? || v.WrongPassword?
  }

  function Minus(a: nat, b: nat): nat {
    if a < b then 0 else a - b
  }

  // ----- One verification, as a function of the tables -----

  function Pruned(s: Mfa, cutoff: nat): Mfa {
    s.(usedSteps := map step | step in s.usedSteps && s.usedSteps[step] >= cutoff :: s.usedSteps[step])
  }

  /** The step `offset` away from the current one, never below zero. */
  function CheckedStep(now: nat, offset: int): nat {
    var step := now / STEP + offset;
    if step < 0 then 0 else step
  }

  function MatchFrom(generate: Generator, code: string, now: nat, offset: int): Option<nat>
    requires -1 <= offset <= 2
    decreases 2 - offset
  {
    if offset > 1 then None
    else if Trim(code) == generate(CheckedStep(now, offset) * STEP) then Some(CheckedStep(now, offset))
    else MatchFrom(generate, code, now, offset + 1)
  }

  /** The first of the three steps around `now` whose code was given. */
  function MatchedStep(generate: Generator, code: string, now: nat): Option<nat> {
    MatchFrom(generate, code, now, -1)
  }

  function VerdictOf(s: Mfa, generate: Generator, code: string, now: nat): Verdict {
    match MatchedStep(generate, code, now)
    case None => Mismatch
    case Some(step) => if step in s.usedSteps then Replayed(step) else Accepted(step)
  }

  function AfterFailure(s: Mfa, c: Clock): Mfa {
    var count := s.failedCount + 1;
    s.(failedCount := count, lastFailure := Some(c.written),
       lockedUntil := if count >= MAX_FAILURES then Some(c.locked + LOCKOUT_SECONDS) else s.lockedUntil)
  }

  function AfterVerdict(s: Mfa, v: Verdict, c: Clock): Mfa {
    match v
    case Accepted(step) =>
      s.(usedSteps := s.usedSteps[step := c.written], failedCount := 0, lockedUntil := None, lastFailure := None)
    case Replayed(_) => s
    case Mismatch => AfterFailure(s, c)
    case WrongPassword => AfterFailure(s, c)
  }

  /** The tables a verification looks at: with old steps pruned, or, for comparison, never pruned. */
  function Consulted(s: Mfa, c: Clock, prune: bool): Mfa {
    if prune then Pruned(s, Minus(c.now, PRUNE_AFTER)) else s
  }

  function LockedOut(s: Mfa, now: nat): bool {
    s.lockedUntil.Some? && s.lockedUntil.value > now
  }

  class MfaTables {
    var usedSteps: map<nat, nat>
    var failedCount: nat
    var lockedUntil: Option<nat>
    var lastFailure: Option<nat>

    ghost function Contents(): Mfa
      reads this
    {
      Mfa(usedSteps, failedCount, lockedUntil, lastFailure)
    }

    constructor ()
      ensures Contents() == Mfa(map[], 0, None, None)
    {
      usedSteps, failedCount, lockedUntil, lastFailure := map[], 0, None, None;
    }

    method PruneUsedSteps(cutoff: nat)
      modifies this`usedSteps
      ensures Contents() == Pruned(old(Contents()), cutoff)
    {
      usedSteps := map step | step in usedSteps && usedSteps[step] >= cutoff :: usedSteps[step];
    }

    method IsStepUsed(step: nat) returns (used: bool)
      ensures used <==> step in usedSteps
    {
      used := step in usedSteps;
    }

    /** A step already present keeps its time. */
    method RecordUsedStep(step: nat, at: nat)
      modifies this`usedSteps
      ensures usedSteps == if step in old(usedSteps) then old(usedSteps) else old(usedSteps)[step := at]
    {
      if step !in usedSteps {
        usedSteps := usedSteps[step := at];
      }
    }

    method ResetLockout()
      modifies this`failedCount, this`lockedUntil, this`lastFailure
      ensures failedCount == 0 && lockedUntil == None && lastFailure == None
    {
      failedCount, lockedUntil, lastFailure := 0, None, None;
    }

    method IncrementLockout(c: Clock)
      modifies this`failedCount, this`lockedUntil, this`lastFailure
      ensures Contents() == AfterFailure(old(Contents()), c)
      ensures failedCount == old(failedCount) + 1 && lastFailure == Some(c.written)
      ensures lockedUntil == if old(failedCount) >= 4 then Some(c.locked + 900) else old(lockedUntil)
    {
      failedCount, lastFailure := failedCount + 1, Some(c.written);
      if failedCount >= MAX_FAILURES {
        lockedUntil := Some(c.locked + LOCKOUT_SECONDS);
      }
    }

    method CheckLockout(now: nat) returns (locked: bool)
      ensures locked == LockedOut(Contents(), now)
      ensures locked <==> exists until :: lockedUntil == Some(until) && now < until
    {
      locked := lockedUntil.Some? && lockedUntil.value > now;
    }

    /** Prune, try the three steps in order, then record the match or count the failure. */
    method VerifyAndRecord(generate: Generator, code: string, c: Clock) returns (valid: bool, ghost verdict: Verdict)
      modifies this
      ensures var consulted := Consulted(old(Contents()), c, true);
              && verdict == VerdictOf(consulted, generate, code, c.now)
              && Contents() == AfterVerdict(consulted, verdict, c)
      ensures valid <==> verdict.Accepted?
      ensures valid ==>
                && verdict.step in usedSteps && usedSteps[verdict.step] == c.written
                && failedCount == 0 && lockedUntil == None && lastFailure == None
      ensures verdict.Mismatch? ==> failedCount == old(failedCount) + 1 && lastFailure == Some(c.written)
      ensures verdict.Replayed? ==> (failedCount, lockedUntil, lastFailure) ==
                                    (old(failedCount), old(lockedUntil), old(lastFailure))
    {
      PruneUsedSteps(Minus(c.now, PRUNE_AFTER));
      ghost var consulted := Contents();
      verdict := VerdictOf(consulted, generate, code, c.now);
      var offset := -1;
      while offset <= 1
        invariant -1 <= offset <= 2 && Contents() == consulted
        invariant MatchedStep(generate, code, c.now) == MatchFrom(generate, code, c.now, offset)
      {
        var checked := CheckedStep(c.now, offset);
        if Trim(code) == generate(checked * STEP) {
          var used := IsStepUsed(checked);
          if used {
            return false, verdict;
          }
          RecordUsedStep(checked, c.written);
          ResetLockout();
          return true, verdict;
        }
        offset := offset + 1;
      }
      IncrementLockout(c);
      return false, verdict;
    }
  }

  // ----- Runs -----

  /** A code entered, or a login whose password the mail server did not confirm, which counts as a failure too. */
  datatype Call = EnterCode(code: string, clock: Clock) | BadPassword(clock: Clock)

  function AfterCall(s: Mfa, generate: Generator, call: Call, prune: bool): Mfa {
    match call
    case EnterCode(code, clock) =>
      var consulted := Consulted(s, clock, prune);
      AfterVerdict(consulted, VerdictOf(consulted, generate, code, clock.now), clock)
    case BadPassword(clock) => AfterFailure(s, clock)
  }

  function VerdictIn(s: Mfa, generate: Generator, call: Call, prune: bool): Verdict {
    match call
    case EnterCode(code, clock) => VerdictOf(Consulted(s, clock, prune), generate, code, clock.now)
    case BadPassword(_) => WrongPassword
  }

  function Verdicts(s: Mfa, generate: Generator, calls: seq<Call>, prune: bool): (vs: seq<Verdict>)
    ensures |vs| == |calls|
    decreases calls
  {
    if calls == [] then []
    else [VerdictIn(s, generate, calls[0], prune)] +
         Verdicts(AfterCall(s, generate, calls[0], prune), generate, calls[1..], prune)
  }

  /** One call after another, on a clock that never goes back. */
  predicate WellTimed(calls: seq<Call>, from: nat) {
    calls == [] || (
      from <= calls[0].clock.now && Forward(calls[0].clock) && WellTimed(calls[1..], calls[0].clock.locked))
  }

  // ----- Replay -----

  lemma MatchIsNear(generate: Generator, code: string, now: nat, offset: int)
    requires -1 <= offset <= 2
    ensures var m := MatchFrom(generate, code, now, offset);
            m.Some? ==> now / STEP <= m.value + 1 && m.value <= now / STEP + 1
    decreases 2 - offset
  {
    if offset <= 1 {
      MatchIsNear(generate, code, now, offset + 1);
    }
  }

  /** Nothing was consumed ahead of its time. */
  ghost predicate StepsArePast(s: Mfa) {
    forall step :: step in s.usedSteps ==> step <= s.usedSteps[step] / STEP + 1
  }

  /** The pruned table lacks only steps that no code can match from `now` on. */
  ghost predicate PrunedUpTo(pruned: Mfa, full: Mfa, now: nat) {
    && pruned == full.(usedSteps := pruned.usedSteps)
    && (forall step :: step in pruned.usedSteps ==>
          step in full.usedSteps && full.usedSteps[step] == pruned.usedSteps[step])
    && (forall step :: step in full.usedSteps && step !in pruned.usedSteps ==> step + 1 < now / STEP)
  }

  lemma PruningDropsOnlyStaleSteps(pruned: Mfa, full: Mfa, from: nat, c: Clock)
    requires StepsArePast(full) && PrunedUpTo(pruned, full, from) && from <= c.now
    ensures PrunedUpTo(Consulted(pruned, c, true), full, c.now)
  {
  }

  lemma CallKeepsPruned(pruned: Mfa, full: Mfa, generate: Generator, call: Call, from: nat)
    requires StepsArePast(full) && PrunedUpTo(pruned, full, from)
    requires from <= call.clock.now && Forward(call.clock)
    ensures VerdictIn(pruned, generate, call, true) == VerdictIn(full, generate, call, false)
    ensures StepsArePast(AfterCall(full, generate, call, false))
    ensures PrunedUpTo(AfterCall(pruned, generate, call, true), AfterCall(full, generate, call, false),
                       call.clock.locked)
  {
    if call.EnterCode? {
      PruningDropsOnlyStaleSteps(pruned, full, from, call.clock);
      MatchIsNear(generate, call.code, call.clock.now, -1);
    }
    assert call.clock.now / STEP <= call.clock.written / STEP <= call.clock.locked / STEP;
  }

  lemma {:induction false} PruningDoesNotShow(
    pruned: Mfa, full: Mfa, generate: Generator, calls: seq<Call>, from: nat)
    requires StepsArePast(full) && PrunedUpTo(pruned, full, from) && WellTimed(calls, from)
    ensures Verdicts(pruned, generate, calls, true) == Verdicts(full, generate, calls, false)
    decreases calls
  {
    if calls != [] {
      CallKeepsPruned(pruned, full, generate, calls[0], from);
      PruningDoesNotShow(AfterCall(pruned, generate, calls[0], true), AfterCall(full, generate, calls[0], false),
                         generate, calls[1..], calls[0].clock.locked);
    }
  }

  /** Pruning at 300 seconds is unobservable: every run gets the verdicts of a table that is never pruned. */
  lemma PrunedRefinesUnpruned(s: Mfa, generate: Generator, calls: seq<Call>, from: nat)
    requires StepsArePast(s) && WellTimed(calls, from)
    ensures Verdicts(s, generate, calls, true) == Verdicts(s, generate, calls, false)
  {
    PruningDoesNotShow(s, s, generate, calls, from);
  }

  /** Without pruning a consumed step is never accepted again. */
  lemma {:induction false} UsedIsNeverAccepted(s: Mfa, generate: Generator, calls: seq<Call>, step: nat, i: nat)
    requires step in s.usedSteps && i < |calls|
    ensures Verdicts(s, generate, calls, false)[i] != Accepted(step)
    decreases calls
  {
    if i > 0 {
      UsedIsNeverAccepted(AfterCall(s, generate, calls[0], false), generate, calls[1..], step, i - 1);
    }
  }

  lemma {:induction false} AcceptedOnce(s: Mfa, generate: Generator, calls: seq<Call>, i: nat, j: nat)
    requires i < j < |calls|
    ensures var vs := Verdicts(s, generate, calls, false);
            vs[i].Accepted? && vs[j].Accepted? ==> vs[i].step != vs[j].step
    decreases calls
  {
    var s', vs := AfterCall(s, generate, calls[0], false), Verdicts(s, generate, calls, false);
    if i > 0 {
      AcceptedOnce(s', generate, calls[1..], i - 1, j - 1);
    } else if vs[0].Accepted? {
      UsedIsNeverAccepted(s', generate, calls[1..], vs[0].step, j - 1);
    }
  }

  /** In any run, although old steps are pruned, no time step is accepted twice. */
  lemma NoStepAcceptedTwice(s: Mfa, generate: Generator, calls: seq<Call>, from: nat, i: nat, j: nat)
    requires StepsArePast(s) && WellTimed(calls, from) && i < j < |calls|
    ensures var vs := Verdicts(s, generate, calls, true);
            vs[i].Accepted? && vs[j].Accepted? ==> vs[i].step != vs[j].step
  {
    PrunedRefinesUnpruned(s, generate, calls, from);
    AcceptedOnce(s, generate, calls, i, j);
  }

  // ----- Lockout -----

  function StateAfter(s: Mfa, generate: Generator, calls: seq<Call>): Mfa
    decreases calls
  {
    if calls == [] then s else StateAfter(AfterCall(s, generate, calls[0], true), generate, calls[1..])
  }

  /** Failures since the last success, counting on from `count`. */
  function FailuresSince(count: nat, vs: seq<Verdict>): nat
    decreases |vs|
  {
    if vs == [] then count
    else FailuresSince(if vs[0].Accepted? then 0 else if IsFailure(vs[0]) then count + 1 else count, vs[1..])
  }

  /** The stored counter is the number of wrong codes and bad passwords since the last success; replays do not count. */
  lemma {:induction false} CounterIsFailuresSinceSuccess(s: Mfa, generate: Generator, calls: seq<Call>)
    ensures StateAfter(s, generate, calls).failedCount ==
            FailuresSince(s.failedCount, Verdicts(s, generate, calls, true))
    decreases calls
  {
    if calls != [] {
      CounterIsFailuresSinceSuccess(AfterCall(s, generate, calls[0], true), generate, calls[1..]);
    }
  }

  /** Time of the last failure, or `last`. */
  function LastFailureTime(last: int, vs: seq<Verdict>, calls: seq<Call>): int
    requires |vs| == |calls|
    decreases |vs|
  {
    if vs == [] then last
    else LastFailureTime(if IsFailure(vs[0]) then calls[0].clock.locked else last, vs[1..], calls[1..])
  }

  /** The lock is in place exactly from the fifth failure on, and runs from the last one. */
  predicate LockRuns(s: Mfa, last: int) {
    if s.failedCount >= MAX_FAILURES then s.lockedUntil.Some? && s.lockedUntil.value == last + LOCKOUT_SECONDS
    else s.lockedUntil == None
  }

  lemma {:induction false} LockFollowsFailures(s: Mfa, generate: Generator, calls: seq<Call>, last: int)
    requires LockRuns(s, last)
    ensures LockRuns(StateAfter(s, generate, calls), LastFailureTime(last, Verdicts(s, generate, calls, true), calls))
    decreases calls
  {
    if calls != [] {
      var call := calls[0];
      var first, later := VerdictIn(s, generate, call, true), AfterCall(s, generate, call, true);
      var vs := Verdicts(s, generate, calls, true);
      assert vs[1..] == Verdicts(later, generate, calls[1..], true);
      LockFollowsFailures(later, generate, calls[1..], if IsFailure(first) then call.clock.locked else last);
    }
  }

  /** Over every run: locked out exactly if the last success is five failures back and the last failure is recent. */
  lemma LockedOutIff(generate: Generator, calls: seq<Call>, now: nat)
    ensures var empty := Mfa(map[], 0, None, None);
            var vs := Verdicts(empty, generate, calls, true);
            LockedOut(StateAfter(empty, generate, calls), now) <==>
            FailuresSince(0, vs) >= 5 && now < LastFailureTime(0, vs, calls) + 900
  {
    var empty := Mfa(map[], 0, None, None);
    LockFollowsFailures(empty, generate, calls, 0);
    CounterIsFailuresSinceSuccess(empty, generate, calls);
  }

  /** Before each call, at some moment not after its start, the lockout check has answered no. */
  predicate Gated(s: Mfa, generate: Generator, calls: seq<Call>)
    decreases calls
  {
    calls == [] || (
      !LockedOut(s, calls[0].clock.now) && Gated(AfterCall(s, generate, calls[0], true), generate, calls[1..]))
  }

  predicate NoSuccess(vs: seq<Verdict>) {
    forall i :: 0 <= i < |vs| ==> !vs[i].Accepted?
  }

  /** Times of the failures, in order. */
  function FailureTimes(vs: seq<Verdict>, calls: seq<Call>): seq<int>
    requires |vs| == |calls|
  {
    if vs == [] then []
    else (if IsFailure(vs[0]) then [calls[0].clock.locked] else []) + FailureTimes(vs[1..], calls[1..])
  }

  /** Five failures are free; every further one comes at least a lockout period after the one before. */
  ghost predicate SpacedByLockout(count: nat, times: seq<int>, lockedUntil: int) {
    && (times != [] && count >= MAX_FAILURES ==> lockedUntil <= times[0])
    && (forall i, j :: 0 <= i && j == i + 1 < |times| && count + j >= MAX_FAILURES ==>
          times[i] + LOCKOUT_SECONDS <= times[j])
    && (forall i, j :: 0 <= i < j < |times| ==> times[i] <= times[j])
  }

  /** Once the counter has reached the limit, a lock is in place. */
  predicate LockInPlace(s: Mfa) {
    s.failedCount >= MAX_FAILURES ==> s.lockedUntil.Some?
  }

  predicate LockSet(s: Mfa, until: int) {
    s.failedCount >= MAX_FAILURES ==> s.lockedUntil == Some(until)
  }

  lemma {:induction false} FailureTimesAreLate(vs: seq<Verdict>, calls: seq<Call>, from: nat)
    requires |vs| == |calls| && WellTimed(calls, from)
    ensures forall i :: 0 <= i < |FailureTimes(vs, calls)| ==> from <= FailureTimes(vs, calls)[i]
  {
    if vs != [] {
      FailureTimesAreLate(vs[1..], calls[1..], calls[0].clock.locked);
    }
  }

  lemma PrependFailure(count: nat, first: int, later: seq<int>, lockedUntil: int)
    requires SpacedByLockout(count + 1, later, first + LOCKOUT_SECONDS)
    requires forall i :: 0 <= i < |later| ==> first <= later[i]
    requires count >= MAX_FAILURES ==> lockedUntil <= first
    ensures SpacedByLockout(count, [first] + later, lockedUntil)
  {
    var times := [first] + later;
    assert forall i :: 0 <= i < |later| ==> times[i + 1] == later[i];
    forall i, j | 0 <= i && j == i + 1 < |times| && count + j >= MAX_FAILURES
      ensures times[i] + LOCKOUT_SECONDS <= times[j]
    {
      if i > 0 {
        assert times[i] == later[i - 1] && times[j] == later[j - 1];
        assert later[i - 1] + LOCKOUT_SECONDS <= later[j - 1];
      }
    }
    forall i, j | 0 <= i < j < |times| ensures times[i] <= times[j] {
      assert times[j] == later[j - 1];
      assert i > 0 ==> times[i] == later[i - 1];
    }
  }

  /** What one gated call without success does to the counter and the lock. */
  lemma GatedCall(s: Mfa, generate: Generator, call: Call, until: int)
    requires !LockedOut(s, call.clock.now) && Forward(call.clock) && LockSet(s, until)
    requires !VerdictIn(s, generate, call, true).Accepted?
    ensures var s' := AfterCall(s, generate, call, true);
            if IsFailure(VerdictIn(s, generate, call, true)) then
              && s'.failedCount == s.failedCount + 1
              && LockSet(s', call.clock.locked + LOCKOUT_SECONDS)
              && (s.failedCount >= MAX_FAILURES ==> until <= call.clock.locked)
            else s'.failedCount == s.failedCount && LockSet(s', until)
  {
  }

  lemma VerdictsApart(first: Verdict, later: seq<Verdict>, call: Call, rest: seq<Call>)
    requires |later| == |rest| && NoSuccess([first] + later)
    ensures NoSuccess(later) && !first.Accepted?
    ensures FailureTimes([first] + later, [call] + rest) ==
            if IsFailure(first) then [call.clock.locked] + FailureTimes(later, rest) else FailureTimes(later, rest)
  {
    var vs := [first] + later;
    assert vs[0] == first && vs[1..] == later && ([call] + rest)[1..] == rest;
    assert forall i :: 0 <= i < |later| ==> later[i] == vs[i + 1];
  }

  lemma {:induction false} GatedFailuresAreSpaced(
    s: Mfa, generate: Generator, calls: seq<Call>, from: nat, until: int)
    requires WellTimed(calls, from) && Gated(s, generate, calls) && LockSet(s, until)
    requires NoSuccess(Verdicts(s, generate, calls, true))
    ensures SpacedByLockout(s.failedCount, FailureTimes(Verdicts(s, generate, calls, true), calls), until)
    decreases calls
  {
    if calls != [] {
      hide SpacedByLockout, VerdictIn, AfterCall, LockSet, LockedOut, Forward;
      var call, rest := calls[0], calls[1..];
      var s', first := AfterCall(s, generate, call, true), VerdictIn(s, generate, call, true);
      var later := Verdicts(s', generate, rest, true);
      var vs := [first] + later;
      assert Verdicts(s, generate, calls, true) == vs;
      VerdictsApart(first, later, call, rest);
      assert calls == [call] + rest;
      hide FailureTimes, NoSuccess;
      GatedCall(s, generate, call, until);
      FailureTimesAreLate(later, rest, call.clock.locked);
      if IsFailure(first) {
        GatedFailuresAreSpaced(s', generate, rest, call.clock.locked, call.clock.locked + LOCKOUT_SECONDS);
        PrependFailure(s.failedCount, call.clock.locked, FailureTimes(later, rest), until);
      } else {
        GatedFailuresAreSpaced(s', generate, rest, call.clock.locked, until);
      }
    }
  }

  lemma {:induction false} SpacingBoundsCount(times: seq<int>, lockedUntil: int)
    requires SpacedByLockout(0, times, lockedUntil) && times != []
    ensures |times| <= MAX_FAILURES + (times[|times| - 1] - times[0]) / LOCKOUT_SECONDS
  {
    if |times| > MAX_FAILURES {
      var shorter := times[..|times| - 1];
      SpacingBoundsCount(shorter, lockedUntil);
      var i, j := |times| - 2, |times| - 1;
      assert times[i] + LOCKOUT_SECONDS <= times[j];
      assert shorter[|shorter| - 1] == times[i];
      assert (times[i] - times[0] + LOCKOUT_SECONDS) / LOCKOUT_SECONDS == (times[i] - times[0]) / LOCKOUT_SECONDS + 1;
    }
  }

  /** Lower starting counters only loosen the spacing. */
  lemma SpacedFromZero(count: nat, times: seq<int>, lockedUntil: int)
    requires SpacedByLockout(count, times, lockedUntil)
    ensures SpacedByLockout(0, times, lockedUntil)
  {
  }

  /** With every call gated by the lockout check, N failures without a success take long enough: N <= 5 + T / 900. */
  lemma LockoutBoundsFailures(s: Mfa, generate: Generator, calls: seq<Call>, from: nat)
    requires WellTimed(calls, from) && Gated(s, generate, calls) && LockInPlace(s)
    requires NoSuccess(Verdicts(s, generate, calls, true))
    ensures var times := FailureTimes(Verdicts(s, generate, calls, true), calls);
            times != [] ==> |times| <= 5 + (times[|times| - 1] - times[0]) / 900
  {
    var times := FailureTimes(Verdicts(s, generate, calls, true), calls);
    var until := if s.lockedUntil.Some? then s.lockedUntil.value else 0;
    GatedFailuresAreSpaced(s, generate, calls, from, until);
    SpacedFromZero(s.failedCount, times, until);
    if times != [] {
      SpacingBoundsCount(times, until);
    }
  }

  /** The assumptions made on the tables above hold of the empty ones and after every well-timed run. */
  lemma {:induction false} ReachableTables(s: Mfa, generate: Generator, calls: seq<Call>, from: nat)
    requires StepsArePast(s) && LockInPlace(s) && WellTimed(calls, from)
    ensures StepsArePast(Mfa(map[], 0, None, None)) && LockInPlace(Mfa(map[], 0, None, None))
    ensures StepsArePast(StateAfter(s, generate, calls)) && LockInPlace(StateAfter(s, generate, calls))
    decreases calls
  {
    if calls != [] {
      var call := calls[0];
      if call.EnterCode? {
        MatchIsNear(generate, call.code, call.clock.now, -1);
      }
      assert call.clock.now / STEP <= call.clock.written / STEP;
      ReachableTables(AfterCall(s, generate, call, true), generate, calls[1..], call.clock.locked);
    }
  }
}
