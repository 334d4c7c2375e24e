/** Which one-time codes are accepted, read off the run rather than off the tables. */
module TotpCodes {
  import opened Wrappers
  import opened Words
  import opened Totp

  /** A 30-second step at most one away from the current one. */
  predicate Near(now: nat, step: nat) {
    now / 30 <= step + 1 && step <= now / 30 + 1
  }

  /** `code`, trimmed, is the code of `step`. */
  predicate IsCodeOf(generate: Generator, code: string, step: nat) {
    Trim(code) == generate(step * 30)
  }

  /** The earliest near step with this code. */
  ghost predicate IsEarliest(generate: Generator, code: string, now: nat, step: nat) {
    && Near(now, step) && IsCodeOf(generate, code, step)
    && forall other: nat :: Near(now, other) && IsCodeOf(generate, code, other) ==> step <= other
  }

  ghost predicate NoneNear(generate: Generator, code: string, now: nat) {
    forall step: nat :: Near(now, step) ==> !IsCodeOf(generate, code, step)
  }

  /** What a call is answered, given the answers before it. */
  ghost predicate Answers(generate: Generator, call: Call, before: seq<Verdict>, v: Verdict) {
    match call
    case BadPassword(_) => v == WrongPassword
    case EnterCode(code, clock) =>
      match v
      case Accepted(step) => IsEarliest(generate, code, clock.now, step) && Accepted(step) !in before
      case Replayed(step) => IsEarliest(generate, code, clock.now, step) && Accepted(step) in before
      case Mismatch => NoneNear(generate, code, clock.now)
      case WrongPassword => false
  }

  lemma StepsChecked(now: nat)
    ensures forall step: nat ::
              Near(now, step) <==>
              step == CheckedStep(now, -1) || step == CheckedStep(now, 0) || step == CheckedStep(now, 1)
    ensures CheckedStep(now, -1) <= CheckedStep(now, 0) <= CheckedStep(now, 1)
  {
  }

  lemma EarliestIsMatched(generate: Generator, code: string, now: nat)
    ensures var m := MatchedStep(generate, code, now);
            if m.Some? then IsEarliest(generate, code, now, m.value) else NoneNear(generate, code, now)
  {
    StepsChecked(now);
    assert MatchFrom(generate, code, now, 2) == None;
    assert MatchFrom(generate, code, now, 0) ==
           if Trim(code) == generate(CheckedStep(now, 0) * STEP) then Some(CheckedStep(now, 0))
           else MatchFrom(generate, code, now, 1);
    hide CheckedStep, Near, Trim;
  }

  lemma OneVerdict(s: Mfa, generate: Generator, call: Call)
    ensures var v := VerdictIn(s, generate, call, false);
            match call
            case BadPassword(_) => v == WrongPassword
            case EnterCode(code, clock) =>
              match v
              case Accepted(step) => IsEarliest(generate, code, clock.now, step) && step !in s.usedSteps
              case Replayed(step) => IsEarliest(generate, code, clock.now, step) && step in s.usedSteps
              case Mismatch => NoneNear(generate, code, clock.now)
              case WrongPassword => false
    ensures var s' := AfterCall(s, generate, call, false);
            forall step :: step in s'.usedSteps <==>
                           step in s.usedSteps || VerdictIn(s, generate, call, false) == Accepted(step)
  {
    if call.EnterCode? {
      EarliestIsMatched(generate, call.code, call.clock.now);
    }
    hide IsEarliest, NoneNear, MatchedStep;
  }

  /** The steps used so far, besides those used at first, are those accepted. */
  ghost predicate UsedAre(s: Mfa, first: Mfa, before: seq<Verdict>) {
    forall step :: step in s.usedSteps <==> step in first.usedSteps || Accepted(step) in before
  }

  lemma {:induction false} RunAnswers(
    s: Mfa, first: Mfa, before: seq<Verdict>, generate: Generator, calls: seq<Call>, i: nat)
    requires first.usedSteps == map[] && UsedAre(s, first, before) && i < |calls|
    ensures var vs := Verdicts(s, generate, calls, false); Answers(generate, calls[i], before + vs[..i], vs[i])
    decreases calls
  {
    var vs := Verdicts(s, generate, calls, false);
    OneVerdict(s, generate, calls[0]);
    hide VerdictIn, AfterCall, IsEarliest, NoneNear;
    if i == 0 {
      assert before + vs[..0] == before;
    } else {
      var s' := AfterCall(s, generate, calls[0], false);
      RunAnswers(s', first, before + [vs[0]], generate, calls[1..], i - 1);
      assert before + [vs[0]] + vs[1..][..i - 1] == before + vs[..i];
    }
  }

  /**
    Over every run from empty tables: a code is refused as wrong exactly if it is the code of no step within one of
    the current one; otherwise the earliest such step decides, accepted exactly if it was not accepted before.
   */
  lemma CodesAreAnswered(generate: Generator, calls: seq<Call>, i: nat)
    requires WellTimed(calls, 0) && i < |calls|
    ensures var vs := Verdicts(Mfa(map[], 0, None, None), generate, calls, true);
            Answers(generate, calls[i], vs[..i], vs[i])
  {
    var empty := Mfa(map[], 0, None, None);
    PrunedRefinesUnpruned(empty, generate, calls, 0);
    RunAnswers(empty, empty, [], generate, calls, i);
    hide Verdicts, Answers;
    assert [] + Verdicts(empty, generate, calls, false)[..i] == Verdicts(empty, generate, calls, false)[..i];
  }
}
