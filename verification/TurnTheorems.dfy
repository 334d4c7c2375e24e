/** What holds of every assistant turn, whatever the model and the mailbox do. */
module TurnTheorems {
  import opened Wrappers
  import opened Refs
  import opened ModelStream
  import opened Tools
  import opened Provenance
  import opened Turn

  // ----- Transcripts -----

  /** The answers to a list of calls, in order, head the messages. */
  predicate Answered(ms: seq<ChatMessage>, calls: seq<ToolCall>)
  {
    |calls| <= |ms| && forall k :: 0 <= k < |calls| ==> ms[k].ToolAnswer? && ms[k].callId == calls[k].id
  }

  /** Tool answers stand directly behind the message that asked for them, one per call, in order, and nowhere else. */
  predicate WellFormed(ms: seq<ChatMessage>)
    decreases |ms|
  {
    if ms == [] then true
    else
      match ms[0]
      case ToolAnswer(_, _) => false
      case AssistantTools(_, calls) => calls != [] && Answered(ms[1..], calls) && WellFormed(ms[1 + |calls|..])
      case _ => WellFormed(ms[1..])
  }

  lemma BehindConcat<T>(a: seq<T>, b: seq<T>, n: nat)
    requires n <= |a|
    ensures (a + b)[n..] == a[n..] + b
  {
  }

  lemma AnsweredInLonger(a: seq<ChatMessage>, b: seq<ChatMessage>, calls: seq<ToolCall>)
    requires Answered(a, calls)
    ensures Answered(a + b, calls)
  {
  }

  lemma {:induction false} WellFormedConcat(a: seq<ChatMessage>, b: seq<ChatMessage>)
    requires WellFormed(a) && WellFormed(b)
    ensures WellFormed(a + b)
    decreases |a|
  {
    if a == [] {
      assert a + b == b;
    } else if a[0].AssistantTools? {
      var calls := a[0].calls;
      AnsweredInLonger(a[1..], b, calls);
      assert |calls| < |a|;
      hide Answered;
      BehindConcat(a, b, 1);
      BehindConcat(a, b, 1 + |calls|);
      WellFormedConcat(a[1 + |calls|..], b);
      assert (a + b)[0] == a[0];
    } else {
      BehindConcat(a, b, 1);
      WellFormedConcat(a[1..], b);
      assert (a + b)[0] == a[0];
    }
  }

  lemma {:induction false} PlainIsWellFormed(ms: seq<ChatMessage>)
    requires forall i :: 0 <= i < |ms| ==> IsPlain(ms[i]) || ms[i].System?
    ensures WellFormed(ms)
  {
    if ms != [] {
      PlainIsWellFormed(ms[1..]);
    }
  }

  lemma BlockIsWellFormed(content: string, calls: seq<ToolCall>, answers: seq<ChatMessage>)
    requires calls != [] && |answers| == |calls| && Answered(answers, calls)
    ensures WellFormed([AssistantTools(content, calls)] + answers)
  {
    var ms := [AssistantTools(content, calls)] + answers;
    assert ms[1..] == answers && ms[1 + |calls|..] == [];
  }

  /** Transcripts are well formed, begin alike, and each strictly extends the one before. */
  predicate Chain(base: seq<ChatMessage>, sent: seq<seq<ChatMessage>>) {
    && (forall i :: 0 <= i < |sent| ==> base <= sent[i] && WellFormed(sent[i]))
    && forall i, j :: 0 <= i < j < |sent| ==> sent[i] < sent[j]
  }

  /** The conversation is longer than anything sent so far. */
  predicate Ahead(base: seq<ChatMessage>, sent: seq<seq<ChatMessage>>, messages: seq<ChatMessage>) {
    base <= messages && WellFormed(messages) && forall i :: 0 <= i < |sent| ==> sent[i] < messages
  }

  lemma AskKeepsChain(base: seq<ChatMessage>, sent: seq<seq<ChatMessage>>, messages: seq<ChatMessage>, step: int)
    requires Chain(base, sent) && Ahead(base, sent, messages)
    ensures Chain(base, sent + [Transcript(messages, step)])
    ensures WellFormed(Transcript(messages, step)) && base <= Transcript(messages, step)
  {
    PlainIsWellFormed([System(BUDGET_USED)]);
    WellFormedConcat(messages, [System(BUDGET_USED)]);
    hide WellFormed;
  }

  lemma AnswersStayAhead(
    base: seq<ChatMessage>, sent: seq<seq<ChatMessage>>, transcript: seq<ChatMessage>, more: seq<ChatMessage>)
    requires Chain(base, sent + [transcript]) && more != [] && WellFormed(more)
    ensures Ahead(base, sent + [transcript], transcript + more)
  {
    var now := sent + [transcript];
    assert now[|sent|] == transcript;
    WellFormedConcat(transcript, more);
    hide WellFormed;
    forall i | 0 <= i < |now| ensures now[i] < transcript + more {
      assert i < |sent| ==> now[i] < now[|sent|];
    }
  }

  // ----- Events -----

  /** Before the end only text and status events are emitted. */
  predicate Streaming(events: seq<Event>) {
    forall i :: 0 <= i < |events| ==> events[i].Text? || events[i].Status?
  }

  function StatusCount(events: seq<Event>): nat {
    if events == [] then 0
    else StatusCount(events[..|events| - 1]) + if events[|events| - 1].Status? then 1 else 0
  }

  function Spoken(events: seq<Event>): seq<string> {
    if events == [] then []
    else
      var last := events[|events| - 1];
      Spoken(events[..|events| - 1]) + if last.Text? then [last.delta] else []
  }

  lemma {:induction false} StatusCountConcat(a: seq<Event>, b: seq<Event>)
    ensures StatusCount(a + b) == StatusCount(a) + StatusCount(b)
    ensures Spoken(a + b) == Spoken(a) + Spoken(b)
    decreases |b|
  {
    if b == [] {
      assert a + b == a;
    } else {
      var n := |b| - 1;
      assert (a + b)[..|a| + n] == a + b[..n];
      StatusCountConcat(a, b[..n]);
    }
  }

  lemma StreamingConcat(a: seq<Event>, b: seq<Event>)
    requires Streaming(a) && Streaming(b)
    ensures Streaming(a + b)
  {
  }

  lemma {:induction false} TextsAreSpoken(texts: seq<string>)
    ensures Streaming(TextEvents(texts))
    ensures StatusCount(TextEvents(texts)) == 0 && Spoken(TextEvents(texts)) == texts
  {
    if texts != [] {
      var n := |texts| - 1;
      TextsAreSpoken(texts[..n]);
      assert TextEvents(texts)[..n] == TextEvents(texts[..n]);
      assert texts == texts[..n] + [texts[n]];
    }
  }

  // ----- What the model was asked and answered -----

  /** What the model said to a transcript; tools are offered in the first five calls. */
  function Answer(env: TurnEnv, sent: seq<seq<ChatMessage>>, i: nat): Completion
    requires i < |sent|
  {
    env.complete(sent[i], i < 5)
  }

  /** All the text the model streamed, in order. */
  function Streamed(env: TurnEnv, sent: seq<seq<ChatMessage>>): seq<string> {
    if sent == [] then []
    else
      var n := |sent| - 1;
      Streamed(env, sent[..n]) + Answer(env, sent, n).texts
  }

  function InputSum(env: TurnEnv, sent: seq<seq<ChatMessage>>): nat {
    if sent == [] then 0
    else
      var n := |sent| - 1;
      var result := Answer(env, sent, n).result;
      InputSum(env, sent[..n]) + if result.Ok? then result.value.inputTokens else 0
  }

  function OutputSum(env: TurnEnv, sent: seq<seq<ChatMessage>>): nat {
    if sent == [] then 0
    else
      var n := |sent| - 1;
      var result := Answer(env, sent, n).result;
      OutputSum(env, sent[..n]) + if result.Ok? then result.value.outputTokens else 0
  }

  /** The turn goes on exactly while the model asks for tools and still may. */
  predicate AskedForTools(env: TurnEnv, sent: seq<seq<ChatMessage>>, i: nat)
    requires i < |sent|
  {
    i < 5 && Answer(env, sent, i).result.Ok? && Answer(env, sent, i).result.value.calls != []
  }

  predicate AllAskedForTools(env: TurnEnv, sent: seq<seq<ChatMessage>>) {
    forall i :: 0 <= i < |sent| ==> AskedForTools(env, sent, i)
  }

  // ----- One step -----

  /** What holds before each step. */
  ghost predicate Going(env: TurnEnv, base: seq<ChatMessage>, t: State) {
    && Chain(base, t.sent) && Ahead(base, t.sent, t.messages)
    && Told(env, t)
    && AllAskedForTools(env, t.sent)
    && t.runs <= MAX_TOOL_CALLS_PER_STEP * |t.sent|
    && Sound(t.context)
  }

  /** Events and token counts add up to what the model sent. */
  predicate Told(env: TurnEnv, t: State) {
    && Streaming(t.events)
    && StatusCount(t.events) == t.runs
    && Spoken(t.events) == Streamed(env, t.sent)
    && t.inputTokens == InputSum(env, t.sent) % U64
    && t.outputTokens == OutputSum(env, t.sent) % U64
  }

  lemma AddWraps(sum: nat, more: nat)
    ensures (sum % U64 + more) % U64 == (sum + more) % U64
  {
    var q := sum / U64;
    assert sum + more == sum % U64 + more + q * U64;
    WrapAway(sum % U64 + more, q);
  }

  lemma {:induction false} WrapAway(n: nat, q: nat)
    ensures (n + q * U64) % U64 == n % U64
  {
    if q > 0 {
      WrapAway(n, q - 1);
      var m := n + (q - 1) * U64;
      assert n + q * U64 == m + U64;
      assert (m + U64) % U64 == m % U64;
    }
  }

  lemma OneMoreSent(env: TurnEnv, sent: seq<seq<ChatMessage>>, transcript: seq<ChatMessage>)
    ensures var answer := env.complete(transcript, |sent| < 5);
            var now := sent + [transcript];
            && now[..|sent|] == sent && Answer(env, now, |sent|) == answer
            && Streamed(env, now) == Streamed(env, sent) + answer.texts
            && InputSum(env, now) ==
               InputSum(env, sent) + (if answer.result.Ok? then answer.result.value.inputTokens else 0)
            && OutputSum(env, now) ==
               OutputSum(env, sent) + (if answer.result.Ok? then answer.result.value.outputTokens else 0)
  {
    var now, n := sent + [transcript], |sent|;
    assert now[..n] == sent && now[n] == transcript;
    assert Answer(env, now, n) == env.complete(transcript, n < 5);
    hide Answer;
  }

  /** The model call of a step: its text is streamed, and its tokens are counted if it succeeds. */
  lemma AskKeepsTold(env: TurnEnv, t: State)
    requires Told(env, t)
    ensures var step := |t.sent|;
            var asked := Asked(env, t, step);
            var result := Answer(env, asked.sent, step).result;
            && asked.sent[..step] == t.sent
            && Streaming(asked.events) && StatusCount(asked.events) == t.runs
            && Spoken(asked.events) == Streamed(env, asked.sent)
            && (result.Ok? ==> Told(env, Counted(asked, result.value)))
  {
    var transcript := Transcript(t.messages, |t.sent|);
    var answer := env.complete(transcript, Offered(|t.sent|));
    hide Streaming, StatusCount, Spoken, TextEvents, Transcript, Streamed, InputSum, OutputSum;
    OneMoreSent(env, t.sent, transcript);
    TextsAreSpoken(answer.texts);
    StreamingConcat(t.events, TextEvents(answer.texts));
    StatusCountConcat(t.events, TextEvents(answer.texts));
    if answer.result.Ok? {
      AddWraps(InputSum(env, t.sent), answer.result.value.inputTokens);
      AddWraps(OutputSum(env, t.sent), answer.result.value.outputTokens);
    }
  }

  /** What a call is answered with. */
  function AnswerTo(env: TurnEnv, t: State, i: nat, call: ToolCall): ChatMessage {
    if i >= MAX_TOOL_CALLS_PER_STEP then ToolAnswer(call.id, TOO_MANY_CALLS)
    else ToolAnswer(call.id, env.render(RunTool(env.tools, t.context, call.name, call.arguments).1))
  }

  function AnswersTo(env: TurnEnv, t: State, calls: seq<ToolCall>): seq<ChatMessage> {
    if calls == [] then []
    else
      var n := |calls| - 1;
      AnswersTo(env, t, calls[..n]) + [AnswerTo(env, AfterCalls(env, t, calls[..n]), n, calls[n])]
  }

  function StatusFor(i: nat, call: ToolCall): seq<Event> {
    if i < MAX_TOOL_CALLS_PER_STEP then [Status(StatusLabel(call.name))] else []
  }

  /** One call adds its answer, and a status if it is run. */
  lemma CallIsAnswered(env: TurnEnv, t: State, i: nat, call: ToolCall)
    requires Sound(t.context)
    ensures var r := AfterCall(env, t, i, call);
            && Sound(r.context)
            && r.messages == t.messages + [AnswerTo(env, t, i, call)]
            && r.runs == t.runs + (if i < MAX_TOOL_CALLS_PER_STEP then 1 else 0)
            && r.events == t.events + StatusFor(i, call)
            && r.sent == t.sent && r.inputTokens == t.inputTokens && r.outputTokens == t.outputTokens
  {
    hide Sound, RunTool, StatusLabel;
    ToolsKeepProvenance(env.tools, t.context, call.name, call.arguments);
    assert t.events + [] == t.events;
  }

  /** The statuses a step shows: one for each of the first five calls. */
  function Statuses(calls: seq<ToolCall>): seq<Event> {
    if calls == [] then []
    else
      var n := |calls| - 1;
      Statuses(calls[..n]) + StatusFor(n, calls[n])
  }

  function RunsIn(calls: seq<ToolCall>): nat {
    if |calls| <= MAX_TOOL_CALLS_PER_STEP then |calls| else MAX_TOOL_CALLS_PER_STEP
  }

  lemma OneStatus(i: nat, call: ToolCall)
    ensures var e := StatusFor(i, call);
            Streaming(e) && Spoken(e) == [] && StatusCount(e) == if i < MAX_TOOL_CALLS_PER_STEP then 1 else 0
  {
    hide StatusLabel;
  }

  lemma {:induction false} StatusesAreCounted(calls: seq<ToolCall>)
    ensures Streaming(Statuses(calls)) && Spoken(Statuses(calls)) == [] && StatusCount(Statuses(calls)) == RunsIn(calls)
  {
    if calls != [] {
      var n := |calls| - 1;
      StatusesAreCounted(calls[..n]);
      OneStatus(n, calls[n]);
      StatusCountConcat(Statuses(calls[..n]), StatusFor(n, calls[n]));
      hide StatusFor, StatusCount, Spoken;
    }
  }

  lemma Regroup<T>(a: seq<T>, b: seq<T>, c: seq<T>)
    ensures a + b + c == a + (b + c)
    ensures a + [] == a
  {
  }

  lemma LastCall(env: TurnEnv, t: State, calls: seq<ToolCall>)
    requires calls != []
    ensures var n := |calls| - 1;
            var front := AfterCalls(env, t, calls[..n]);
            && AfterCalls(env, t, calls) == AfterCall(env, front, n, calls[n])
            && AnswersTo(env, t, calls) == AnswersTo(env, t, calls[..n]) + [AnswerTo(env, front, n, calls[n])]
            && Statuses(calls) == Statuses(calls[..n]) + StatusFor(n, calls[n])
  {
    hide AfterCall, AnswerTo, StatusFor;
  }

  lemma AnsweredOneMore(answers: seq<ChatMessage>, calls: seq<ToolCall>, m: ChatMessage)
    requires calls != [] && |answers| == |calls| - 1 && Answered(answers, calls[..|calls| - 1])
    requires m.ToolAnswer? && m.callId == calls[|calls| - 1].id
    ensures Answered(answers + [m], calls)
  {
  }

  /** The calls of a step: at most five are run, and all are answered, in order. */
  lemma {:induction false} CallsAreAnswered(env: TurnEnv, t: State, calls: seq<ToolCall>)
    requires Sound(t.context)
    ensures |AnswersTo(env, t, calls)| == |calls| && Answered(AnswersTo(env, t, calls), calls)
    ensures var r := AfterCalls(env, t, calls);
            && r.messages == t.messages + AnswersTo(env, t, calls)
            && r.runs == t.runs + RunsIn(calls)
            && r.events == t.events + Statuses(calls)
            && Sound(r.context)
            && r.sent == t.sent && r.inputTokens == t.inputTokens && r.outputTokens == t.outputTokens
    decreases |calls|
  {
    if calls == [] {
      Regroup(t.messages, [], []);
      Regroup(t.events, [], []);
    } else {
      hide Sound, AfterCall, AfterCalls, AnswerTo, AnswersTo, StatusFor, Statuses, Answered;
      var n := |calls| - 1;
      var front := AfterCalls(env, t, calls[..n]);
      var before, answer := AnswersTo(env, t, calls[..n]), AnswerTo(env, front, n, calls[n]);
      LastCall(env, t, calls);
      CallsAreAnswered(env, t, calls[..n]);
      CallIsAnswered(env, front, n, calls[n]);
      AnswerNamesCall(env, front, n, calls[n]);
      AnsweredOneMore(before, calls, answer);
      Regroup(t.messages, before, [answer]);
      Regroup(t.events, Statuses(calls[..n]), StatusFor(n, calls[n]));
    }
  }

  lemma AnswerNamesCall(env: TurnEnv, t: State, i: nat, call: ToolCall)
    ensures AnswerTo(env, t, i, call).ToolAnswer? && AnswerTo(env, t, i, call).callId == call.id
  {
  }

  lemma CallsKeepTold(env: TurnEnv, t: State, calls: seq<ToolCall>)
    requires Told(env, t) && Sound(t.context)
    ensures Told(env, AfterCalls(env, t, calls))
  {
    hide Sound, AfterCalls, Statuses, StatusCount, Spoken, Streaming, Answered, AnswersTo, RunsIn;
    hide Streamed, InputSum, OutputSum;
    CallsAreAnswered(env, t, calls);
    StatusesAreCounted(calls);
    StatusCountConcat(t.events, Statuses(calls));
    StreamingConcat(t.events, Statuses(calls));
    Regroup(Spoken(t.events), [], []);
  }

  lemma AskedEarlier(env: TurnEnv, sent: seq<seq<ChatMessage>>, transcript: seq<ChatMessage>)
    requires AllAskedForTools(env, sent)
    ensures forall i :: 0 <= i < |sent| ==> AskedForTools(env, sent + [transcript], i)
  {
    var now := sent + [transcript];
    forall i | 0 <= i < |sent| ensures AskedForTools(env, now, i) {
      assert now[i] == sent[i] && AskedForTools(env, sent, i);
    }
  }

  /** The conversation stays ahead of what was sent. */
  lemma StepKeepsAhead(env: TurnEnv, base: seq<ChatMessage>, t: State, reply: ModelReply)
    requires Chain(base, t.sent) && Ahead(base, t.sent, t.messages) && reply.calls != [] && Sound(t.context)
    ensures var next := AfterReply(env, Counted(Asked(env, t, |t.sent|), reply), reply);
            Chain(base, next.sent) && Ahead(base, next.sent, next.messages)
  {
    var asked := Asked(env, t, |t.sent|);
    var counted := Counted(asked, reply);
    var question := [AssistantTools(reply.content, reply.calls)];
    var posed := counted.(messages := counted.messages + question);
    var answers := AnswersTo(env, posed, reply.calls);
    AskKeepsChain(base, t.sent, t.messages, |t.sent|);
    CallsAreAnswered(env, posed, reply.calls);
    BlockIsWellFormed(reply.content, reply.calls, answers);
    hide Sound, AfterCalls, WellFormed, Chain, Ahead, Answered, AnswersTo, Statuses, TextEvents, Transcript;
    Regroup(asked.messages, question, answers);
    AnswersStayAhead(base, t.sent, asked.messages, question + answers);
  }

  /** What a step that goes on adds. */
  lemma StepShape(env: TurnEnv, t: State, reply: ModelReply)
    requires Sound(t.context)
    ensures var asked := Asked(env, t, |t.sent|);
            var next := AfterReply(env, Counted(asked, reply), reply);
            && next.sent == asked.sent == t.sent + [asked.messages]
            && next.runs == t.runs + RunsIn(reply.calls)
            && Sound(next.context)
  {
    var counted := Counted(Asked(env, t, |t.sent|), reply);
    hide Sound, TextEvents, Transcript;
    var posed := counted.(messages := counted.messages + [AssistantTools(reply.content, reply.calls)]);
    CallsAreAnswered(env, posed, reply.calls);
    hide AfterCalls, Answered, AnswersTo, Statuses;
  }

  lemma StepKeepsTold(env: TurnEnv, t: State, reply: ModelReply)
    requires Sound(t.context) && Told(env, t)
    requires Answer(env, Asked(env, t, |t.sent|).sent, |t.sent|).result == Ok(reply)
    ensures Told(env, AfterReply(env, Counted(Asked(env, t, |t.sent|), reply), reply))
  {
    var counted := Counted(Asked(env, t, |t.sent|), reply);
    var posed := counted.(messages := counted.messages + [AssistantTools(reply.content, reply.calls)]);
    AskKeepsTold(env, t);
    hide Sound, Spoken, StatusCount, Streaming, Streamed, InputSum, OutputSum, TextEvents, Transcript, AfterCalls;
    CallsKeepTold(env, posed, reply.calls);
  }

  /** A step that goes on keeps everything. */
  lemma StepKeepsGoing(env: TurnEnv, base: seq<ChatMessage>, t: State)
    requires Going(env, base, t)
    requires AskedForTools(env, Asked(env, t, |t.sent|).sent, |t.sent|)
    ensures var asked := Asked(env, t, |t.sent|);
            var reply := Answer(env, asked.sent, |t.sent|).result.value;
            var next := AfterReply(env, Counted(asked, reply), reply);
            Going(env, base, next) && next.sent == asked.sent
  {
    var asked := Asked(env, t, |t.sent|);
    var reply := Answer(env, asked.sent, |t.sent|).result.value;
    hide Sound, Told, WellFormed, Chain, Ahead, Asked, Counted, AfterReply, Answer;
    StepShape(env, t, reply);
    StepKeepsAhead(env, base, t, reply);
    StepKeepsTold(env, t, reply);
    AskedEarlier(env, t.sent, asked.messages);
  }

  // ----- Whole turns -----

  /** One error, or the sources, the proposals and one `Done` with the token sums. */
  ghost predicate Ending(env: TurnEnv, t: State, tail: seq<Event>) {
    t.sent != [] &&
    match Answer(env, t.sent, |t.sent| - 1).result
    case Err(Retryable) => tail == [Error("The assistant can't reach OpenAI right now.", true)]
    case Err(Fatal) => tail == [Error("The assistant hit an error.", false)]
    case Ok(_) =>
      tail == (if t.context.sources == [] then [] else [Sources(t.context.sources)])
              + t.context.proposals
              + [Done(InputSum(env, t.sent) % 0x1_0000_0000_0000_0000,
                      OutputSum(env, t.sent) % 0x1_0000_0000_0000_0000)]
  }

  /** Streaming events, then the ending. */
  ghost predicate TraceSplitsAt(env: TurnEnv, t: State, n: nat) {
    && n <= |t.events|
    && Streaming(t.events[..n])
    && StatusCount(t.events[..n]) == t.runs
    && Spoken(t.events[..n]) == Streamed(env, t.sent)
    && Ending(env, t, t.events[n..])
  }

  ghost predicate Finished(env: TurnEnv, base: seq<ChatMessage>, t: State) {
    && 0 < |t.sent| <= MAX_STEPS + 1
    && t.runs <= MAX_TOOL_CALLS_PER_STEP * (|t.sent| - 1)
    && Chain(base, t.sent)
    && AllAskedForTools(env, t.sent[..|t.sent| - 1])
    && !AskedForTools(env, t.sent, |t.sent| - 1)
    && Sound(t.context)
    && exists n :: TraceSplitsAt(env, t, n)
  }

  /** How the events end when a step does not go on. */
  lemma EndOfTurn(env: TurnEnv, t: State) returns (tail: seq<Event>)
    requires Told(env, t) && |t.sent| <= MAX_STEPS
    requires !AskedForTools(env, Asked(env, t, |t.sent|).sent, |t.sent|)
    ensures var asked := Asked(env, t, |t.sent|);
            var r := Steps(env, t, |t.sent|);
            && r.events == asked.events + tail
            && r.sent == asked.sent && r.context == t.context && r.runs == t.runs
            && Ending(env, r, tail)
  {
    var step := |t.sent|;
    var asked := Asked(env, t, step);
    AskKeepsTold(env, t);
    OneStep(env, t, step);
    hide Steps, Spoken, StatusCount, Streamed, InputSum, OutputSum, Streaming, TextEvents, Finish;
    match env.complete(asked.messages, step < 5).result
    case Err(e) => tail := [Failure(e)];
    case Ok(reply) => tail := FinishAdds(Counted(asked, reply));
  }

  lemma FinishAdds(t: State) returns (tail: seq<Event>)
    ensures tail == (if t.context.sources == [] then [] else [Sources(t.context.sources)])
                    + t.context.proposals + [Done(t.inputTokens, t.outputTokens)]
    ensures Finish(t) == t.(events := t.events + tail)
  {
    var sources := if t.context.sources == [] then [] else [Sources(t.context.sources)];
    var end := [Done(t.inputTokens, t.outputTokens)];
    tail := sources + t.context.proposals + end;
    assert t.events + sources + t.context.proposals + end == t.events + tail;
  }

  /** A step that does not go on ends the turn. */
  lemma LastStep(env: TurnEnv, base: seq<ChatMessage>, t: State)
    requires Going(env, base, t) && |t.sent| <= MAX_STEPS
    requires !AskedForTools(env, Asked(env, t, |t.sent|).sent, |t.sent|)
    ensures Finished(env, base, Steps(env, t, |t.sent|))
  {
    var step := |t.sent|;
    var asked := Asked(env, t, step);
    var r := Steps(env, t, step);
    AskKeepsTold(env, t);
    AskKeepsChain(base, t.sent, t.messages, step);
    AskedEarlier(env, t.sent, asked.messages);
    OneStep(env, t, step);
    hide Sound, Steps, WellFormed, Chain, Ahead, Spoken, StatusCount, Streamed, InputSum, OutputSum, Streaming, Ending;
    assert asked.sent[..step] == t.sent;
    var tail := EndOfTurn(env, t);
    assert r.events == asked.events + tail;
    assert r.events[..|asked.events|] == asked.events && r.events[|asked.events|..] == tail;
    assert TraceSplitsAt(env, r, |asked.events|);
  }

  lemma {:induction false} StepsFinish(env: TurnEnv, base: seq<ChatMessage>, t: State)
    requires Going(env, base, t) && |t.sent| <= MAX_STEPS
    ensures Finished(env, base, Steps(env, t, |t.sent|))
    decreases MAX_STEPS - |t.sent|
  {
    var step := |t.sent|;
    var asked := Asked(env, t, step);
    if AskedForTools(env, asked.sent, step) {
      var reply := Answer(env, asked.sent, step).result.value;
      StepKeepsGoing(env, base, t);
      GoesOn(env, t);
      hide Going, Finished, Steps, Asked, Counted, AfterReply, AskedForTools, Answer;
      StepsFinish(env, base, AfterReply(env, Counted(asked, reply), reply));
    } else {
      LastStep(env, base, t);
    }
  }

  lemma GoesOn(env: TurnEnv, t: State)
    requires |t.sent| <= MAX_STEPS
    requires AskedForTools(env, Asked(env, t, |t.sent|).sent, |t.sent|)
    ensures |t.sent| < MAX_STEPS && |Asked(env, t, |t.sent|).sent| == |t.sent| + 1
    ensures var asked := Asked(env, t, |t.sent|);
            var reply := Answer(env, asked.sent, |t.sent|).result.value;
            Steps(env, t, |t.sent|) == Steps(env, AfterReply(env, Counted(asked, reply), reply), |t.sent| + 1)
  {
    OneStep(env, t, |t.sent|);
    hide Steps, AfterReply, Counted, Finish, TextEvents;
  }

  lemma EmptyIsSound()
    ensures Sound(EMPTY)
  {
  }

  lemma StartIsGoing(env: TurnEnv, req: TurnRequest)
    requires PlainHistory(req.history)
    ensures Going(env, Start(env, req).messages, Start(env, req)) && Start(env, req).sent == []
  {
    var t := Start(env, req);
    PlainIsWellFormed(t.messages);
    OpenedIsSound(env, req.open);
    hide Sound, Opened;
  }

  lemma OpenedIsSound(env: TurnEnv, open: Option<Loc>)
    ensures Sound(Opened(env, open).0)
  {
    EmptyIsSound();
    hide Sound, Returned;
    if open.Some? {
      var e := Read(open.value, env.tools.mail.read([], open.value));
      assert [] + [e] == [e];
      LogKeepsSound(EMPTY, e);
      JustReturned([], e);
      if e.mail.Ok? {
        assert MailsIn(e)[0] == e.mail.value;
        CiteKeepsSound(EMPTY.(log := [e]), e.mail.value);
      }
    }
  }

  /**
    Every turn ends after at most 6 model calls and 25 tool runs. It sends only well-formed transcripts, each extending
    the last; emits text and status events, then one error, or the sources, the proposals and one `Done` with
    the token sums; and leaves a context in which everything cited or proposed came from the mailbox.
   */
  lemma EveryTurnFollowsTheProtocol(env: TurnEnv, req: TurnRequest)
    requires PlainHistory(req.history)
    ensures var t := TurnOf(env, req);
            && Finished(env, Start(env, req).messages, t)
            && |t.sent| <= 6 && t.runs <= 25
  {
    StartIsGoing(env, req);
    StepsFinish(env, Start(env, req).messages, Start(env, req));
  }
}
