/** A whole turn spelled out: what the model is given before each call, and every event in order. */
module TurnTrace {
  import opened Wrappers
  import opened Refs
  import opened ModelStream
  import opened Tools
  import opened Turn
  import opened TurnTheorems
  import Fence

  // ----- The parts of a turn -----

  /** How a turn begins: the open email is read, cited as `m1` and fenced, if it still exists. */
  predicate OpensWith(env: TurnEnv, open: Option<Loc>, c: Context, o: Option<OpenEmail>) {
    match open
    case None => c == Context([], [], [], []) && o == None
    case Some(loc) =>
      match env.tools.mail.read([], loc)
      case Err(e) => c == Context([], [], [], [Read(loc, Err(e))]) && o == None
      case Ok(m) =>
        && c == Context([m.loc], [SourceRef("m1", m.loc, m.subject, m.sender, m.date)], [], [Read(loc, Ok(m))])
        && o == Some(OpenEmail("m1", Fence.Fenced(
             "Subject: " + m.subject + "\nFrom: " + m.sender + "\nDate: " + m.date + "\n\n" + m.text)))
  }

  /** The context after a list of calls: only the first five of a step are run. */
  function ContextAfter(env: TurnEnv, c: Context, calls: seq<ToolCall>): Context {
    if calls == [] then c
    else
      var n := |calls| - 1;
      var before := ContextAfter(env, c, calls[..n]);
      if n < 5 then RunTool(env.tools, before, calls[n].name, calls[n].arguments).0 else before
  }

  /** The answer to call number `k` of a step. */
  function AnswerAt(env: TurnEnv, c: Context, calls: seq<ToolCall>, k: nat): ChatMessage
    requires k < |calls|
  {
    var call, before := calls[k], ContextAfter(env, c, calls[..k]);
    ToolAnswer(call.id,
               if k < 5 then env.render(RunTool(env.tools, before, call.name, call.arguments).1)
               else "{\"error\":\"too many tool calls in one step; call at most 5\"}")
  }

  function AnswersIn(env: TurnEnv, c: Context, calls: seq<ToolCall>): seq<ChatMessage> {
    seq(|calls|, k requires 0 <= k < |calls| => AnswerAt(env, c, calls, k))
  }

  const LABELS := map[
    "search_mail" := "Searching mail…", "read_message" := "Reading email…",
    "read_thread" := "Reading the thread…", "propose_draft" := "Drafting a reply…",
    "propose_action" := "Preparing an action…"]

  function Label(name: string): string {
    if name in LABELS then LABELS[name] else "Working…"
  }

  /** The statuses shown for a list of calls. */
  function StatusesIn(calls: seq<ToolCall>): seq<Event> {
    seq(if |calls| < 5 then |calls| else 5, k requires 0 <= k < |calls| => Status(Label(calls[k].name)))
  }

  /** The conversation before model call `i`, when `cs[i]` is the context before it. */
  function Before(
    env: TurnEnv, base: seq<ChatMessage>, sent: seq<seq<ChatMessage>>, cs: seq<Context>, i: nat): seq<ChatMessage>
    requires i <= |sent| && i < |cs|
    requires i > 0 ==> AskedForTools(env, sent, i - 1)
  {
    if i == 0 then base
    else
      var reply := Answer(env, sent, i - 1).result.value;
      sent[i - 1] + [AssistantTools(reply.content, reply.calls)] + AnswersIn(env, cs[i - 1], reply.calls)
  }

  /** Model call `i` is given the conversation so far; the sixth also asks for an answer without tools. */
  predicate GivenAt(env: TurnEnv, base: seq<ChatMessage>, sent: seq<seq<ChatMessage>>, cs: seq<Context>, i: nat)
    requires i < |sent| && i < |cs|
  {
    && (i > 0 ==> AskedForTools(env, sent, i - 1))
    && sent[i] == Before(env, base, sent, cs, i)
                  + (if i == 5 then [System("Tool budget used. Answer now with what you have.")] else [])
  }

  /** The calls of reply `i` take one context to the next. */
  predicate RunsAt(env: TurnEnv, sent: seq<seq<ChatMessage>>, cs: seq<Context>, i: nat)
    requires i < |sent| && i + 1 < |cs|
  {
    && AskedForTools(env, sent, i)
    && cs[i + 1] == ContextAfter(env, cs[i], Answer(env, sent, i).result.value.calls)
  }

  /** What the user sees of model call `i`: its text, then a status for each call run. */
  function ShownAt(env: TurnEnv, sent: seq<seq<ChatMessage>>, i: nat): seq<Event>
    requires i < |sent|
  {
    var texts := TextEvents(Answer(env, sent, i).texts);
    if AskedForTools(env, sent, i) then texts + StatusesIn(Answer(env, sent, i).result.value.calls) else texts
  }

  function Narrated(env: TurnEnv, sent: seq<seq<ChatMessage>>): seq<Event> {
    if sent == [] then [] else Narrated(env, sent[..|sent| - 1]) + ShownAt(env, sent, |sent| - 1)
  }

  // ----- The calls of one step -----

  lemma {:induction false} CallsSpelledOut(env: TurnEnv, t: State, calls: seq<ToolCall>)
    ensures var r := AfterCalls(env, t, calls);
            && r.context == ContextAfter(env, t.context, calls)
            && r.messages == t.messages + AnswersIn(env, t.context, calls)
            && r.events == t.events + StatusesIn(calls)
            && r.sent == t.sent && r.inputTokens == t.inputTokens && r.outputTokens == t.outputTokens
    decreases |calls|
  {
    if calls == [] {
      Regroup(t.messages, [], []);
      Regroup(t.events, [], []);
      assert AnswersIn(env, t.context, calls) == [] && StatusesIn(calls) == [];
    } else {
      var n := |calls| - 1;
      var front := AfterCalls(env, t, calls[..n]);
      CallsSpelledOut(env, t, calls[..n]);
      AnswersOneMore(env, t.context, calls);
      StatusesOneMore(calls);
      OneCall(env, front, n, calls[n]);
      hide AfterCall, AnswersIn, StatusesIn, RunTool, StatusLabel, Label;
      Regroup(t.messages, AnswersIn(env, t.context, calls[..n]), [AnswerAt(env, t.context, calls, n)]);
      Regroup(t.events, StatusesIn(calls[..n]), [Status(Label(calls[n].name))]);
    }
  }

  lemma OneCall(env: TurnEnv, t: State, i: nat, call: ToolCall)
    ensures var r := AfterCall(env, t, i, call);
            var (context, reply) := RunTool(env.tools, t.context, call.name, call.arguments);
            && r.context == (if i < 5 then context else t.context)
            && r.messages == t.messages + [ToolAnswer(
                 call.id, if i < 5 then env.render(reply)
                 else "{\"error\":\"too many tool calls in one step; call at most 5\"}")]
            && r.events == t.events + (if i < 5 then [Status(Label(call.name))] else [])
            && r.sent == t.sent && r.inputTokens == t.inputTokens && r.outputTokens == t.outputTokens
  {
    LabelsAgree(call.name);
    hide RunTool, StatusLabel, Label;
    assert t.events + [] == t.events;
  }

  lemma LabelsAgree(name: string)
    ensures StatusLabel(name) == Label(name)
  {
  }

  lemma AnswersOneMore(env: TurnEnv, c: Context, calls: seq<ToolCall>)
    requires calls != []
    ensures var n := |calls| - 1;
            AnswersIn(env, c, calls) == AnswersIn(env, c, calls[..n]) + [AnswerAt(env, c, calls, n)]
  {
    hide AnswerAt;
    var n := |calls| - 1;
    forall k | 0 <= k < n ensures AnswerAt(env, c, calls, k) == AnswerAt(env, c, calls[..n], k) {
      SameAnswer(env, c, calls, n, k);
    }
  }

  lemma SameAnswer(env: TurnEnv, c: Context, calls: seq<ToolCall>, n: nat, k: nat)
    requires k < n <= |calls|
    ensures AnswerAt(env, c, calls, k) == AnswerAt(env, c, calls[..n], k)
  {
    hide RunTool, ContextAfter;
    assert calls[..n][..k] == calls[..k] && calls[..n][k] == calls[k];
  }

  lemma StatusesOneMore(calls: seq<ToolCall>)
    requires calls != []
    ensures var n := |calls| - 1;
            StatusesIn(calls) == StatusesIn(calls[..n]) + if n < 5 then [Status(Label(calls[n].name))] else []
  {
    hide Label;
  }

  // ----- One step after another -----

  /** What holds before each step. */
  ghost predicate Played(env: TurnEnv, base: seq<ChatMessage>, c: Context, t: State, cs: seq<Context>) {
    && |cs| == |t.sent| + 1 && cs[0] == c && t.context == cs[|t.sent|]
    && (forall i :: 0 <= i < |t.sent| ==> GivenAt(env, base, t.sent, cs, i))
    && (forall i :: 0 <= i < |t.sent| ==> RunsAt(env, t.sent, cs, i))
    && (t.sent != [] ==> AskedForTools(env, t.sent, |t.sent| - 1))
    && t.messages == Before(env, base, t.sent, cs, |t.sent|)
    && t.events == Narrated(env, t.sent)
  }

  /** A whole turn, with `cs[i]` the context before model call `i`. */
  ghost predicate Unfolds(env: TurnEnv, base: seq<ChatMessage>, c: Context, t: State, cs: seq<Context>) {
    && |cs| == |t.sent| && t.sent != [] && cs[0] == c && t.context == cs[|t.sent| - 1]
    && (forall i :: 0 <= i < |t.sent| ==> GivenAt(env, base, t.sent, cs, i))
    && (forall i :: 0 <= i < |t.sent| - 1 ==> RunsAt(env, t.sent, cs, i))
    && !AskedForTools(env, t.sent, |t.sent| - 1)
    && exists tail :: Ending(env, t, tail) && t.events == Narrated(env, t.sent) + tail
  }

  lemma GivenInLonger(
    env: TurnEnv, base: seq<ChatMessage>, sent: seq<seq<ChatMessage>>, cs: seq<Context>, i: nat,
    m: seq<ChatMessage>, more: seq<Context>)
    requires i < |sent| && i < |cs| && GivenAt(env, base, sent, cs, i)
    ensures GivenAt(env, base, sent + [m], cs + more, i)
  {
    hide AnswersIn;
    var now, cs' := sent + [m], cs + more;
    assert now[i] == sent[i] && cs'[i] == cs[i];
    if i > 0 {
      assert now[i - 1] == sent[i - 1] && cs'[i - 1] == cs[i - 1];
      assert Answer(env, now, i - 1) == Answer(env, sent, i - 1);
    }
  }

  lemma RunsInLonger(
    env: TurnEnv, sent: seq<seq<ChatMessage>>, cs: seq<Context>, i: nat, m: seq<ChatMessage>, more: seq<Context>)
    requires i < |sent| && i + 1 < |cs| && RunsAt(env, sent, cs, i)
    ensures RunsAt(env, sent + [m], cs + more, i)
  {
    hide ContextAfter;
    var now, cs' := sent + [m], cs + more;
    assert now[i] == sent[i] && cs'[i] == cs[i] && cs'[i + 1] == cs[i + 1];
    assert Answer(env, now, i) == Answer(env, sent, i);
  }

  /** A model call gives the model what it should see, and its text is shown. */
  lemma AskSpelledOut(env: TurnEnv, base: seq<ChatMessage>, c: Context, t: State, cs: seq<Context>)
    requires Played(env, base, c, t, cs) && |t.sent| <= 5
    ensures var asked := Asked(env, t, |t.sent|);
            && asked.sent == t.sent + [asked.messages] && asked.context == t.context
            && (forall i :: 0 <= i <= |t.sent| ==> GivenAt(env, base, asked.sent, cs, i))
            && asked.events == Narrated(env, t.sent) + TextEvents(Answer(env, asked.sent, |t.sent|).texts)
  {
    var n := |t.sent|;
    var asked := Asked(env, t, n);
    hide RunsAt, AnswersIn, Narrated, TextEvents;
    forall i | 0 <= i < n ensures GivenAt(env, base, asked.sent, cs, i) {
      GivenInLonger(env, base, t.sent, cs, i, asked.messages, []);
      assert cs + [] == cs;
    }
    var now := asked.sent;
    assert now[n] == asked.messages && (n > 0 ==> now[n - 1] == t.sent[n - 1]);
    assert n > 0 ==> Answer(env, now, n - 1) == Answer(env, t.sent, n - 1);
    assert Before(env, base, now, cs, n) == t.messages;
  }

  lemma NarratedMore(env: TurnEnv, sent: seq<seq<ChatMessage>>, m: seq<ChatMessage>)
    ensures Narrated(env, sent + [m]) == Narrated(env, sent) + ShownAt(env, sent + [m], |sent|)
  {
    hide ShownAt;
    assert (sent + [m])[..|sent|] == sent;
  }

  /** The calls of a step that goes on. */
  lemma StepPlays(env: TurnEnv, base: seq<ChatMessage>, c: Context, t: State, cs: seq<Context>)
    requires Played(env, base, c, t, cs) && |t.sent| <= 5
    requires AskedForTools(env, Asked(env, t, |t.sent|).sent, |t.sent|)
    ensures var asked := Asked(env, t, |t.sent|);
            var reply := Answer(env, asked.sent, |t.sent|).result.value;
            var next := AfterReply(env, Counted(asked, reply), reply);
            Played(env, base, c, next, cs + [next.context])
  {
    var n := |t.sent|;
    var asked := Asked(env, t, n);
    var reply := Answer(env, asked.sent, n).result.value;
    var question := [AssistantTools(reply.content, reply.calls)];
    var posed := Counted(asked, reply).(messages := asked.messages + question);
    var next := AfterReply(env, Counted(asked, reply), reply);
    AskSpelledOut(env, base, c, t, cs);
    CallsSpelledOut(env, posed, reply.calls);
    NarratedMore(env, t.sent, asked.messages);
    hide AfterCalls, AnswersIn, Narrated, TextEvents, StatusesIn, ContextAfter, Transcript, GivenAt, AskedForTools;
    var cs' := cs + [next.context];
    assert next.sent == asked.sent && next.context == ContextAfter(env, cs[n], reply.calls);
    assert asked.sent[n] == asked.messages;
    forall i | 0 <= i <= n ensures GivenAt(env, base, asked.sent, cs', i) {
      GivenWithMore(env, base, asked.sent, cs, i, next.context);
    }
    forall i | 0 <= i <= n ensures RunsAt(env, asked.sent, cs', i) {
      if i < n {
        RunsInLonger(env, t.sent, cs, i, asked.messages, [next.context]);
      }
    }
    Regroup(Narrated(env, t.sent), TextEvents(Answer(env, asked.sent, n).texts), StatusesIn(reply.calls));
    assert Before(env, base, asked.sent, cs', n + 1) ==
           asked.messages + question + AnswersIn(env, cs[n], reply.calls);
  }

  lemma GivenWithMore(
    env: TurnEnv, base: seq<ChatMessage>, sent: seq<seq<ChatMessage>>, cs: seq<Context>, i: nat, next: Context)
    requires i < |sent| && i < |cs| && GivenAt(env, base, sent, cs, i)
    ensures GivenAt(env, base, sent, cs + [next], i)
  {
    hide AnswersIn;
    assert (cs + [next])[i] == cs[i] && (i > 0 ==> (cs + [next])[i - 1] == cs[i - 1]);
  }

  /** A step that does not go on. */
  lemma LastStepUnfolds(env: TurnEnv, base: seq<ChatMessage>, c: Context, t: State, cs: seq<Context>)
    requires Played(env, base, c, t, cs) && Told(env, t) && |t.sent| <= 5
    requires !AskedForTools(env, Asked(env, t, |t.sent|).sent, |t.sent|)
    ensures Unfolds(env, base, c, Steps(env, t, |t.sent|), cs)
  {
    var n := |t.sent|;
    var asked := Asked(env, t, n);
    var r := Steps(env, t, n);
    AskSpelledOut(env, base, c, t, cs);
    NarratedMore(env, t.sent, asked.messages);
    var tail := EndOfTurn(env, t);
    hide Told, Asked, Steps, GivenAt, RunsAt, Narrated, TextEvents, AskedForTools, Ending;
    forall i | 0 <= i < n ensures RunsAt(env, r.sent, cs, i) {
      RunsInLonger(env, t.sent, cs, i, asked.messages, []);
      assert cs + [] == cs;
    }
    assert Ending(env, r, tail) && r.events == Narrated(env, r.sent) + tail;
  }

  lemma {:induction false} StepsUnfold(env: TurnEnv, base: seq<ChatMessage>, c: Context, t: State, cs: seq<Context>)
    returns (all: seq<Context>)
    requires Going(env, base, t) && Played(env, base, c, t, cs) && |t.sent| <= 5
    ensures Unfolds(env, base, c, Steps(env, t, |t.sent|), all)
    decreases 5 - |t.sent|
  {
    var asked := Asked(env, t, |t.sent|);
    if AskedForTools(env, asked.sent, |t.sent|) {
      var reply := Answer(env, asked.sent, |t.sent|).result.value;
      var next := AfterReply(env, Counted(asked, reply), reply);
      StepKeepsGoing(env, base, t);
      GoesOn(env, t);
      StepPlays(env, base, c, t, cs);
      hide Going, Played, Unfolds, Steps, Asked, Counted, AfterReply, AskedForTools, Answer;
      all := StepsUnfold(env, base, c, next, cs + [next.context]);
    } else {
      LastStepUnfolds(env, base, c, t, cs);
      all := cs;
    }
  }

  lemma StartOpens(env: TurnEnv, req: TurnRequest) returns (o: Option<OpenEmail>)
    ensures var t := Start(env, req);
            && OpensWith(env, req.open, t.context, o)
            && t.messages == [System(env.prompt(req.owner, req.today, o))] + req.history
            && t.sent == [] && t.events == []
  {
    o := Opened(env, req.open).1;
    assert Ref(1) == "m1";
  }

  /**
    A whole turn, spelled out. The first call is given the prompt and the history; each further one what was said,
    asked and answered since, the sixth also the request to answer now. The user sees the text of each reply and a
    status for each call run, in order, then one error, or the sources, the proposals and `Done`.
   */
  lemma TurnUnfolds(env: TurnEnv, req: TurnRequest) returns (c: Context, o: Option<OpenEmail>, cs: seq<Context>)
    requires PlainHistory(req.history)
    ensures OpensWith(env, req.open, c, o)
    ensures Unfolds(env, [System(env.prompt(req.owner, req.today, o))] + req.history, c, TurnOf(env, req), cs)
  {
    o := StartOpens(env, req);
    StartIsGoing(env, req);
    var t := Start(env, req);
    c := t.context;
    hide Going, Unfolds, Steps, Start, OpensWith;
    assert Played(env, t.messages, c, t, [c]);
    cs := StepsUnfold(env, t.messages, c, t, [c]);
  }

  /** Every transcript the model is given begins with the system prompt and the conversation of the request. */
  lemma ModelIsGivenTheConversation(env: TurnEnv, req: TurnRequest) returns (c: Context, o: Option<OpenEmail>)
    requires PlainHistory(req.history)
    ensures OpensWith(env, req.open, c, o)
    ensures var sent := TurnOf(env, req).sent;
            && sent != []
            && sent[0] == [System(env.prompt(req.owner, req.today, o))] + req.history
            && forall i :: 0 <= i < |sent| ==> [System(env.prompt(req.owner, req.today, o))] + req.history <= sent[i]
  {
    EveryTurnFollowsTheProtocol(env, req);
    var cs: seq<Context>;
    c, o, cs := TurnUnfolds(env, req);
    var base, t := [System(env.prompt(req.owner, req.today, o))] + req.history, TurnOf(env, req);
    assert GivenAt(env, base, t.sent, cs, 0);
    assert t.sent[0] == base;
    assert Chain(Start(env, req).messages, t.sent);
    hide TurnOf, Unfolds, OpensWith, WellFormed, Start;
  }
}
