/** One assistant turn: model, tools, model, bounded, with its events in a fixed order. */
module Turn {
  import opened Wrappers
  import opened Refs
  import opened ModelStream
  import opened Tools
  import Fence

  const MAX_STEPS := 5
  const MAX_TOOL_CALLS_PER_STEP := 5
  const U64 := 0x1_0000_0000_0000_0000

  const BUDGET_USED := "Tool budget used. Answer now with what you have."
  const TOO_MANY_CALLS := "{\"error\":\"too many tool calls in one step; call at most 5\"}"

  datatype ChatMessage =
    | System(content: string)
    | User(content: string)
    | Assistant(content: string)
    | AssistantTools(content: string, calls: seq<ToolCall>)
    | ToolAnswer(callId: string, content: string)

  /** What a model call streams to the user, and how it ends. */
  datatype Completion = Completion(texts: seq<string>, result: Result<ModelReply, ModelError>)

  datatype OpenEmail = OpenEmail(ref: string, block: string)

  /** The model, the mailbox and the two renderings a turn depends on, all left abstract. */
  datatype TurnEnv = TurnEnv(
    complete: (seq<ChatMessage>, bool) -> Completion,
    tools: Env,
    prompt: (string, string, Option<OpenEmail>) -> string,
    render: Reply -> string)

  datatype TurnRequest = TurnRequest(history: seq<ChatMessage>, open: Option<Loc>, owner: string, today: string)

  // ----- The history the route accepts -----

  datatype ChatTurn = ChatTurn(role: string, content: string)

  const MAX_HISTORY := 20
  const MAX_CONTENT := 8000

  predicate IsPlain(m: ChatMessage) {
    m.User? || m.Assistant?
  }

  predicate PlainHistory(history: seq<ChatMessage>) {
    forall i :: 0 <= i < |history| ==> IsPlain(history[i])
  }

  predicate Acceptable(t: ChatTurn) {
    (t.role == "user" || t.role == "assistant") && |t.content| <= 8000
  }

  function Converted(turns: seq<ChatTurn>): (r: Result<seq<ChatMessage>, string>)
    ensures r.Ok? <==> forall i :: 0 <= i < |turns| ==> Acceptable(turns[i])
    ensures r.Ok? ==>
              && |r.value| == |turns| && PlainHistory(r.value)
              && forall i :: 0 <= i < |turns| ==>
                   r.value[i] == if turns[i].role == "user" then User(turns[i].content) else Assistant(turns[i].content)
  {
    if turns == [] then Ok([])
    else if |turns[0].content| > MAX_CONTENT then Err("messages are limited to 8000 characters")
    else if turns[0].role != "user" && turns[0].role != "assistant" then Err("roles are user or assistant")
    else
      match Converted(turns[1..])
      case Err(e) => Err(e)
      case Ok(rest) =>
        Ok([if turns[0].role == "user" then User(turns[0].content) else Assistant(turns[0].content)] + rest)
  }

  /** The last 20 turns, which must end with the user and hold no other role. */
  function History(turns: seq<ChatTurn>): (r: Result<seq<ChatMessage>, string>)
    ensures r.Ok? <==>
            && turns != [] && turns[|turns| - 1].role == "user"
            && forall i :: 0 <= i < |turns| && |turns| - 20 <= i ==> Acceptable(turns[i])
    ensures r.Ok? ==>
              && |r.value| == (if |turns| < 20 then |turns| else 20)
              && PlainHistory(r.value) && r.value[|r.value| - 1].User?
              && forall i :: 0 <= i < |r.value| ==>
                   var turn := turns[|turns| - |r.value| + i];
                   r.value[i] == if turn.role == "user" then User(turn.content) else Assistant(turn.content)
  {
    if turns == [] || turns[|turns| - 1].role != "user" then Err("the last message must be from the user")
    else Converted(if |turns| > MAX_HISTORY then turns[|turns| - MAX_HISTORY..] else turns)
  }

  // ----- A turn as a function of its surroundings -----

  /** A turn under way: `sent` are the transcripts the model was given, `runs` counts the tools run. */
  datatype State = State(
    context: Context,
    messages: seq<ChatMessage>,
    inputTokens: nat,
    outputTokens: nat,
    events: seq<Event>,
    sent: seq<seq<ChatMessage>>,
    runs: nat)

  function StatusLabel(name: string): string {
    if name == "search_mail" then "Searching mail…"
    else if name == "read_message" then "Reading email…"
    else if name == "read_thread" then "Reading the thread…"
    else if name == "propose_draft" then "Drafting a reply…"
    else if name == "propose_action" then "Preparing an action…"
    else "Working…"
  }

  function Offered(step: int): bool {
    step < MAX_STEPS
  }

  function TextEvents(texts: seq<string>): seq<Event> {
    seq(|texts|, i requires 0 <= i < |texts| => Text(texts[i]))
  }

  /** The transcript of a step; the last one asks for an answer without tools. */
  function Transcript(messages: seq<ChatMessage>, step: int): seq<ChatMessage> {
    if Offered(step) then messages else messages + [System(BUDGET_USED)]
  }

  /** A model call: its transcript is sent and its text reaches the user, whatever the outcome. */
  function Asked(env: TurnEnv, t: State, step: int): State {
    var transcript := Transcript(t.messages, step);
    t.(messages := transcript,
       sent := t.sent + [transcript],
       events := t.events + TextEvents(env.complete(transcript, Offered(step)).texts))
  }

  function Counted(t: State, reply: ModelReply): State {
    t.(inputTokens := (t.inputTokens + reply.inputTokens) % U64,
       outputTokens := (t.outputTokens + reply.outputTokens) % U64)
  }

  /** Call number `i` of a step: run, or refused but still answered. */
  function AfterCall(env: TurnEnv, t: State, i: nat, call: ToolCall): State {
    if i >= MAX_TOOL_CALLS_PER_STEP then t.(messages := t.messages + [ToolAnswer(call.id, TOO_MANY_CALLS)])
    else
      var (context, reply) := RunTool(env.tools, t.context, call.name, call.arguments);
      t.(context := context,
         messages := t.messages + [ToolAnswer(call.id, env.render(reply))],
         events := t.events + [Status(StatusLabel(call.name))],
         runs := t.runs + 1)
  }

  function AfterCalls(env: TurnEnv, t: State, calls: seq<ToolCall>): State {
    if calls == [] then t
    else
      var n := |calls| - 1;
      AfterCall(env, AfterCalls(env, t, calls[..n]), n, calls[n])
  }

  function AfterReply(env: TurnEnv, t: State, reply: ModelReply): State {
    AfterCalls(env, t.(messages := t.messages + [AssistantTools(reply.content, reply.calls)]), reply.calls)
  }

  function Failure(e: ModelError): Event {
    match e
    case Retryable => Error("The assistant can't reach OpenAI right now.", true)
    case Fatal => Error("The assistant hit an error.", false)
  }

  function Finish(t: State): State {
    t.(events := t.events
                 + (if t.context.sources == [] then [] else [Sources(t.context.sources)])
                 + t.context.proposals
                 + [Done(t.inputTokens, t.outputTokens)])
  }

  function Steps(env: TurnEnv, t: State, step: int): State
    requires 0 <= step <= MAX_STEPS
    decreases MAX_STEPS - step
  {
    var asked := Asked(env, t, step);
    match env.complete(asked.messages, Offered(step)).result
    case Err(e) => asked.(events := asked.events + [Failure(e)])
    case Ok(reply) =>
      var counted := Counted(asked, reply);
      if reply.calls == [] || !Offered(step) then Finish(counted)
      else Steps(env, AfterReply(env, counted, reply), step + 1)
  }

  function OpenBlock(m: Mail): string {
    Fence.Fenced("Subject: " + m.subject + "\nFrom: " + m.sender + "\nDate: " + m.date + "\n\n" + m.text)
  }

  /** The open email, read and cited before the first step if it still exists. */
  function Opened(env: TurnEnv, open: Option<Loc>): (Context, Option<OpenEmail>) {
    match open
    case None => (EMPTY, None)
    case Some(loc) =>
      var mail := env.tools.mail.read([], loc);
      var asked := EMPTY.(log := [Read(loc, mail)]);
      match mail
      case Err(_) => (asked, None)
      case Ok(m) => (Cite(asked, m), Some(OpenEmail(RefOf([], m.loc), OpenBlock(m))))
  }

  function Start(env: TurnEnv, req: TurnRequest): State {
    var (context, open) := Opened(env, req.open);
    State(context, [System(env.prompt(req.owner, req.today, open))] + req.history, 0, 0, [], [], 0)
  }

  function TurnOf(env: TurnEnv, req: TurnRequest): State {
    Steps(env, Start(env, req), 0)
  }

  // ----- The turn as it runs -----

  /** Read and cite the open email. */
  method OpenMail(env: TurnEnv, ctx: ToolContext, loc: Option<Loc>) returns (open: Option<OpenEmail>)
    requires ctx.Valid() && ctx.View() == EMPTY
    modifies ctx, ctx.refs
    ensures ctx.Valid() && (ctx.View(), open) == Opened(env, loc)
  {
    hide RefTable.Valid, Cite, OpenBlock;
    open := None;
    if loc.Some? {
      var mail := env.tools.mail.read(ctx.log, loc.value);
      ctx.log := ctx.log + [Read(loc.value, mail)];
      assert ctx.View() == EMPTY.(log := [Read(loc.value, mail)]);
      if mail.Ok? {
        var r := ctx.CiteMail(mail.value);
        open := Some(OpenEmail(r, OpenBlock(mail.value)));
      }
    }
  }

  /** Answer the calls of one step, in order. */
  method RunCalls(env: TurnEnv, ctx: ToolContext, calls: seq<ToolCall>, ghost t: State)
    returns (answers: seq<ChatMessage>, statuses: seq<Event>, ran: nat)
    requires ctx.Valid() && ctx.View() == t.context
    modifies ctx, ctx.refs
    ensures ctx.Valid()
    ensures AfterCalls(env, t, calls) ==
            t.(context := ctx.View(), messages := t.messages + answers,
               events := t.events + statuses, runs := t.runs + ran)
  {
    hide RefTable.Valid, RunTool, StatusLabel;
    answers, statuses, ran := [], [], 0;
    var i := 0;
    while i < |calls|
      invariant 0 <= i <= |calls| && ctx.Valid()
      invariant AfterCalls(env, t, calls[..i]) ==
                t.(context := ctx.View(), messages := t.messages + answers,
                   events := t.events + statuses, runs := t.runs + ran)
    {
      var call := calls[i];
      assert calls[..i + 1][..i] == calls[..i];
      if i >= MAX_TOOL_CALLS_PER_STEP {
        answers := answers + [ToolAnswer(call.id, TOO_MANY_CALLS)];
      } else {
        statuses := statuses + [Status(StatusLabel(call.name))];
        var answer := ctx.Run(env.tools, call.name, call.arguments);
        answers := answers + [ToolAnswer(call.id, env.render(answer))];
        ran := ran + 1;
      }
      i := i + 1;
    }
    assert calls[..i] == calls;
  }

  lemma OneStep(env: TurnEnv, t: State, step: int)
    requires 0 <= step <= MAX_STEPS
    ensures var asked := Asked(env, t, step);
            Steps(env, t, step) ==
            match env.complete(asked.messages, Offered(step)).result
            case Err(e) => asked.(events := asked.events + [Failure(e)])
            case Ok(reply) =>
              if reply.calls == [] || !Offered(step) then Finish(Counted(asked, reply))
              else Steps(env, AfterReply(env, Counted(asked, reply), reply), step + 1)
  {
    hide Asked, Finish, Counted, AfterReply;
  }

  method RunTurn(env: TurnEnv, req: TurnRequest) returns (events: seq<Event>, sent: seq<seq<ChatMessage>>, runs: nat)
    ensures events == TurnOf(env, req).events
    ensures sent == TurnOf(env, req).sent
    ensures runs == TurnOf(env, req).runs
  {
    hide RefTable.Valid, Opened, AfterCalls, Failure, TextEvents, Steps;
    var ctx := new ToolContext();
    var open := OpenMail(env, ctx, req.open);
    var messages := [System(env.prompt(req.owner, req.today, open))] + req.history;
    var inputTokens: nat, outputTokens: nat := 0, 0;
    events, sent, runs := [], [], 0;
    var step := 0;
    while step <= MAX_STEPS
      invariant 0 <= step <= MAX_STEPS && ctx.Valid() && fresh(ctx) && fresh(ctx.refs)
      invariant TurnOf(env, req) ==
                Steps(env, State(ctx.View(), messages, inputTokens, outputTokens, events, sent, runs), step)
      decreases MAX_STEPS - step
    {
      ghost var t := State(ctx.View(), messages, inputTokens, outputTokens, events, sent, runs);
      var last := step == MAX_STEPS;
      if last {
        messages := messages + [System(BUDGET_USED)];
      }
      sent := sent + [messages];
      var completion := env.complete(messages, !last);
      events := events + TextEvents(completion.texts);
      OneStep(env, t, step);
      if completion.result.Err? {
        events := events + [Failure(completion.result.error)];
        return;
      }
      var reply := completion.result.value;
      inputTokens := (inputTokens + reply.inputTokens) % U64;
      outputTokens := (outputTokens + reply.outputTokens) % U64;
      if reply.calls == [] || last {
        break;
      }
      messages := messages + [AssistantTools(reply.content, reply.calls)];
      ghost var before := State(ctx.View(), messages, inputTokens, outputTokens, events, sent, runs);
      var answers, statuses, ran := RunCalls(env, ctx, reply.calls, before);
      messages, events, runs := messages + answers, events + statuses, runs + ran;
      step := step + 1;
    }
    if ctx.sources != [] {
      events := events + [Sources(ctx.sources)];
    }
    events := events + ctx.proposals;
    events := events + [Done(inputTokens, outputTokens)];
  }
}
