/** What each tool asks the mailbox, what it tells the model, and what it offers the user. */
module ToolResults {
  import opened Wrappers
  import opened Refs
  import opened Actions
  import opened Tools
  import opened Provenance
  import Fence
  import Words

  /** Only the log grew, by one exchange. */
  predicate OnlyAsked(was: Context, now: Context, e: Exchange) {
    now == Context(was.minted, was.sources, was.proposals, was.log + [e])
  }

  /** The log grew by one exchange, and no proposal was made. */
  predicate Looked(was: Context, now: Context, e: Exchange) {
    now.log == was.log + [e] && now.proposals == was.proposals
  }

  lemma CiteTouches(c: Context, m: Mail)
    ensures Cite(c, m).log == c.log && Cite(c, m).proposals == c.proposals
  {
  }

  lemma {:induction false} CiteAllTouches(c: Context, mails: seq<Mail>)
    ensures CiteAll(c, mails).log == c.log && CiteAll(c, mails).proposals == c.proposals
  {
    if mails != [] {
      CiteAllTouches(c, mails[..|mails| - 1]);
      CiteTouches(CiteAll(c, mails[..|mails| - 1]), mails[|mails| - 1]);
    }
  }

  /** A search passes its arguments on and shows the first ten messages found, in order. */
  lemma SearchShowsFirstTen(env: Env, c: Context, arguments: string, args: SearchArgs)
    requires Sound(c) && env.parse.search(arguments) == Ok(args)
    ensures var found := env.mail.search(c.log, args);
            var (now, reply) := RunTool(env, c, "search_mail", arguments);
            match found
            case Err(e) => OnlyAsked(c, now, Searched(args, found)) && reply == Failed(e)
            case Ok(mails) =>
              && Looked(c, now, Searched(args, found)) && reply.Results?
              && ShowsInOrder(now, reply.results, if |mails| > 10 then mails[..10] else mails)
  {
    var found := env.mail.search(c.log, args);
    var e := Searched(args, found);
    hide Sound, Returned, CiteAll, ShowAll, ShowsInOrder;
    LogKeepsSound(c, e);
    JustReturned(c.log, e);
    if found.Ok? {
      var asked := c.(log := c.log + [e]);
      TenAreReturned(asked.log, found.value);
      ShowAllIsCitable(asked, FirstTen(found.value));
      CiteAllTouches(asked, FirstTen(found.value));
    }
  }

  /** Reading a message asks for the one its ref stands for and shows it in full. */
  lemma ReadShowsMessage(env: Env, c: Context, arguments: string, r: string, loc: Loc)
    requires Sound(c) && env.parse.ref(arguments) == Ok(r) && Resolve(c.minted, r) == Some(loc)
    ensures var mail := env.mail.read(c.log, loc);
            var (now, reply) := RunTool(env, c, "read_message", arguments);
            match mail
            case Err(e) => OnlyAsked(c, now, Read(loc, mail)) && reply == Failed(e)
            case Ok(m) =>
              && Looked(c, now, Read(loc, mail)) && reply.Message?
              && ShowsMail(now, reply.message, m) && reply.message.recipients == Some(m.recipients)
  {
    var mail := env.mail.read(c.log, loc);
    var e := Read(loc, mail);
    hide Sound, Returned, Cite, Show, ShowsMail, Resolve;
    LogKeepsSound(c, e);
    JustReturned(c.log, e);
    if mail.Ok? {
      var asked := c.(log := c.log + [e]);
      assert MailsIn(e)[0] == mail.value;
      ShowIsCitable(asked, mail.value, Some(mail.value.recipients));
      CiteTouches(asked, mail.value);
    }
  }

  /** Reading a thread asks for the thread of the message its ref stands for and shows all of it, in order. */
  lemma ThreadShowsMessages(env: Env, c: Context, arguments: string, r: string, loc: Loc)
    requires Sound(c) && env.parse.ref(arguments) == Ok(r) && Resolve(c.minted, r) == Some(loc)
    ensures var mails := env.mail.thread(c.log, loc);
            var (now, reply) := RunTool(env, c, "read_thread", arguments);
            match mails
            case Err(e) => OnlyAsked(c, now, ReadThread(loc, mails)) && reply == Failed(e)
            case Ok(ms) =>
              && Looked(c, now, ReadThread(loc, mails)) && reply.Messages?
              && ShowsInOrder(now, reply.messages, ms)
  {
    var mails := env.mail.thread(c.log, loc);
    var e := ReadThread(loc, mails);
    hide Sound, Returned, CiteAll, ShowAll, ShowsInOrder, Resolve;
    LogKeepsSound(c, e);
    JustReturned(c.log, e);
    if mails.Ok? {
      var asked := c.(log := c.log + [e]);
      ShowAllIsCitable(asked, mails.value);
      CiteAllTouches(asked, mails.value);
    }
  }

  /** A ref nobody was shown is refused, and the mailbox is not asked. */
  lemma UnknownRefIsRefused(env: Env, c: Context, name: string, arguments: string, r: string)
    requires name == "read_message" || name == "read_thread"
    requires env.parse.ref(arguments) == Ok(r) && Resolve(c.minted, r) == None
    ensures RunTool(env, c, name, arguments) == (c, Failed("unknown ref " + r + "; use a ref you were shown"))
  {
    hide Resolve;
  }

  /** A draft is offered exactly for a message that was shown and with a body that is not blank. */
  lemma DraftIsOffered(env: Env, c: Context, arguments: string, args: DraftArgs)
    requires env.parse.draft(arguments) == Ok(args)
    ensures var (now, reply) := RunTool(env, c, "propose_draft", arguments);
            match Resolve(c.minted, args.ref)
            case None => now == c && reply == Failed("unknown ref " + args.ref + "; use a ref you were shown")
            case Some(loc) =>
              if forall i :: 0 <= i < |args.body| ==> Words.IsSpace(args.body[i]) then
                now == c && reply == Failed("the draft body is empty")
              else
                && now == Context(c.minted, c.sources, c.proposals + [Draft(args.ref, loc, args.body)], c.log)
                && reply == DraftShown
  {
    hide Resolve, Words.IsSpace;
    Words.TrimIsEmptyIff(args.body);
  }

  /** Calls that name no tool, or whose arguments cannot be read, are refused and change nothing. */
  lemma OtherCallsAreRefused(env: Env, c: Context, name: string, arguments: string)
    ensures name !in {"search_mail", "read_message", "read_thread", "propose_draft", "propose_action"} ==>
              RunTool(env, c, name, arguments) == (c, Failed("no tool named " + name))
    ensures forall e ::
              || (name == "search_mail" && env.parse.search(arguments) == Err(e))
              || (name in {"read_message", "read_thread"} && env.parse.ref(arguments) == Err(e))
              || (name == "propose_draft" && env.parse.draft(arguments) == Err(e))
              || (name == "propose_action" && env.parse.action(arguments) == Err(e)) ==>
                RunTool(env, c, name, arguments) == (c, Failed("bad arguments for " + name + ": " + e))
  {
    hide SearchMail, ReadMessage, ReadWholeThread, ProposeDraft, ProposeAction;
  }

  // ----- Actions -----

  ghost predicate Asked(c: Context, refs: seq<string>, loc: Loc) {
    exists i :: 0 <= i < |refs| && Resolve(c.minted, refs[i]) == Some(loc)
  }

  /** The messages an action is about: none for a filter, else exactly those behind the refs, each once. */
  ghost predicate About(c: Context, args: ActionArgs, messages: seq<ActionMessage>) {
    if args.kind == "create_filter" then messages == []
    else
      && NoMessageTwice(messages) && AllSources(c.sources, messages)
      && forall loc :: Named(messages, loc) <==> Asked(c, args.refs, loc)
  }

  predicate AllKnown(c: Context, refs: seq<string>) {
    forall i :: 0 <= i < |refs| ==> Resolve(c.minted, refs[i]).Some?
  }

  lemma AskedStep(c: Context, refs: seq<string>, first: Loc, loc: Loc)
    requires refs != [] && Resolve(c.minted, refs[0]) == Some(first)
    ensures Asked(c, refs, loc) <==> loc == first || Asked(c, refs[1..], loc)
  {
    hide Resolve;
    if loc == first {
      assert Resolve(c.minted, refs[0]) == Some(loc);
    }
    if i :| 0 <= i < |refs[1..]| && Resolve(c.minted, refs[1..][i]) == Some(loc) {
      assert refs[i + 1] == refs[1..][i];
    }
    if i :| 0 <= i < |refs| && Resolve(c.minted, refs[i]) == Some(loc) {
      assert i > 0 ==> refs[1..][i - 1] == refs[i];
    }
  }

  /** The messages collected are those named before and those asked for. */
  lemma {:induction false} CollectedIffAsked(c: Context, refs: seq<string>, messages: seq<ActionMessage>, loc: Loc)
    requires AllKnown(c, refs)
    ensures var r := Collect(c, refs, messages);
            r.Ok? && (Named(r.value, loc) <==> Named(messages, loc) || Asked(c, refs, loc))
    decreases |refs|
  {
    hide Resolve;
    if refs != [] {
      var first := Resolve(c.minted, refs[0]).value;
      var m := ActionMessage(first, SubjectOf(c.sources, refs[0]));
      NamedStep(messages, m);
      AskedStep(c, refs, first, loc);
      assert forall i :: 0 <= i < |refs[1..]| ==> refs[1..][i] == refs[i + 1];
      hide Named, Asked;
      CollectedIffAsked(c, refs[1..], if Named(messages, first) then messages else messages + [m], loc);
    }
  }

  lemma CollectedAreAsked(c: Context, args: ActionArgs) returns (messages: seq<ActionMessage>)
    requires Sound(c) && (args.kind == "create_filter" || AllKnown(c, args.refs))
    ensures About(c, args, messages)
    ensures (if args.kind == "create_filter" then Ok([]) else Collect(c, args.refs, [])) == Ok(messages)
  {
    if args.kind == "create_filter" {
      messages := [];
    } else {
      hide Sound, Collect, Named, Asked, NoMessageTwice, AllSources, IsSource, AllKnown, Resolve;
      CollectedIffAsked(c, args.refs, [], Loc("", 0));
      messages := Collect(c, args.refs, []).value;
      assert NoMessageTwice([]) && AllSources(c.sources, []) by { NothingYet(c.sources); }
      CollectIsGrounded(c, args.refs, []);
      forall loc ensures Named(messages, loc) <==> Asked(c, args.refs, loc) {
        CollectedIffAsked(c, args.refs, [], loc);
        NothingNamed(loc);
      }
    }
  }

  lemma NothingYet(sources: seq<SourceRef>)
    ensures NoMessageTwice([]) && AllSources(sources, [])
  {
  }

  lemma NothingNamed(loc: Loc)
    ensures !Named([], loc)
  {
  }

  /** What becomes of an action on messages that were all shown: it is offered if it is possible as asked. */
  lemma ActionIsOffered(env: Env, c: Context, arguments: string, args: ActionArgs)
    returns (messages: seq<ActionMessage>)
    requires Sound(c) && env.parse.action(arguments) == Ok(args)
    requires args.kind == "create_filter" || AllKnown(c, args.refs)
    ensures About(c, args, messages)
    ensures var folders := env.mail.folders(c.log);
            var (now, reply) := RunTool(env, c, "propose_action", arguments);
            match folders
            case Err(e) => OnlyAsked(c, now, Listed(folders)) && reply == Failed(e)
            case Ok(names) => Offered(env, c, args, messages, names, now, reply)
  {
    hide Sound, Collect, ValidateAction, AsAsked, About, AllKnown, RunTool, IsOffer, OnlyAsked;
    messages := CollectedAreAsked(c, args);
    ActionRuns(env, c, arguments, args, messages);
    var folders := env.mail.folders(c.log);
    if folders.Ok? {
      var r := ValidateAction(env.lower, args, messages, folders.value);
      forall p ensures r == Ok(p) <==> AsAsked(env.lower, args, messages, folders.value, p) {
        ProposesWhatWasAsked(env.lower, args, messages, folders.value, p);
      }
      assert r.Ok? ==> AsAsked(env.lower, args, messages, folders.value, r.value);
    }
  }

  /** The steps of the action tool once its messages are collected. */
  lemma ActionRuns(env: Env, c: Context, arguments: string, args: ActionArgs, messages: seq<ActionMessage>)
    requires env.parse.action(arguments) == Ok(args)
    requires (if args.kind == "create_filter" then Ok([]) else Collect(c, args.refs, [])) == Ok(messages)
    ensures var folders := env.mail.folders(c.log);
            var (now, reply) := RunTool(env, c, "propose_action", arguments);
            match folders
            case Err(e) => OnlyAsked(c, now, Listed(folders)) && reply == Failed(e)
            case Ok(names) =>
              match ValidateAction(env.lower, args, messages, names)
              case Err(e) => OnlyAsked(c, now, Listed(folders)) && reply == Failed(e)
              case Ok(p) => IsOffer(c, names, p, now, reply)
  {
    hide Collect, ValidateAction;
  }

  /** Either the action as asked is offered, or there is none and only the folders were looked up. */
  ghost predicate Offered(
    env: Env, c: Context, args: ActionArgs, messages: seq<ActionMessage>, names: seq<string>,
    now: Context, reply: Reply)
  {
    || (exists p :: AsAsked(env.lower, args, messages, names, p) && IsOffer(c, names, p, now, reply))
    || (&& (forall p :: !AsAsked(env.lower, args, messages, names, p))
        && OnlyAsked(c, now, Listed(Ok(names))) && reply.Failed?)
  }

  predicate IsOffer(c: Context, names: seq<string>, p: ActionProposal, now: Context, reply: Reply) {
    && now == Context(c.minted, c.sources, c.proposals + [Action(p)], c.log + [Listed(Ok(names))])
    && reply == ActionShown(p.summary)
  }

  /** The first ref nobody was shown is named in the refusal, and the mailbox is not asked. */
  lemma UnknownRefStopsAction(env: Env, c: Context, arguments: string, args: ActionArgs, k: nat)
    requires env.parse.action(arguments) == Ok(args) && args.kind != "create_filter" && k < |args.refs|
    requires AllKnown(c, args.refs[..k]) && Resolve(c.minted, args.refs[k]) == None
    ensures RunTool(env, c, "propose_action", arguments) ==
            (c, Failed("unknown ref " + args.refs[k] + "; use a ref you were shown"))
  {
    CollectStopsAt(c, args.refs, [], k);
    hide Collect;
  }

  lemma {:induction false} CollectStopsAt(c: Context, refs: seq<string>, messages: seq<ActionMessage>, k: nat)
    requires k < |refs| && AllKnown(c, refs[..k]) && Resolve(c.minted, refs[k]) == None
    ensures Collect(c, refs, messages) == Err("unknown ref " + refs[k] + "; use a ref you were shown")
    decreases k
  {
    hide Resolve;
    if k > 0 {
      assert refs[..k][0] == refs[0];
      var m := ActionMessage(Resolve(c.minted, refs[0]).value, SubjectOf(c.sources, refs[0]));
      var rest := refs[1..];
      var known := rest[..k - 1];
      forall i | 0 <= i < |known| ensures Resolve(c.minted, known[i]).Some? {
        assert known[i] == refs[..k][i + 1];
      }
      CollectStopsAt(c, rest, if Named(messages, m.loc) then messages else messages + [m], k - 1);
    }
  }
}
