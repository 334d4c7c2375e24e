/** The assistant's five tools over a read-only mailbox. */
module Tools {
  import opened Wrappers
  import opened Refs
  import opened Actions
  import Fence
  import Words

  /** A message as the mailbox returns it: `text` is the snippet of a search result or the body of a message read. */
  datatype Mail = Mail(loc: Loc, subject: string, sender: string, recipients: string, date: string, text: string)

  datatype SearchArgs = SearchArgs(
    query: string, sender: Option<string>, after: Option<string>, before: Option<string>, folder: Option<string>)

  /** One answered request to the mailbox. */
  datatype Exchange =
    | Searched(args: SearchArgs, found: Result<seq<Mail>, string>)
    | Read(loc: Loc, mail: Result<Mail, string>)
    | ReadThread(loc: Loc, mails: Result<seq<Mail>, string>)
    | Listed(folders: Result<seq<string>, string>)

  /** The mailbox may answer anything, depending on everything asked before. */
  datatype Mailbox = Mailbox(
    search: (seq<Exchange>, SearchArgs) -> Result<seq<Mail>, string>,
    read: (seq<Exchange>, Loc) -> Result<Mail, string>,
    thread: (seq<Exchange>, Loc) -> Result<seq<Mail>, string>,
    folders: seq<Exchange> -> Result<seq<string>, string>)

  /** Reading tool arguments from JSON, left abstract. */
  datatype Parser = Parser(
    search: string -> Result<SearchArgs, string>,
    ref: string -> Result<string, string>,
    draft: string -> Result<DraftArgs, string>,
    action: string -> Result<ActionArgs, string>)

  datatype DraftArgs = DraftArgs(ref: string, body: string)

  datatype Env = Env(mail: Mailbox, parse: Parser, lower: string -> string)

  datatype SourceRef = SourceRef(msgRef: string, loc: Loc, subject: string, sender: string, date: string)

  /** Events streamed to the user. */
  datatype Event =
    | Status(text: string)
    | Text(delta: string)
    | Sources(sources: seq<SourceRef>)
    | Draft(msgRef: string, loc: Loc, body: string)
    | Action(proposal: ActionProposal)
    | Error(message: string, retryable: bool)
    | Done(inputTokens: nat, outputTokens: nat)

  /** A message as the model sees it: a ref instead of a location, its text fenced. */
  datatype Shown = Shown(
    msgRef: string, subject: string, sender: string, recipients: Option<string>, date: string, text: string)

  /** What a tool tells the model. */
  datatype Reply =
    | Results(results: seq<Shown>)
    | Message(message: Shown)
    | Messages(messages: seq<Shown>)
    | DraftShown
    | ActionShown(summary: string)
    | Failed(error: string)

  /** The context of one turn: minted locations, citable sources, proposals, and the talk with the mailbox so far. */
  datatype Context = Context(minted: seq<Loc>, sources: seq<SourceRef>, proposals: seq<Event>, log: seq<Exchange>)

  const EMPTY := Context([], [], [], [])

  // ----- What each step does to the context -----

  predicate Cited(sources: seq<SourceRef>, r: string) {
    exists i :: 0 <= i < |sources| && sources[i].msgRef == r
  }

  function Cite(c: Context, m: Mail): Context {
    var r := RefOf(c.minted, m.loc);
    c.(minted := Minted(c.minted, m.loc),
       sources := if Cited(c.sources, r) then c.sources
                  else c.sources + [SourceRef(r, m.loc, m.subject, m.sender, m.date)])
  }

  function Show(c: Context, m: Mail, recipients: Option<string>): Shown {
    Shown(RefOf(c.minted, m.loc), m.subject, m.sender, recipients, m.date, Fence.Fenced(m.text))
  }

  function CiteAll(c: Context, mails: seq<Mail>): Context {
    if mails == [] then c else Cite(CiteAll(c, mails[..|mails| - 1]), mails[|mails| - 1])
  }

  function ShowAll(c: Context, mails: seq<Mail>): seq<Shown> {
    if mails == [] then []
    else
      var n := |mails| - 1;
      ShowAll(c, mails[..n]) + [Show(CiteAll(c, mails[..n]), mails[n], None)]
  }

  function Resolved(c: Context, r: string): Result<Loc, string> {
    match Resolve(c.minted, r)
    case Some(loc) => Ok(loc)
    case None => Err("unknown ref " + r + "; use a ref you were shown")
  }

  function SubjectOf(sources: seq<SourceRef>, r: string): string {
    if sources == [] then ""
    else if sources[0].msgRef == r then sources[0].subject
    else SubjectOf(sources[1..], r)
  }

  predicate Named(messages: seq<ActionMessage>, loc: Loc) {
    exists i :: 0 <= i < |messages| && messages[i].loc == loc
  }

  /** The messages behind a list of refs, each once; the first unknown ref is an error. */
  function Collect(c: Context, refs: seq<string>, messages: seq<ActionMessage>): Result<seq<ActionMessage>, string>
    decreases |refs|
  {
    if refs == [] then Ok(messages)
    else
      match Resolved(c, refs[0])
      case Err(e) => Err(e)
      case Ok(loc) =>
        Collect(c, refs[1..],
                if Named(messages, loc) then messages
                else messages + [ActionMessage(loc, SubjectOf(c.sources, refs[0]))])
  }

  function BadArguments(name: string, e: string): Reply {
    Failed("bad arguments for " + name + ": " + e)
  }

  function FirstTen(found: seq<Mail>): seq<Mail> {
    if |found| <= 10 then found else found[..10]
  }

  function SearchMail(env: Env, c: Context, args: SearchArgs): (Context, Reply) {
    var found := env.mail.search(c.log, args);
    var asked := c.(log := c.log + [Searched(args, found)]);
    match found
    case Err(e) => (asked, Failed(e))
    case Ok(mails) => (CiteAll(asked, FirstTen(mails)), Results(ShowAll(asked, FirstTen(mails))))
  }

  function ReadMessage(env: Env, c: Context, r: string): (Context, Reply) {
    match Resolved(c, r)
    case Err(e) => (c, Failed(e))
    case Ok(loc) =>
      var mail := env.mail.read(c.log, loc);
      var asked := c.(log := c.log + [Read(loc, mail)]);
      match mail
      case Err(e) => (asked, Failed(e))
      case Ok(m) => (Cite(asked, m), Message(Show(asked, m, Some(m.recipients))))
  }

  function ReadWholeThread(env: Env, c: Context, r: string): (Context, Reply) {
    match Resolved(c, r)
    case Err(e) => (c, Failed(e))
    case Ok(loc) =>
      var mails := env.mail.thread(c.log, loc);
      var asked := c.(log := c.log + [ReadThread(loc, mails)]);
      match mails
      case Err(e) => (asked, Failed(e))
      case Ok(ms) => (CiteAll(asked, ms), Messages(ShowAll(asked, ms)))
  }

  function ProposeDraft(c: Context, args: DraftArgs): (Context, Reply) {
    match Resolved(c, args.ref)
    case Err(e) => (c, Failed(e))
    case Ok(loc) =>
      if Words.Trim(args.body) == "" then (c, Failed("the draft body is empty"))
      else (c.(proposals := c.proposals + [Draft(args.ref, loc, args.body)]), DraftShown)
  }

  function ProposeAction(env: Env, c: Context, args: ActionArgs): (Context, Reply) {
    match if args.kind == "create_filter" then Ok([]) else Collect(c, args.refs, [])
    case Err(e) => (c, Failed(e))
    case Ok(messages) =>
      var folders := env.mail.folders(c.log);
      var asked := c.(log := c.log + [Listed(folders)]);
      match folders
      case Err(e) => (asked, Failed(e))
      case Ok(names) =>
        match ValidateAction(env.lower, args, messages, names)
        case Err(e) => (asked, Failed(e))
        case Ok(p) => (asked.(proposals := c.proposals + [Action(p)]), ActionShown(p.summary))
  }

  function RunTool(env: Env, c: Context, name: string, arguments: string): (Context, Reply) {
    if name == "search_mail" then (
      match env.parse.search(arguments)
      case Err(e) => (c, BadArguments(name, e))
      case Ok(args) => SearchMail(env, c, args))
    else if name == "read_message" then (
      match env.parse.ref(arguments)
      case Err(e) => (c, BadArguments(name, e))
      case Ok(r) => ReadMessage(env, c, r))
    else if name == "read_thread" then (
      match env.parse.ref(arguments)
      case Err(e) => (c, BadArguments(name, e))
      case Ok(r) => ReadWholeThread(env, c, r))
    else if name == "propose_draft" then (
      match env.parse.draft(arguments)
      case Err(e) => (c, BadArguments(name, e))
      case Ok(args) => ProposeDraft(c, args))
    else if name == "propose_action" then (
      match env.parse.action(arguments)
      case Err(e) => (c, BadArguments(name, e))
      case Ok(args) => ProposeAction(env, c, args))
    else (c, Failed("no tool named " + name))
  }

  // ----- The tools as they run -----

  class ToolContext {
    const refs: RefTable
    var sources: seq<SourceRef>
    var proposals: seq<Event>
    var log: seq<Exchange>

    ghost predicate Valid()
      reads this, refs
    {
      refs.Valid()
    }

    ghost function View(): Context
      reads this, refs
    {
      Context(refs.minted, sources, proposals, log)
    }

    constructor ()
      ensures Valid() && View() == EMPTY && fresh(refs)
    {
      refs := new RefTable();
      sources, proposals, log := [], [], [];
    }

    /** Mint a ref for a message and remember it as citable. */
    method CiteMail(m: Mail) returns (r: string)
      requires Valid()
      modifies this`sources, refs
      ensures Valid() && View() == Cite(old(View()), m)
      ensures r == RefOf(old(View()).minted, m.loc)
    {
      r := refs.Mint(m.loc);
      if !Cited(sources, r) {
        sources := sources + [SourceRef(r, m.loc, m.subject, m.sender, m.date)];
      }
    }

    method ShowMails(mails: seq<Mail>) returns (shown: seq<Shown>)
      requires Valid()
      modifies this`sources, refs
      ensures Valid() && View() == CiteAll(old(View()), mails)
      ensures shown == ShowAll(old(View()), mails)
    {
      hide Cite, RefTable.Valid;
      shown := [];
      var i := 0;
      while i < |mails|
        invariant 0 <= i <= |mails|
        invariant Valid() && View() == CiteAll(old(View()), mails[..i])
        invariant shown == ShowAll(old(View()), mails[..i])
      {
        var m := mails[i];
        var r := CiteMail(m);
        shown := shown + [Shown(r, m.subject, m.sender, None, m.date, Fence.Fenced(m.text))];
        assert mails[..i + 1][..i] == mails[..i];
        i := i + 1;
      }
      assert mails[..i] == mails;
    }

    method CollectMessages(names: seq<string>) returns (r: Result<seq<ActionMessage>, string>)
      requires Valid()
      ensures r == Collect(View(), names, [])
    {
      hide RefTable.Valid, Resolve;
      var messages: seq<ActionMessage> := [];
      var seen: set<Loc> := {};
      var i := 0;
      assert names[0..] == names;
      while i < |names|
        invariant 0 <= i <= |names|
        invariant forall loc :: loc in seen <==> Named(messages, loc)
        invariant Collect(View(), names, []) == Collect(View(), names[i..], messages)
      {
        var loc := refs.Find(names[i]);
        if loc.None? {
          return Err("unknown ref " + names[i] + "; use a ref you were shown");
        }
        assert names[i..][1..] == names[i + 1..];
        if loc.value !in seen {
          ghost var before := messages;
          seen := seen + {loc.value};
          messages := messages + [ActionMessage(loc.value, SubjectOf(sources, names[i]))];
          NamedStep(before, messages[|before|]);
        }
        i := i + 1;
      }
      return Ok(messages);
    }

    method Run(env: Env, name: string, arguments: string) returns (reply: Reply)
      requires Valid()
      modifies this, refs
      ensures Valid() && (View(), reply) == RunTool(env, old(View()), name, arguments)
    {
      hide RefTable.Valid, CiteAll, ShowAll, Collect, ValidateAction, Resolve, Words.Trim;
      if name == "search_mail" {
        var args := env.parse.search(arguments);
        if args.Err? { return BadArguments(name, args.error); }
        var found := env.mail.search(log, args.value);
        log := log + [Searched(args.value, found)];
        if found.Err? { return Failed(found.error); }
        var shown := ShowMails(FirstTen(found.value));
        return Results(shown);
      } else if name == "read_message" {
        var r := env.parse.ref(arguments);
        if r.Err? { return BadArguments(name, r.error); }
        var loc := refs.Find(r.value);
        if loc.None? { return Failed("unknown ref " + r.value + "; use a ref you were shown"); }
        var mail := env.mail.read(log, loc.value);
        log := log + [Read(loc.value, mail)];
        if mail.Err? { return Failed(mail.error); }
        var m := mail.value;
        var cited := CiteMail(m);
        return Message(Shown(cited, m.subject, m.sender, Some(m.recipients), m.date, Fence.Fenced(m.text)));
      } else if name == "read_thread" {
        var r := env.parse.ref(arguments);
        if r.Err? { return BadArguments(name, r.error); }
        var loc := refs.Find(r.value);
        if loc.None? { return Failed("unknown ref " + r.value + "; use a ref you were shown"); }
        var mails := env.mail.thread(log, loc.value);
        log := log + [ReadThread(loc.value, mails)];
        if mails.Err? { return Failed(mails.error); }
        var shown := ShowMails(mails.value);
        return Messages(shown);
      } else if name == "propose_draft" {
        var args := env.parse.draft(arguments);
        if args.Err? { return BadArguments(name, args.error); }
        var loc := refs.Find(args.value.ref);
        if loc.None? { return Failed("unknown ref " + args.value.ref + "; use a ref you were shown"); }
        if Words.Trim(args.value.body) == "" { return Failed("the draft body is empty"); }
        proposals := proposals + [Draft(args.value.ref, loc.value, args.value.body)];
        return DraftShown;
      } else if name == "propose_action" {
        var args := env.parse.action(arguments);
        if args.Err? { return BadArguments(name, args.error); }
        var messages: Result<seq<ActionMessage>, string> := Ok([]);
        if args.value.kind != "create_filter" {
          messages := CollectMessages(args.value.refs);
        }
        if messages.Err? { return Failed(messages.error); }
        var folders := env.mail.folders(log);
        log := log + [Listed(folders)];
        if folders.Err? { return Failed(folders.error); }
        var proposal := ValidateAction(env.lower, args.value, messages.value, folders.value);
        if proposal.Err? { return Failed(proposal.error); }
        proposals := proposals + [Action(proposal.value)];
        return ActionShown(proposal.value.summary);
      }
      return Failed("no tool named " + name);
    }
  }

  lemma NamedStep(messages: seq<ActionMessage>, m: ActionMessage)
    ensures forall loc :: Named(messages + [m], loc) <==> loc == m.loc || Named(messages, loc)
  {
    var now := messages + [m];
    forall loc ensures Named(now, loc) <==> loc == m.loc || Named(messages, loc) {
      assert now[|messages|] == m;
      assert forall i :: 0 <= i < |messages| ==> now[i] == messages[i];
    }
  }
}
