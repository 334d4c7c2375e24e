/** Where everything the assistant cites or proposes comes from. */
module Provenance {
  import opened Wrappers
  import opened Refs
  import opened Actions
  import opened Tools
  import Fence
  import Words

  /** The messages an answer of the mailbox holds. */
  function MailsIn(e: Exchange): seq<Mail> {
    match e
    case Searched(_, found) => if found.Ok? then found.value else []
    case Read(_, mail) => if mail.Ok? then [mail.value] else []
    case ReadThread(_, mails) => if mails.Ok? then mails.value else []
    case Listed(_) => []
  }

  predicate Returned(log: seq<Exchange>, m: Mail) {
    exists i :: 0 <= i < |log| && m in MailsIn(log[i])
  }

  /** A source repeats what the mailbox said about a message it returned. */
  ghost predicate Quotes(log: seq<Exchange>, s: SourceRef) {
    exists m :: Returned(log, m) && s == SourceRef(s.msgRef, m.loc, m.subject, m.sender, m.date)
  }

  ghost predicate FoldersListed(log: seq<Exchange>, names: seq<string>) {
    Listed(Ok(names)) in log
  }

  /** Sources are exactly the minted refs, `m1` to `mN`, in order. */
  predicate Numbered(c: Context) {
    && |c.sources| == |c.minted|
    && forall i :: 0 <= i < |c.sources| ==> c.sources[i].msgRef == Ref(i + 1) && c.sources[i].loc == c.minted[i]
  }

  predicate NoMessageTwice(messages: seq<ActionMessage>) {
    forall i, j :: 0 <= i < j < |messages| ==> messages[i].loc != messages[j].loc
  }

  predicate IsSource(sources: seq<SourceRef>, m: ActionMessage) {
    exists i :: 0 <= i < |sources| && sources[i].loc == m.loc && sources[i].subject == m.subject
  }

  predicate AllSources(sources: seq<SourceRef>, messages: seq<ActionMessage>) {
    forall i :: 0 <= i < |messages| ==> IsSource(sources, messages[i])
  }

  ghost predicate Executed(log: seq<Exchange>, p: ActionProposal) {
    exists names :: FoldersListed(log, names) && Executable(p, names)
  }

  /** A proposal names only messages the user can see cited, none of them twice. */
  ghost predicate Grounded(c: Context, p: Event) {
    match p
    case Draft(r, loc, body) => Resolve(c.minted, r) == Some(loc) && Words.Trim(body) != ""
    case Action(a) =>
      && NoMessageTwice(a.messages) && AllSources(c.sources, a.messages)
      && |a.messages| <= MAX_ACTION_MESSAGES && (a.messages == [] <==> a.kind.CreateFilter?)
      && Executed(c.log, a)
    case _ => false
  }

  ghost predicate Sound(c: Context) {
    && Distinct(c.minted)
    && Numbered(c)
    && (forall i :: 0 <= i < |c.sources| ==> Quotes(c.log, c.sources[i]))
    && forall i :: 0 <= i < |c.proposals| ==> Grounded(c, c.proposals[i])
  }

  /** Nothing is forgotten: refs keep their meaning, and proposals stand. */
  predicate Extends(was: Context, now: Context) {
    was.minted <= now.minted && was.sources <= now.sources && was.proposals <= now.proposals && was.log <= now.log
  }

  // ----- Growing a context -----

  lemma {:induction false} ResolveInLonger(a: seq<Loc>, b: seq<Loc>, r: string)
    requires a <= b && Resolve(a, r).Some?
    ensures Resolve(b, r) == Resolve(a, r)
  {
    var loc := Resolve(a, r).value;
    ResolveIff(a, r, loc);
    ResolveIff(b, r, loc);
    var i :| Names(a, i, r, loc);
    assert Names(b, i, r, loc);
  }

  lemma QuotesInLonger(a: seq<Exchange>, b: seq<Exchange>, s: SourceRef)
    requires a <= b && Quotes(a, s)
    ensures Quotes(b, s)
  {
    var m :| Returned(a, m) && s == SourceRef(s.msgRef, m.loc, m.subject, m.sender, m.date);
    var i :| 0 <= i < |a| && m in MailsIn(a[i]);
    assert m in MailsIn(b[i]);
  }

  lemma GroundedInLonger(was: Context, now: Context, p: Event)
    requires Extends(was, now) && Grounded(was, p)
    ensures Grounded(now, p)
  {
    match p
    case Draft(r, loc, body) => ResolveInLonger(was.minted, now.minted, r);
    case Action(a) =>
      forall i | 0 <= i < |a.messages| ensures IsSource(now.sources, a.messages[i]) {
        assert IsSource(was.sources, a.messages[i]);
        var k :|
          && 0 <= k < |was.sources|
          && was.sources[k].loc == a.messages[i].loc && was.sources[k].subject == a.messages[i].subject;
        assert now.sources[k] == was.sources[k];
      }
      var names :| FoldersListed(was.log, names) && Executable(a, names);
      assert FoldersListed(now.log, names);
    case _ =>
  }

  lemma LogKeepsSound(c: Context, e: Exchange)
    requires Sound(c)
    ensures Sound(c.(log := c.log + [e])) && Extends(c, c.(log := c.log + [e]))
  {
    var now := c.(log := c.log + [e]);
    hide Quotes, Grounded, Distinct;
    forall i | 0 <= i < |c.sources| ensures Quotes(now.log, c.sources[i]) {
      QuotesInLonger(c.log, now.log, c.sources[i]);
    }
    forall i | 0 <= i < |c.proposals| ensures Grounded(now, c.proposals[i]) {
      GroundedInLonger(c, now, c.proposals[i]);
    }
  }

  lemma CitedIffMinted(c: Context, loc: Loc)
    requires Sound(c)
    ensures Cited(c.sources, RefOf(c.minted, loc)) <==> loc in c.minted
  {
    if loc in c.minted {
      assert c.sources[Position(c.minted, loc)].msgRef == RefOf(c.minted, loc);
    } else {
      forall i | 0 <= i < |c.sources| ensures c.sources[i].msgRef != RefOf(c.minted, loc) {
        RefIsInjective(i + 1, |c.minted| + 1);
      }
    }
  }

  lemma CiteKeepsSound(c: Context, m: Mail)
    requires Sound(c) && Returned(c.log, m)
    ensures Sound(Cite(c, m)) && Extends(c, Cite(c, m))
  {
    hide Grounded, Returned, Quotes, Cited, Ref, Position;
    var now := Cite(c, m);
    CitedIffMinted(c, m.loc);
    if m.loc !in c.minted {
      var s := SourceRef(Ref(|c.minted| + 1), m.loc, m.subject, m.sender, m.date);
      assert now.sources == c.sources + [s] && now.minted == c.minted + [m.loc];
      QuotesMail(c.log, s, m);
      forall i | 0 <= i < |c.proposals| ensures Grounded(now, c.proposals[i]) {
        GroundedInLonger(c, now, c.proposals[i]);
      }
    }
  }

  lemma QuotesMail(log: seq<Exchange>, s: SourceRef, m: Mail)
    requires Returned(log, m) && s == SourceRef(s.msgRef, m.loc, m.subject, m.sender, m.date)
    ensures Quotes(log, s)
  {
    hide Returned;
  }

  lemma {:induction false} CiteAllKeepsSound(c: Context, mails: seq<Mail>)
    requires Sound(c) && AllReturned(c.log, mails)
    ensures Sound(CiteAll(c, mails)) && Extends(c, CiteAll(c, mails)) && CiteAll(c, mails).log == c.log
    decreases |mails|
  {
    hide Sound, Returned;
    if mails != [] {
      var n := |mails| - 1;
      assert AllReturned(c.log, mails[..n]);
      CiteAllKeepsSound(c, mails[..n]);
      CiteKeepsSound(CiteAll(c, mails[..n]), mails[n]);
    }
  }

  // ----- The tools -----

  predicate AllReturned(log: seq<Exchange>, mails: seq<Mail>) {
    forall i :: 0 <= i < |mails| ==> Returned(log, mails[i])
  }

  lemma JustReturned(log: seq<Exchange>, e: Exchange)
    ensures AllReturned(log + [e], MailsIn(e))
  {
    assert (log + [e])[|log|] == e;
  }

  lemma {:induction false} SubjectOfRef(sources: seq<SourceRef>, k: nat)
    requires k < |sources|
    requires forall i, j :: 0 <= i < j < |sources| ==> sources[i].msgRef != sources[j].msgRef
    ensures SubjectOf(sources, sources[k].msgRef) == sources[k].subject
  {
    if k > 0 {
      assert sources[1..][k - 1] == sources[k];
      SubjectOfRef(sources[1..], k - 1);
    }
  }

  /** The subject shown beside a resolved message is the one it was cited with. */
  lemma ResolvedIsSource(c: Context, r: string)
    requires Sound(c) && Resolve(c.minted, r).Some?
    ensures IsSource(c.sources, ActionMessage(Resolve(c.minted, r).value, SubjectOf(c.sources, r)))
  {
    var loc := Resolve(c.minted, r).value;
    ResolveIff(c.minted, r, loc);
    var k :| Names(c.minted, k, r, loc);
    forall i, j | 0 <= i < j < |c.sources| ensures c.sources[i].msgRef != c.sources[j].msgRef {
      RefIsInjective(i + 1, j + 1);
    }
    assert c.sources[k].msgRef == r;
    SubjectOfRef(c.sources, k);
    assert c.sources[k].loc == loc;
  }

  lemma OneMoreMessage(sources: seq<SourceRef>, messages: seq<ActionMessage>, m: ActionMessage)
    requires NoMessageTwice(messages) && AllSources(sources, messages)
    requires !Named(messages, m.loc) && IsSource(sources, m)
    ensures NoMessageTwice(messages + [m]) && AllSources(sources, messages + [m])
  {
    hide IsSource;
  }

  /** Collecting keeps each message once, and every given ref ends up named. */
  lemma {:induction false} CollectIsGrounded(c: Context, refs: seq<string>, messages: seq<ActionMessage>)
    requires Sound(c) && NoMessageTwice(messages) && AllSources(c.sources, messages)
    ensures var r := Collect(c, refs, messages);
            r.Ok? ==>
              && NoMessageTwice(r.value) && AllSources(c.sources, r.value) && messages <= r.value
              && forall i :: 0 <= i < |refs| ==>
                   Resolve(c.minted, refs[i]).Some? && Named(r.value, Resolve(c.minted, refs[i]).value)
    decreases |refs|
  {
    hide Sound, Resolve;
    if refs != [] && Resolve(c.minted, refs[0]).Some? {
      var loc := Resolve(c.minted, refs[0]).value;
      var m := ActionMessage(loc, SubjectOf(c.sources, refs[0]));
      var next := if Named(messages, loc) then messages else messages + [m];
      ResolvedIsSource(c, refs[0]);
      NamedStep(messages, m);
      if !Named(messages, loc) {
        OneMoreMessage(c.sources, messages, m);
      }
      hide IsSource, NoMessageTwice, AllSources, Named;
      CollectIsGrounded(c, refs[1..], next);
      var r := Collect(c, refs, messages);
      if r.Ok? {
        NamedInLonger(next, r.value, loc);
        assert forall i :: 0 < i < |refs| ==> refs[i] == refs[1..][i - 1];
      }
    }
  }

  lemma NamedInLonger(a: seq<ActionMessage>, b: seq<ActionMessage>, loc: Loc)
    requires a <= b && Named(a, loc)
    ensures Named(b, loc)
  {
    var i :| 0 <= i < |a| && a[i].loc == loc;
    assert b[i].loc == loc;
  }

  lemma ProposalKeepsSound(c: Context, p: Event)
    requires Sound(c) && Grounded(c, p)
    ensures Sound(c.(proposals := c.proposals + [p])) && Extends(c, c.(proposals := c.proposals + [p]))
  {
    var now := c.(proposals := c.proposals + [p]);
    forall i | 0 <= i < |now.proposals| ensures Grounded(now, now.proposals[i]) {
      assert Grounded(c, now.proposals[i]);
    }
  }

  lemma SearchKeepsSound(env: Env, c: Context, args: SearchArgs)
    requires Sound(c)
    ensures Sound(SearchMail(env, c, args).0) && Extends(c, SearchMail(env, c, args).0)
  {
    var found := env.mail.search(c.log, args);
    var e := Searched(args, found);
    LogKeepsSound(c, e);
    JustReturned(c.log, e);
    hide Sound, Returned, CiteAll;
    if found.Ok? {
      assert AllReturned(c.log + [e], FirstTen(found.value));
      CiteAllKeepsSound(c.(log := c.log + [e]), FirstTen(found.value));
    }
  }

  lemma ReadKeepsSound(env: Env, c: Context, r: string)
    requires Sound(c)
    ensures Sound(ReadMessage(env, c, r).0) && Extends(c, ReadMessage(env, c, r).0)
  {
    hide Sound, Returned, Cite, Resolve;
    if Resolved(c, r).Ok? {
      var mail := env.mail.read(c.log, Resolved(c, r).value);
      var e := Read(Resolved(c, r).value, mail);
      LogKeepsSound(c, e);
      JustReturned(c.log, e);
      if mail.Ok? {
        assert MailsIn(e)[0] == mail.value;
        CiteKeepsSound(c.(log := c.log + [e]), mail.value);
      }
    }
  }

  lemma ThreadKeepsSound(env: Env, c: Context, r: string)
    requires Sound(c)
    ensures Sound(ReadWholeThread(env, c, r).0) && Extends(c, ReadWholeThread(env, c, r).0)
  {
    hide Sound, Returned, CiteAll, Resolve;
    if Resolved(c, r).Ok? {
      var mails := env.mail.thread(c.log, Resolved(c, r).value);
      var e := ReadThread(Resolved(c, r).value, mails);
      LogKeepsSound(c, e);
      JustReturned(c.log, e);
      if mails.Ok? {
        CiteAllKeepsSound(c.(log := c.log + [e]), mails.value);
      }
    }
  }

  lemma ActionKeepsSound(env: Env, c: Context, args: ActionArgs)
    requires Sound(c)
    ensures Sound(ProposeAction(env, c, args).0) && Extends(c, ProposeAction(env, c, args).0)
  {
    hide Sound, Collect, ValidateAction, Grounded;
    var messages := if args.kind == "create_filter" then Ok([]) else Collect(c, args.refs, []);
    CollectIsGrounded(c, args.refs, []);
    if messages.Ok? {
      var folders := env.mail.folders(c.log);
      var asked := c.(log := c.log + [Listed(folders)]);
      LogKeepsSound(c, Listed(folders));
      if folders.Ok? {
        var p := ValidateAction(env.lower, args, messages.value, folders.value);
        ValidatedIsExecutable(env.lower, args, messages.value, folders.value);
        if p.Ok? {
          ActionIsGrounded(asked, p.value, folders.value);
          ProposalKeepsSound(asked, Action(p.value));
        }
      }
    }
  }

  lemma ActionIsGrounded(c: Context, p: ActionProposal, names: seq<string>)
    requires c.log != [] && c.log[|c.log| - 1] == Listed(Ok(names))
    requires Executable(p, names) && NoMessageTwice(p.messages) && AllSources(c.sources, p.messages)
    requires |p.messages| <= MAX_ACTION_MESSAGES && (p.messages == [] <==> p.kind.CreateFilter?)
    ensures Grounded(c, Action(p))
  {
    assert FoldersListed(c.log, names);
  }

  /** Whatever the model asks and the mailbox answers, a tool run keeps the context sound and takes nothing back. */
  lemma ToolsKeepProvenance(env: Env, c: Context, name: string, arguments: string)
    requires Sound(c)
    ensures Sound(RunTool(env, c, name, arguments).0)
    ensures Extends(c, RunTool(env, c, name, arguments).0)
  {
    hide Sound, SearchMail, ReadMessage, ReadWholeThread, ProposeAction, Resolve, Words.Trim;
    if name == "search_mail" && env.parse.search(arguments).Ok? {
      SearchKeepsSound(env, c, env.parse.search(arguments).value);
    } else if name == "read_message" && env.parse.ref(arguments).Ok? {
      ReadKeepsSound(env, c, env.parse.ref(arguments).value);
    } else if name == "read_thread" && env.parse.ref(arguments).Ok? {
      ThreadKeepsSound(env, c, env.parse.ref(arguments).value);
    } else if name == "propose_draft" && env.parse.draft(arguments).Ok? {
      var args := env.parse.draft(arguments).value;
      if Resolved(c, args.ref).Ok? && Words.Trim(args.body) != "" {
        ProposalKeepsSound(c, Draft(args.ref, Resolved(c, args.ref).value, args.body));
      }
    } else if name == "propose_action" && env.parse.action(arguments).Ok? {
      ActionKeepsSound(env, c, env.parse.action(arguments).value);
    }
  }

  // ----- What the model is shown -----

  /** A message shown under a ref that resolves to it, with its text fenced. */
  ghost predicate Shows(c: Context, s: Shown) {
    exists m :: Returned(c.log, m) && ShowsMail(c, s, m)
  }

  predicate ShowsMail(c: Context, s: Shown, m: Mail) {
    && Resolve(c.minted, s.msgRef) == Some(m.loc)
    && s.subject == m.subject && s.sender == m.sender && s.date == m.date && s.text == Fence.Fenced(m.text)
  }

  ghost predicate AllShow(c: Context, shown: seq<Shown>) {
    forall i :: 0 <= i < |shown| ==> Shows(c, shown[i])
  }

  ghost predicate ReplyShows(c: Context, reply: Reply) {
    match reply
    case Results(shown) => AllShow(c, shown)
    case Message(s) => Shows(c, s)
    case Messages(shown) => AllShow(c, shown)
    case _ => true
  }

  lemma ShowsInLonger(was: Context, now: Context, s: Shown)
    requires Extends(was, now) && was.log == now.log && Shows(was, s)
    ensures Shows(now, s)
  {
    var m :| Returned(was.log, m) && ShowsMail(was, s, m);
    ResolveInLonger(was.minted, now.minted, s.msgRef);
    assert ShowsMail(now, s, m);
  }

  /** The messages are shown one by one, in order, without their recipients. */
  predicate ShowsInOrder(c: Context, shown: seq<Shown>, mails: seq<Mail>) {
    && |shown| == |mails|
    && forall i :: 0 <= i < |shown| ==> ShowsMail(c, shown[i], mails[i]) && shown[i].recipients == None
  }

  lemma ShowsMailInLonger(was: Context, now: Context, s: Shown, m: Mail)
    requires Extends(was, now) && ShowsMail(was, s, m)
    ensures ShowsMail(now, s, m)
  {
    ResolveInLonger(was.minted, now.minted, s.msgRef);
  }

  lemma ShowIsCitable(c: Context, m: Mail, recipients: Option<string>)
    requires Sound(c) && Returned(c.log, m)
    ensures Shows(Cite(c, m), Show(c, m, recipients)) && ShowsMail(Cite(c, m), Show(c, m, recipients), m)
    ensures Show(c, m, recipients).recipients == recipients
  {
    hide Returned;
    MintThenResolve(c.minted, m.loc, "");
    assert ShowsMail(Cite(c, m), Show(c, m, recipients), m);
  }

  lemma {:induction false} ShowAllIsCitable(c: Context, mails: seq<Mail>)
    requires Sound(c) && AllReturned(c.log, mails)
    ensures AllShow(CiteAll(c, mails), ShowAll(c, mails)) && ShowsInOrder(CiteAll(c, mails), ShowAll(c, mails), mails)
    decreases |mails|
  {
    hide Sound, Returned, Shows, ShowsMail, Cite, Show;
    if mails != [] {
      var n := |mails| - 1;
      var front := mails[..n];
      var before := CiteAll(c, front);
      assert AllReturned(c.log, front);
      ShowAllIsCitable(c, front);
      CiteAllKeepsSound(c, front);
      CiteKeepsSound(before, mails[n]);
      ShowIsCitable(before, mails[n], None);
      var shown := ShowAll(c, front);
      CiteKeepsLog(before, mails[n]);
      forall i | 0 <= i < n
        ensures Shows(CiteAll(c, mails), shown[i]) && ShowsMail(CiteAll(c, mails), shown[i], mails[i])
      {
        ShowsInLonger(before, CiteAll(c, mails), shown[i]);
        ShowsMailInLonger(before, CiteAll(c, mails), shown[i], mails[i]);
      }
    }
  }

  lemma CiteKeepsLog(c: Context, m: Mail)
    ensures Cite(c, m).log == c.log
  {
  }

  /** Every message a tool shows the model was returned by the mailbox, can be named by its ref, and is fenced. */
  lemma RepliesShowReturnedMail(env: Env, c: Context, name: string, arguments: string)
    requires Sound(c)
    ensures ReplyShows(RunTool(env, c, name, arguments).0, RunTool(env, c, name, arguments).1)
  {
    hide Sound, Returned, Resolve, Words.Trim, CiteAll, ShowAll, Cite, Show, Collect, ValidateAction, Shows, FirstTen;
    if name == "search_mail" && env.parse.search(arguments).Ok? {
      var args := env.parse.search(arguments).value;
      var e := Searched(args, env.mail.search(c.log, args));
      LogKeepsSound(c, e);
      JustReturned(c.log, e);
      if e.found.Ok? {
        TenAreReturned(c.log + [e], e.found.value);
        ShowAllIsCitable(c.(log := c.log + [e]), FirstTen(e.found.value));
      }
    } else if name == "read_message" && env.parse.ref(arguments).Ok?
              && Resolved(c, env.parse.ref(arguments).value).Ok? {
      var loc := Resolved(c, env.parse.ref(arguments).value).value;
      var e := Read(loc, env.mail.read(c.log, loc));
      LogKeepsSound(c, e);
      JustReturned(c.log, e);
      if e.mail.Ok? {
        assert MailsIn(e)[0] == e.mail.value;
        ShowIsCitable(c.(log := c.log + [e]), e.mail.value, Some(e.mail.value.recipients));
      }
    } else if name == "read_thread" && env.parse.ref(arguments).Ok?
              && Resolved(c, env.parse.ref(arguments).value).Ok? {
      var loc := Resolved(c, env.parse.ref(arguments).value).value;
      var e := ReadThread(loc, env.mail.thread(c.log, loc));
      LogKeepsSound(c, e);
      JustReturned(c.log, e);
      if e.mails.Ok? {
        ShowAllIsCitable(c.(log := c.log + [e]), e.mails.value);
      }
    }
  }

  lemma TenAreReturned(log: seq<Exchange>, mails: seq<Mail>)
    requires AllReturned(log, mails)
    ensures AllReturned(log, FirstTen(mails))
  {
  }
}
