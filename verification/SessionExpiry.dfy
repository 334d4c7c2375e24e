/** When a session expires, read off the list of operations alone. */
module SessionExpiry {
  import opened Wrappers
  import opened SessionStore
  import opened SessionRuns

  /** Who a token was given to, and when it was last accessed. */
  datatype Grant = Grant(account: AccountId, browser: BrowserId, profile: string, at: int)

  /** An access at time `now` comes within the timeout of the last one. */
  predicate Recent(timeout: nat, g: Option<Grant>, now: int) {
    g.Some? && now - g.value.at <= timeout
  }

  /**
    What a history says about a token: it is granted when its account is added, accessed when it is added or a lookup is
    answered, and withdrawn when its account or its browser is removed.
   */
  function GrantAfter(timeout: nat, events: seq<Event>, token: Token): Option<Grant> {
    if events == [] then None
    else
      var before, e := GrantAfter(timeout, events[..|events| - 1], token), events[|events| - 1];
      match e.op
      case AddAccount(b, t, a, profile) => if t == token then Some(Grant(a, b, profile, e.at)) else before
      case Get(t) =>
        if t == token && Recent(timeout, before, e.at) then Some(before.value.(at := e.at)) else before
      case GetAccount(b, a, t) =>
        if t == token && Recent(timeout, before, e.at) && before.value.browser == b && before.value.account == a
        then Some(before.value.(at := e.at)) else before
      case RemoveAccount(a) => if before.Some? && before.value.account == a then None else before
      case RemoveBrowser(b) => if before.Some? && before.value.browser == b then None else before
      case _ => before
  }

  lemma GrantStep(timeout: nat, events: seq<Event>, e: Event, token: Token)
    ensures GrantAfter(timeout, events + [e], token) ==
            var before := GrantAfter(timeout, events, token);
            match e.op
            case AddAccount(b, t, a, profile) => if t == token then Some(Grant(a, b, profile, e.at)) else before
            case Get(t) =>
              if t == token && Recent(timeout, before, e.at) then Some(before.value.(at := e.at)) else before
            case GetAccount(b, a, t) =>
              if t == token && Recent(timeout, before, e.at) && before.value.browser == b && before.value.account == a
              then Some(before.value.(at := e.at)) else before
            case RemoveAccount(a) => if before.Some? && before.value.account == a then None else before
            case RemoveBrowser(b) => if before.Some? && before.value.browser == b then None else before
            case _ => before
  {
    assert (events + [e])[..|events|] == events;
  }

  // ----- The store agrees with the history -----

  /** The session a grant stands for. */
  function SessionOf(g: Grant): Live {
    Live(Session(g.account, g.profile, g.at, None), g.browser)
  }

  ghost predicate AgreesOn(v: map<Token, Live>, g: Option<Grant>, timeout: nat, token: Token, now: int) {
    (token in v <==> Recent(timeout, g, now)) && (token in v ==> v[token] == SessionOf(g.value))
  }

  ghost predicate Agrees(s: Store, events: seq<Event>, timeout: nat, now: int)
    requires Inv(s)
  {
    && s.timeout == timeout
    && forall token :: AgreesOn(View(s, now), GrantAfter(timeout, events, token), timeout, token, now)
  }

  /** A session of the plain table ages out exactly past its timeout. */
  lemma ViewAges(s: Store, now: int, later: int, token: Token)
    requires Inv(s) && now <= later
    requires token in View(s, now) ==> View(s, now)[token].session.timeoutOverride == None
    ensures token in View(s, later) <==>
            token in View(s, now) && later - View(s, now)[token].session.lastAccessed <= s.timeout
    ensures token in View(s, later) ==> View(s, later)[token] == View(s, now)[token]
  {
  }

  lemma AgreesLater(s: Store, events: seq<Event>, timeout: nat, now: int, later: int)
    requires Inv(s) && Agrees(s, events, timeout, now) && now <= later
    ensures Agrees(s, events, timeout, later)
  {
    hide View, GrantAfter;
    forall token ensures AgreesOn(View(s, later), GrantAfter(timeout, events, token), timeout, token, later) {
      assert AgreesOn(View(s, now), GrantAfter(timeout, events, token), timeout, token, now);
      ViewAges(s, now, later, token);
    }
  }

  lemma TableStep(v: map<Token, Live>, events: seq<Event>, timeout: nat, e: Event, token: Token)
    requires AgreesOn(v, GrantAfter(timeout, events, token), timeout, token, e.at)
    ensures AgreesOn(ViewAfter(v, e), GrantAfter(timeout, events + [e], token), timeout, token, e.at)
  {
    hide GrantAfter;
    GrantStep(timeout, events, e, token);
  }

  lemma AgreesStep(s: Store, events: seq<Event>, timeout: nat, now: int, e: Event)
    requires Inv(s) && Agrees(s, events, timeout, now) && now <= e.at && DrawsFresh(s, e.op)
    ensures Inv(Apply(s, e)) && Agrees(Apply(s, e), events + [e], timeout, e.at)
  {
    hide View, GrantAfter, ViewAfter, Apply, AgreesOn;
    AgreesLater(s, events, timeout, now, e.at);
    StoreRefinesTable(s, e);
    forall token
      ensures AgreesOn(View(Apply(s, e), e.at), GrantAfter(timeout, events + [e], token), timeout, token, e.at)
    {
      assert AgreesOn(View(s, e.at), GrantAfter(timeout, events, token), timeout, token, e.at);
      TableStep(View(s, e.at), events, timeout, e, token);
    }
  }

  // ----- Runs -----

  function TimeAfter(events: seq<Event>, from: int): int {
    if events == [] then from else events[|events| - 1].at
  }

  lemma {:induction false} RunAgrees(
    s: Store, done: seq<Event>, events: seq<Event>, timeout: nat, from: int, used: Used)
    requires Inv(s) && Agrees(s, done, timeout, from) && Knows(used, s)
    requires WellTimed(events, from) && FreshIds(events, used)
    ensures Inv(AfterAll(s, events))
    ensures Agrees(AfterAll(s, events), done + events, timeout, TimeAfter(events, from))
    decreases events
  {
    hide Agrees, Apply, Inv, Knows, FreshIds, UsedAfter;
    if events == [] {
      assert done + [] == done;
    } else {
      var e, rest := events[0], events[1..];
      FirstDrawsFresh(s, events, used);
      AgreesStep(s, done, timeout, from, e);
      ApplyKeepsKnown(s, e, used);
      RunAgrees(Apply(s, e), done + [e], rest, timeout, e.at, UsedAfter(used, e.op));
      assert done + [e] + rest == done + events;
      assert rest != [] ==> rest[|rest| - 1] == events[|events| - 1];
    }
  }

  lemma EmptyAgrees(timeout: nat, from: int)
    ensures Inv(Empty(timeout)) && Agrees(Empty(timeout), [], timeout, from)
  {
  }

  /** Splitting the last operation off a run. */
  lemma {:induction false} RunSplit(s: Store, events: seq<Event>, e: Event, from: int, used: Used)
    requires Inv(s) && Knows(used, s) && WellTimed(events + [e], from) && FreshIds(events + [e], used)
    ensures Results(s, events + [e]) == Results(s, events) + Observed(AfterAll(s, events), e)
    ensures WellTimed(events, from) && FreshIds(events, used) && TimeAfter(events, from) <= e.at
    ensures DrawsFresh(AfterAll(s, events), e.op)
    decreases events
  {
    var all := events + [e];
    if events == [] {
      assert all == [e] && all[1..] == [];
      assert Results(s, all) == Observed(s, e) + [];
    } else {
      assert all[0] == events[0] && all[1..] == events[1..] + [e];
      hide Apply, Observed, Inv, Knows;
      FirstDrawsFresh(s, all, used);
      ApplyKeepsInv(s, events[0]);
      ApplyKeepsKnown(s, events[0], used);
      RunSplit(Apply(s, events[0]), events[1..], e, events[0].at, UsedAfter(used, events[0].op));
      assert TimeAfter(events, from) == TimeAfter(events[1..], events[0].at);
    }
  }

  lemma LastAnswer(timeout: nat, events: seq<Event>, e: Event, from: int, token: Token)
    requires WellTimed(events + [e], from) && FreshIds(events + [e], NONE_USED)
    ensures var s := AfterAll(Empty(timeout), events);
            && Inv(s)
            && AgreesOn(View(s, e.at), GrantAfter(timeout, events, token), timeout, token, e.at)
            && Results(Empty(timeout), events + [e]) == Results(Empty(timeout), events) + ViewObserved(View(s, e.at), e)
  {
    EmptyAgrees(timeout, from);
    RunSplit(Empty(timeout), events, e, from, NONE_USED);
    RunAgrees(Empty(timeout), [], events, timeout, from, NONE_USED);
    assert [] + events == events;
    hide View, GrantAfter, AgreesOn, ViewAfter, ViewObserved, Apply, Observed, WellTimed, FreshIds, AfterAll;
    var s := AfterAll(Empty(timeout), events);
    AgreesLater(s, events, timeout, TimeAfter(events, from), e.at);
    StoreRefinesTable(s, e);
  }

  /**
    Over every run a lookup by token is answered exactly if the token was granted and not withdrawn since, and its last
    access is no further back than the timeout. The answer is the session as it was added, accessed now.
   */
  lemma GetIsAnsweredIffRecent(timeout: nat, events: seq<Event>, token: Token, at: int, from: int)
    requires WellTimed(events + [Event(Get(token), at)], from)
    requires FreshIds(events + [Event(Get(token), at)], NONE_USED)
    ensures var g := GrantAfter(timeout, events, token);
            Results(Empty(timeout), events + [Event(Get(token), at)]) ==
            Results(Empty(timeout), events)
            + [if g.Some? && at - g.value.at <= timeout then Some(Session(g.value.account, g.value.profile, at, None))
               else None]
  {
    hide GrantAfter, View, Results, AfterAll, WellTimed, FreshIds, Inv;
    LastAnswer(timeout, events, Event(Get(token), at), from, token);
  }

  /** A lookup by browser, account and token is answered exactly if, besides, the token was given to both. */
  lemma GetAccountIsAnsweredIffRecent(
    timeout: nat, events: seq<Event>, browser: BrowserId, account: AccountId, token: Token, at: int, from: int)
    requires WellTimed(events + [Event(GetAccount(browser, account, token), at)], from)
    requires FreshIds(events + [Event(GetAccount(browser, account, token), at)], NONE_USED)
    ensures var g := GrantAfter(timeout, events, token);
            Results(Empty(timeout), events + [Event(GetAccount(browser, account, token), at)]) ==
            Results(Empty(timeout), events)
            + [if g.Some? && at - g.value.at <= timeout && g.value.browser == browser && g.value.account == account
               then Some(Session(account, g.value.profile, at, None)) else None]
  {
    hide GrantAfter, View, Results, AfterAll, WellTimed, FreshIds, Inv;
    LastAnswer(timeout, events, Event(GetAccount(browser, account, token), at), from, token);
  }
}
