/** Runs of the session store: consistency of every reachable state, and expiry as seen from outside. */
module SessionRuns {
  import opened Wrappers
  import opened SessionStore

  datatype Op =
    | CreateBrowser(id: BrowserId)
    | AddAccount(browser: BrowserId, token: Token, account: AccountId, profile: string)
    | Get(token: Token)
    | GetAccount(browser: BrowserId, account: AccountId, token: Token)
    | RemoveAccount(account: AccountId)
    | RemoveBrowser(browser: BrowserId)
    | Purge

  /** An operation and the clock reading it makes. */
  datatype Event = Event(op: Op, at: int)

  function Apply(s: Store, e: Event): Store {
    match e.op
    case CreateBrowser(id) => WithBrowser(s, id)
    case AddAccount(browser, token, account, profile) => WithAccount(s, browser, token, account, profile, e.at)
    case Get(token) => AfterGet(s, token, e.at)
    case GetAccount(browser, account, token) =>
      if Grants(s, browser, account, token) then AfterGet(s, token, e.at) else s
    case RemoveAccount(account) => WithoutAccount(s, account)
    case RemoveBrowser(browser) => WithoutBrowser(s, browser)
    case Purge => Purged(s, e.at)
  }

  /** What the lookups return; the other operations return nothing a later lookup depends on. */
  function Observed(s: Store, e: Event): seq<Option<Session>> {
    match e.op
    case Get(token) => [Got(s, token, e.at)]
    case GetAccount(browser, account, token) =>
      [if Grants(s, browser, account, token) then Got(s, token, e.at) else None]
    case _ => []
  }

  /** The ids an operation draws are not in use. */
  predicate DrawsFresh(s: Store, op: Op) {
    match op
    case CreateBrowser(id) => id !in s.browsers
    case AddAccount(_, token, account, _) => token !in s.sessions && account !in s.accountToSession
    case _ => true
  }

  // ----- Lists without duplicates -----

  lemma ConsDistinct(a: AccountId, rest: seq<AccountId>)
    ensures NoDuplicates([a] + rest) <==> a !in rest && NoDuplicates(rest)
  {
    var list := [a] + rest;
    if NoDuplicates(list) {
      forall i | 0 <= i < |rest| ensures rest[i] != a {
        assert list[0] != list[i + 1];
      }
      forall i, j | 0 <= i < j < |rest| ensures rest[i] != rest[j] {
        assert list[i + 1] != list[j + 1];
      }
    }
  }

  lemma {:induction false} WithoutKeepsDistinct(list: seq<AccountId>, gone: set<AccountId>)
    requires NoDuplicates(list)
    ensures NoDuplicates(Without(list, gone))
    ensures (forall a :: a in list ==> a !in gone) ==> Without(list, gone) == list
  {
    if list != [] {
      var head, rest := list[0], list[1..];
      assert list == [head] + rest;
      hide NoDuplicates;
      ConsDistinct(head, rest);
      WithoutKeepsDistinct(rest, gone);
      ConsDistinct(head, Without(rest, gone));
    }
  }

  /** With no duplicates, removing the first occurrence removes the account. */
  lemma {:induction false} FirstIsOnly(list: seq<AccountId>, a: AccountId)
    requires NoDuplicates(list)
    ensures WithoutFirst(list, a) == Without(list, {a})
  {
    if list != [] {
      assert forall i :: 0 <= i < |list[1..]| ==> list[1..][i] == list[i + 1];
      FirstIsOnly(list[1..], a);
      if list[0] == a {
        assert a !in list[1..];
        WithoutKeepsDistinct(list[1..], {a});
      }
    }
  }

  // ----- Every removal has the same shape -----

  /** `s'` is `s` without some accounts; browsers left with no account may or may not have been dropped. */
  ghost predicate IsRemoval(s: Store, s': Store, gone: set<AccountId>) {
    && s'.timeout == s.timeout
    && s'.sessions == (map t | t in s.sessions && s.sessions[t].account !in gone :: s.sessions[t])
    && s'.accountToSession == s.accountToSession - gone
    && s'.accountToBrowser == s.accountToBrowser - gone
    && (forall b :: b in s'.browsers ==> b in s.browsers && s'.browsers[b] == Without(s.browsers[b], gone))
    && (forall b, a :: Lists(s, b, a) && a !in gone ==> b in s'.browsers)
  }

  lemma RemovalKeepsInv(s: Store, s': Store, gone: set<AccountId>)
    requires Inv(s) && IsRemoval(s, s', gone)
    ensures Inv(s')
  {
    forall b | b in s'.browsers ensures NoDuplicates(s'.browsers[b]) {
      WithoutKeepsDistinct(s.browsers[b], gone);
    }
    forall b, a ensures Lists(s', b, a) <==> Owns(s', b, a) {
      assert Lists(s, b, a) <==> Owns(s, b, a);
    }
  }

  lemma RemoveAccountIsRemoval(s: Store, a: AccountId)
    requires Inv(s)
    ensures IsRemoval(s, WithoutAccount(s, a), {a})
  {
    var s' := WithoutAccount(s, a);
    forall b | b in s.browsers ensures b in s'.browsers && s'.browsers[b] == Without(s.browsers[b], {a}) {
      FirstIsOnly(s.browsers[b], a);
      WithoutKeepsDistinct(s.browsers[b], {a});
      assert Lists(s, b, a) <==> Owns(s, b, a);
      assert a in s.accountToBrowser ==> Lists(s, s.accountToBrowser[a], a) by {
        assert a in s.accountToBrowser ==> Owns(s, s.accountToBrowser[a], a);
      }
    }
    assert a !in s.accountToSession ==> s.accountToSession - {a} == s.accountToSession;
    assert a !in s.accountToBrowser ==> s.accountToBrowser - {a} == s.accountToBrowser;
  }

  /** Sessions and index entries without some accounts; the lists stay. */
  function Dropped(s: Store, gone: set<AccountId>): Store {
    s.(sessions := map t | t in s.sessions && s.sessions[t].account !in gone :: s.sessions[t],
       accountToSession := s.accountToSession - gone,
       accountToBrowser := s.accountToBrowser - gone)
  }

  lemma DropOne(s: Store, a: AccountId)
    requires TokensMatch(s)
    ensures TokensMatch(Dropped(s, {a}))
    ensures Dropped(s, {a}) ==
            if a in s.accountToSession then
              s.(sessions := s.sessions - {s.accountToSession[a]},
                 accountToSession := s.accountToSession - {a},
                 accountToBrowser := s.accountToBrowser - {a})
            else s.(accountToBrowser := s.accountToBrowser - {a})
  {
    var d := Dropped(s, {a});
    if a in s.accountToSession {
      assert d.sessions == s.sessions - {s.accountToSession[a]};
    } else {
      assert d.sessions == s.sessions;
      assert d.accountToSession == s.accountToSession;
    }
  }

  lemma DropMore(s: Store, a: AccountId, gone: set<AccountId>)
    ensures Dropped(Dropped(s, {a}), gone) == Dropped(s, {a} + gone)
  {
    assert s.accountToSession - {a} - gone == s.accountToSession - ({a} + gone);
    assert s.accountToBrowser - {a} - gone == s.accountToBrowser - ({a} + gone);
  }

  lemma {:induction false} DropAccountsTogether(s: Store, accounts: seq<AccountId>)
    requires TokensMatch(s)
    ensures DropAccounts(s, accounts) == Dropped(s, set a | a in accounts)
    decreases accounts
  {
    if accounts == [] {
      assert Dropped(s, {}).sessions == s.sessions;
      assert s.accountToSession - {} == s.accountToSession && s.accountToBrowser - {} == s.accountToBrowser;
    } else {
      var a, rest := accounts[0], set x | x in accounts[1..];
      assert (set x | x in accounts) == {a} + rest;
      DropOne(s, a);
      DropMore(s, a, rest);
      DropAccountsTogether(Dropped(s, {a}), accounts[1..]);
    }
  }

  lemma RemoveBrowserIsRemoval(s: Store, b: BrowserId)
    requires Inv(s) && b in s.browsers
    ensures IsRemoval(s, WithoutBrowser(s, b), set a | a in s.browsers[b])
  {
    var gone := set a | a in s.browsers[b];
    DropAccountsTogether(s.(browsers := s.browsers - {b}), s.browsers[b]);
    forall other | other in s.browsers && other != b
      ensures Without(s.browsers[other], gone) == s.browsers[other]
    {
      forall a | a in s.browsers[other] ensures a !in gone {
        assert Lists(s, other, a) <==> Owns(s, other, a);
        assert Lists(s, b, a) <==> Owns(s, b, a);
      }
      WithoutKeepsDistinct(s.browsers[other], gone);
    }
  }

  lemma EvictionIsRemoval(s: Store, alive: Store, gone: set<AccountId>)
    requires Inv(s) && alive.(sessions := s.sessions) == s
    requires alive.sessions == map t | t in s.sessions && s.sessions[t].account !in gone :: s.sessions[t]
    ensures IsRemoval(s, Evicted(alive, gone), gone)
  {
    forall b, a | Lists(s, b, a) && a !in gone ensures b in Evicted(alive, gone).browsers {
      assert a in Without(s.browsers[b], gone);
    }
  }

  lemma ExpiredGetIsRemoval(s: Store, token: Token, now: int)
    requires Inv(s) && token in s.sessions && Expired(s, s.sessions[token], now)
    ensures IsRemoval(s, AfterGet(s, token, now), {s.sessions[token].account})
  {
    var gone := {s.sessions[token].account};
    assert s.sessions - {token} == map t | t in s.sessions && s.sessions[t].account !in gone :: s.sessions[t];
    EvictionIsRemoval(s, s.(sessions := s.sessions - {token}), gone);
  }

  lemma PurgeIsRemoval(s: Store, now: int)
    requires Inv(s)
    ensures IsRemoval(s, Purged(s, now), ExpiredAccounts(s, now))
  {
    var gone := ExpiredAccounts(s, now);
    var alive := s.(sessions := map t | t in s.sessions && !Expired(s, s.sessions[t], now) :: s.sessions[t]);
    forall t | t in s.sessions ensures s.sessions[t].account in gone <==> Expired(s, s.sessions[t], now) {
      if s.sessions[t].account in gone {
        var u :| u in s.sessions && Expired(s, s.sessions[u], now) && s.sessions[u].account == s.sessions[t].account;
        assert u == t;
      }
    }
    assert alive.sessions == map t | t in s.sessions && s.sessions[t].account !in gone :: s.sessions[t];
    if gone == {} {
      forall b | b in s.browsers ensures Without(s.browsers[b], gone) == s.browsers[b] {
        WithoutKeepsDistinct(s.browsers[b], gone);
      }
      assert s.accountToSession - gone == s.accountToSession && s.accountToBrowser - gone == s.accountToBrowser;
    } else {
      EvictionIsRemoval(s, alive, gone);
    }
  }

  /** Removal by reverse index and removal by full scan leave the same accounts everywhere. */
  lemma ReverseIndexMatchesScan(s: Store, a: AccountId)
    requires Inv(s) && a in s.accountToSession
    ensures var byIndex := WithoutAccount(s, a);
            var byScan := Evicted(s.(sessions := s.sessions - {s.accountToSession[a]}), {a});
            && byIndex.sessions == byScan.sessions
            && byIndex.accountToSession == byScan.accountToSession
            && byIndex.accountToBrowser == byScan.accountToBrowser
            && forall b :: b in s.browsers ==>
                 b in byIndex.browsers && (b in byScan.browsers <==> byIndex.browsers[b] != [])
                 && (b in byScan.browsers ==> byScan.browsers[b] == byIndex.browsers[b])
  {
    RemoveAccountIsRemoval(s, a);
    forall b | b in s.browsers ensures b in WithoutAccount(s, a).browsers {}
  }

  // ----- Consistency -----

  lemma AddAccountKeepsInv(s: Store, b: BrowserId, token: Token, a: AccountId, profile: string, now: int)
    requires Inv(s) && token !in s.sessions && a !in s.accountToSession
    ensures Inv(WithAccount(s, b, token, a, profile, now))
  {
    var s' := WithAccount(s, b, token, a, profile, now);
    assert !Owns(s, b, a);
    assert b in s.browsers ==> a !in s.browsers[b] by {
      assert !Lists(s, b, a);
    }
    forall other | other in s'.browsers ensures NoDuplicates(s'.browsers[other]) {
      assert other != b ==> NoDuplicates(s.browsers[other]);
    }
    forall other, x ensures Lists(s', other, x) <==> Owns(s', other, x) {
      assert Lists(s, other, x) <==> Owns(s, other, x);
      assert !Owns(s, other, a);
    }
  }

  /** Only timestamps and empty browsers differ. */
  lemma SameOwnersKeepInv(s: Store, s': Store)
    requires Inv(s) && TokensMatch(s')
    requires s'.accountToSession == s.accountToSession && s'.accountToBrowser == s.accountToBrowser
    requires forall b :: b in s.browsers ==> b in s'.browsers && s'.browsers[b] == s.browsers[b]
    requires forall b :: b in s'.browsers && b !in s.browsers ==> s'.browsers[b] == []
    ensures Inv(s')
  {
    forall b, a ensures Lists(s', b, a) <==> Owns(s', b, a) {
      assert Lists(s, b, a) <==> Owns(s, b, a);
    }
  }

  lemma ApplyKeepsInv(s: Store, e: Event)
    requires Inv(s) && DrawsFresh(s, e.op)
    ensures Inv(Apply(s, e))
  {
    match e.op
    case CreateBrowser(id) => SameOwnersKeepInv(s, WithBrowser(s, id));
    case AddAccount(b, token, a, profile) => AddAccountKeepsInv(s, b, token, a, profile, e.at);
    case Get(token) => GetKeepsInv(s, token, e.at);
    case GetAccount(_, _, token) => GetKeepsInv(s, token, e.at);
    case RemoveAccount(a) =>
      RemoveAccountIsRemoval(s, a);
      RemovalKeepsInv(s, WithoutAccount(s, a), {a});
    case RemoveBrowser(b) =>
      if b in s.browsers {
        RemoveBrowserIsRemoval(s, b);
        RemovalKeepsInv(s, WithoutBrowser(s, b), set a | a in s.browsers[b]);
      }
    case Purge =>
      PurgeIsRemoval(s, e.at);
      RemovalKeepsInv(s, Purged(s, e.at), ExpiredAccounts(s, e.at));
  }

  lemma GetKeepsInv(s: Store, token: Token, now: int)
    requires Inv(s)
    ensures Inv(AfterGet(s, token, now))
  {
    if token in s.sessions && Expired(s, s.sessions[token], now) {
      ExpiredGetIsRemoval(s, token, now);
      RemovalKeepsInv(s, AfterGet(s, token, now), {s.sessions[token].account});
    } else {
      SameOwnersKeepInv(s, AfterGet(s, token, now));
    }
  }

  /** The ids drawn so far. */
  datatype Used = Used(tokens: set<Token>, accounts: set<AccountId>, browsers: set<BrowserId>)

  function UsedAfter(used: Used, op: Op): Used {
    match op
    case CreateBrowser(id) => used.(browsers := used.browsers + {id})
    case AddAccount(b, token, a, _) =>
      Used(used.tokens + {token}, used.accounts + {a}, used.browsers + {b})
    case _ => used
  }

  /** Generated ids never repeat, whatever the operations before did. */
  predicate FreshIds(events: seq<Event>, used: Used) {
    events == [] || (
      && (match events[0].op
          case CreateBrowser(id) => id !in used.browsers
          case AddAccount(_, token, a, _) => token !in used.tokens && a !in used.accounts
          case _ => true)
      && FreshIds(events[1..], UsedAfter(used, events[0].op)))
  }

  ghost predicate Knows(used: Used, s: Store) {
    s.sessions.Keys <= used.tokens && s.accountToSession.Keys <= used.accounts && s.browsers.Keys <= used.browsers
  }

  lemma ApplyKeepsKnown(s: Store, e: Event, used: Used)
    requires Inv(s) && DrawsFresh(s, e.op) && Knows(used, s)
    ensures Knows(UsedAfter(used, e.op), Apply(s, e))
  {
    match e.op
    case RemoveAccount(a) => RemoveAccountIsRemoval(s, a);
    case RemoveBrowser(b) => if b in s.browsers { RemoveBrowserIsRemoval(s, b); }
    case Purge => PurgeIsRemoval(s, e.at);
    case _ =>
  }

  function AfterAll(s: Store, events: seq<Event>): Store
    decreases events
  {
    if events == [] then s else AfterAll(Apply(s, events[0]), events[1..])
  }

  const NONE_USED := Used({}, {}, {})

  function Empty(timeout: nat): Store {
    Store(map[], map[], map[], map[], timeout)
  }

  lemma {:induction false} RunKeepsInv(s: Store, events: seq<Event>, used: Used)
    requires Inv(s) && Knows(used, s) && FreshIds(events, used)
    ensures Inv(AfterAll(s, events))
    decreases events
  {
    if events != [] {
      ApplyKeepsInv(s, events[0]);
      ApplyKeepsKnown(s, events[0], used);
      RunKeepsInv(Apply(s, events[0]), events[1..], UsedAfter(used, events[0].op));
    }
  }

  lemma InvIsConsistent(s: Store)
    requires Inv(s)
    ensures Consistent(s)
  {
    forall b, a | b in s.browsers && a in s.browsers[b] ensures a in s.accountToSession {
      assert Lists(s, b, a);
    }
    forall a | a in s.accountToBrowser ensures s.accountToBrowser[a] in s.browsers {
      assert Owns(s, s.accountToBrowser[a], a);
    }
  }

  /** Every reachable state passes the store's own consistency check, and more: see `Inv`. */
  lemma ReachableIsConsistent(timeout: nat, events: seq<Event>)
    requires FreshIds(events, NONE_USED)
    ensures Inv(AfterAll(Empty(timeout), events)) && Consistent(AfterAll(Empty(timeout), events))
  {
    RunKeepsInv(Empty(timeout), events, NONE_USED);
    InvIsConsistent(AfterAll(Empty(timeout), events));
  }

  lemma {:induction false} DistinctCount(list: seq<AccountId>, a: AccountId)
    requires NoDuplicates(list) && a in list
    ensures multiset(list)[a] == 1
  {
    assert list == [list[0]] + list[1..];
    assert forall i :: 0 <= i < |list[1..]| ==> list[1..][i] == list[i + 1];
    if list[0] == a {
      assert a !in list[1..];
    } else {
      DistinctCount(list[1..], a);
    }
  }

  /** The reverse index names a browser exactly when the account occurs once in its list and in no other list. */
  lemma ReverseIndexIsExact(s: Store, a: AccountId, b: BrowserId)
    requires Inv(s)
    ensures (a in s.accountToBrowser && s.accountToBrowser[a] == b) <==>
            (b in s.browsers && multiset(s.browsers[b])[a] == 1 &&
             forall other :: other in s.browsers && other != b ==> a !in s.browsers[other])
  {
    assert forall other :: Lists(s, other, a) <==> Owns(s, other, a);
    assert Lists(s, b, a) <==> Owns(s, b, a);
    forall other | other in s.browsers && other != b && Owns(s, b, a) ensures a !in s.browsers[other] {
      assert !Owns(s, other, a);
      assert !Lists(s, other, a);
    }
    if b in s.browsers && a in s.browsers[b] {
      DistinctCount(s.browsers[b], a);
    }
  }

  // ----- Expiry as seen from outside -----

  datatype Live = Live(session: Session, browser: BrowserId)

  /** All a client can see of a store: its unexpired sessions and the browsers they belong to. */
  ghost function View(s: Store, now: int): map<Token, Live>
    requires Inv(s)
  {
    map t | t in s.sessions && !Expired(s, s.sessions[t], now) ::
      Live(s.sessions[t], s.accountToBrowser[s.sessions[t].account])
  }

  /** A plain table of live sessions, without indexes and without eviction. */
  function ViewAfter(v: map<Token, Live>, e: Event): map<Token, Live> {
    match e.op
    case AddAccount(b, token, a, profile) => v[token := Live(Session(a, profile, e.at, None), b)]
    case Get(token) => Refreshed(v, token, e.at)
    case GetAccount(b, a, token) =>
      if token in v && v[token].browser == b && v[token].session.account == a then Refreshed(v, token, e.at) else v
    case RemoveAccount(a) => map t | t in v && v[t].session.account != a :: v[t]
    case RemoveBrowser(b) => map t | t in v && v[t].browser != b :: v[t]
    case _ => v
  }

  function Refreshed(v: map<Token, Live>, token: Token, now: int): map<Token, Live> {
    if token in v then v[token := v[token].(session := v[token].session.(lastAccessed := now))] else v
  }

  function Found(v: map<Token, Live>, token: Token, now: int): Option<Session> {
    if token in v then Some(v[token].session.(lastAccessed := now)) else None
  }

  function ViewObserved(v: map<Token, Live>, e: Event): seq<Option<Session>> {
    match e.op
    case Get(token) => [Found(v, token, e.at)]
    case GetAccount(b, a, token) =>
      [if token in v && v[token].browser == b && v[token].session.account == a then Found(v, token, e.at) else None]
    case _ => []
  }

  lemma RemovalView(s: Store, s': Store, gone: set<AccountId>, now: int)
    requires Inv(s) && Inv(s') && IsRemoval(s, s', gone)
    ensures View(s', now) == map t | t in View(s, now) && View(s, now)[t].session.account !in gone :: View(s, now)[t]
  {
  }

  lemma GetView(s: Store, token: Token, now: int)
    requires Inv(s)
    ensures Inv(AfterGet(s, token, now)) && AfterGet(s, token, now).timeout == s.timeout
    ensures View(AfterGet(s, token, now), now) == Refreshed(View(s, now), token, now)
    ensures Got(s, token, now) == Found(View(s, now), token, now)
  {
    GetKeepsInv(s, token, now);
    if token in s.sessions {
      if Expired(s, s.sessions[token], now) {
        ExpiredGetView(s, token, now);
      } else {
        LiveGetView(s, token, now);
      }
    }
  }

  lemma ExpiredGetView(s: Store, token: Token, now: int)
    requires Inv(s) && Inv(AfterGet(s, token, now)) && token in s.sessions && Expired(s, s.sessions[token], now)
    ensures AfterGet(s, token, now).timeout == s.timeout && View(AfterGet(s, token, now), now) == View(s, now)
  {
    var gone := {s.sessions[token].account};
    ExpiredGetIsRemoval(s, token, now);
    RemovalView(s, AfterGet(s, token, now), gone, now);
    hide IsRemoval, AfterGet;
    forall t | t in View(s, now) ensures View(s, now)[t].session.account !in gone {
      assert s.accountToSession[s.sessions[t].account] == t;
    }
  }

  lemma LiveGetView(s: Store, token: Token, now: int)
    requires Inv(s) && Inv(AfterGet(s, token, now)) && token in s.sessions && !Expired(s, s.sessions[token], now)
    ensures View(AfterGet(s, token, now), now) == Refreshed(View(s, now), token, now)
  {
  }

  /** The store with its four maps refines the plain table: same table after each step, same answers. */
  lemma StoreRefinesTable(s: Store, e: Event)
    requires Inv(s) && DrawsFresh(s, e.op)
    ensures Inv(Apply(s, e)) && Apply(s, e).timeout == s.timeout
    ensures View(Apply(s, e), e.at) == ViewAfter(View(s, e.at), e)
    ensures Observed(s, e) == ViewObserved(View(s, e.at), e)
  {
    hide View, Inv, WithBrowser, WithAccount, WithoutAccount, WithoutBrowser, AfterGet, Got, Grants, Purged;
    ApplyKeepsInv(s, e);
    match e.op
    case CreateBrowser(id) => CreateBrowserView(s, id, e.at);
    case AddAccount(b, token, a, profile) => AddAccountView(s, b, token, a, profile, e.at);
    case Get(token) => GetView(s, token, e.at);
    case GetAccount(b, a, token) =>
      GetView(s, token, e.at);
      GrantsView(s, b, a, token, e.at);
    case RemoveAccount(a) => RemoveAccountView(s, a, e.at);
    case RemoveBrowser(b) => RemoveBrowserView(s, b, e.at);
    case Purge => PurgeView(s, e.at);
  }

  lemma CreateBrowserView(s: Store, id: BrowserId, now: int)
    requires Inv(s) && Inv(WithBrowser(s, id))
    ensures WithBrowser(s, id).timeout == s.timeout && View(WithBrowser(s, id), now) == View(s, now)
  {
  }

  lemma AddAccountView(s: Store, b: BrowserId, token: Token, a: AccountId, profile: string, now: int)
    requires Inv(s) && token !in s.sessions && a !in s.accountToSession
    requires Inv(WithAccount(s, b, token, a, profile, now))
    ensures WithAccount(s, b, token, a, profile, now).timeout == s.timeout
    ensures View(WithAccount(s, b, token, a, profile, now), now) ==
            View(s, now)[token := Live(Session(a, profile, now, None), b)]
  {
  }

  /** A lookup is granted to exactly the session of that account in that browser, unless it has expired. */
  lemma GrantsView(s: Store, b: BrowserId, a: AccountId, token: Token, now: int)
    requires Inv(s)
    ensures var v := View(s, now);
            Grants(s, b, a, token) && token in v <==>
            token in v && v[token].browser == b && v[token].session.account == a
    ensures Grants(s, b, a, token) && token !in View(s, now) ==> Got(s, token, now) == None
  {
    assert Lists(s, b, a) <==> Owns(s, b, a);
  }

  lemma RemoveAccountView(s: Store, a: AccountId, now: int)
    requires Inv(s) && Inv(WithoutAccount(s, a))
    ensures WithoutAccount(s, a).timeout == s.timeout
    ensures View(WithoutAccount(s, a), now) ==
            map t | t in View(s, now) && View(s, now)[t].session.account != a :: View(s, now)[t]
  {
    RemoveAccountIsRemoval(s, a);
    RemovalView(s, WithoutAccount(s, a), {a}, now);
  }

  lemma PurgeView(s: Store, now: int)
    requires Inv(s) && Inv(Purged(s, now))
    ensures Purged(s, now).timeout == s.timeout && View(Purged(s, now), now) == View(s, now)
  {
    PurgeIsRemoval(s, now);
    RemovalView(s, Purged(s, now), ExpiredAccounts(s, now), now);
    forall t | t in View(s, now) ensures View(s, now)[t].session.account !in ExpiredAccounts(s, now) {
      assert s.accountToSession[s.sessions[t].account] == t;
    }
  }

  lemma RemoveBrowserView(s: Store, b: BrowserId, now: int)
    requires Inv(s) && Inv(WithoutBrowser(s, b))
    ensures WithoutBrowser(s, b).timeout == s.timeout
    ensures View(WithoutBrowser(s, b), now) ==
            map t | t in View(s, now) && View(s, now)[t].browser != b :: View(s, now)[t]
  {
    var v := View(s, now);
    forall t | t in v ensures v[t].browser == b <==> Lists(s, b, v[t].session.account) {
      assert Lists(s, b, s.sessions[t].account) <==> Owns(s, b, s.sessions[t].account);
    }
    if b in s.browsers {
      var gone := set a | a in s.browsers[b];
      RemoveBrowserIsRemoval(s, b);
      RemovalView(s, WithoutBrowser(s, b), gone, now);
      assert forall t :: t in v ==> (v[t].browser == b <==> v[t].session.account in gone);
    }
  }

  /** Later views depend on the store only through earlier ones. */
  lemma SameViewLater(s: Store, t: Store, now: int, later: int)
    requires Inv(s) && Inv(t) && s.timeout == t.timeout && View(s, now) == View(t, now) && now <= later
    ensures View(s, later) == View(t, later)
  {
    forall x | x in View(s, later) ensures x in View(t, later) && View(t, later)[x] == View(s, later)[x] {
      assert x in View(s, now);
    }
    forall x | x in View(t, later) ensures x in View(s, later) {
      assert x in View(t, now);
    }
  }

  predicate WellTimed(events: seq<Event>, from: int) {
    events == [] || (from <= events[0].at && WellTimed(events[1..], events[0].at))
  }

  function WithoutPurges(events: seq<Event>): seq<Event> {
    if events == [] then []
    else (if events[0].op.Purge? then [] else [events[0]]) + WithoutPurges(events[1..])
  }

  function Results(s: Store, events: seq<Event>): seq<Option<Session>>
    decreases events
  {
    if events == [] then [] else Observed(s, events[0]) + Results(Apply(s, events[0]), events[1..])
  }

  lemma PurgeIsNoStep(v: map<Token, Live>, e: Event)
    requires e.op.Purge?
    ensures ViewAfter(v, e) == v && ViewObserved(v, e) == []
  {
  }

  lemma FirstDrawsFresh(s: Store, events: seq<Event>, used: Used)
    requires Knows(used, s) && events != [] && FreshIds(events, used)
    ensures DrawsFresh(s, events[0].op) && FreshIds(events[1..], UsedAfter(used, events[0].op))
  {
  }

  lemma {:induction false} PurgesDoNotShow(s: Store, t: Store, events: seq<Event>, from: int, used: Used)
    requires Inv(s) && Inv(t) && s.timeout == t.timeout && View(s, from) == View(t, from)
    requires WellTimed(events, from) && Knows(used, s) && Knows(used, t) && FreshIds(events, used)
    ensures Results(s, events) == Results(t, WithoutPurges(events))
    decreases events
  {
    if events != [] {
      var e, rest, used' := events[0], events[1..], UsedAfter(used, events[0].op);
      hide Apply, Observed, View, Inv, ViewAfter, ViewObserved, Knows, FreshIds, UsedAfter;
      FirstDrawsFresh(s, events, used);
      FirstDrawsFresh(t, events, used);
      SameViewLater(s, t, from, e.at);
      StoreRefinesTable(s, e);
      ApplyKeepsKnown(s, e, used);
      if e.op.Purge? {
        PurgeIsNoStep(View(s, e.at), e);
        PurgesDoNotShow(Apply(s, e), t, rest, e.at, used');
        assert Observed(s, e) == [];
        assert Results(s, events) == Results(Apply(s, e), rest);
        assert WithoutPurges(events) == WithoutPurges(rest);
      } else {
        StoreRefinesTable(t, e);
        ApplyKeepsKnown(t, e, used);
        PurgesDoNotShow(Apply(s, e), Apply(t, e), rest, e.at, used');
        assert Observed(s, e) == Observed(t, e);
        assert WithoutPurges(events) == [e] + WithoutPurges(rest);
        assert WithoutPurges(events)[1..] == WithoutPurges(rest);
        assert Results(t, WithoutPurges(events)) == Observed(t, e) + Results(Apply(t, e), WithoutPurges(rest));
      }
    }
  }

  /** Eager expiry is unobservable: runs that differ only in where they purge answer every lookup alike. */
  lemma PurgesAreUnobservable(timeout: nat, events: seq<Event>, others: seq<Event>, from: int)
    requires WithoutPurges(events) == WithoutPurges(others)
    requires WellTimed(events, from) && WellTimed(others, from)
    requires FreshIds(events, NONE_USED) && FreshIds(others, NONE_USED)
    ensures Results(Empty(timeout), events) == Results(Empty(timeout), others)
  {
    PurgesDoNotShow(Empty(timeout), Empty(timeout), events, from, NONE_USED);
    PurgesDoNotShow(Empty(timeout), Empty(timeout), others, from, NONE_USED);
  }
}
