/** The in-memory session store: four maps updated separately that must stay consistent. */
module SessionStore {
  import opened Wrappers

  type Token = string
  type AccountId = string
  type BrowserId = string

  /** `profile` stands for the fields no operation looks at. Times are in one clock unit. */
  datatype Session = Session(account: AccountId, profile: string, lastAccessed: int, timeoutOverride: Option<nat>)

  datatype Store = Store(
    sessions: map<Token, Session>,
    browsers: map<BrowserId, seq<AccountId>>,
    accountToSession: map<AccountId, Token>,
    accountToBrowser: map<AccountId, BrowserId>,
    timeout: nat)

  // ----- Operations, as functions of the four maps -----

  predicate Expired(s: Store, session: Session, now: int) {
    now - session.lastAccessed > if session.timeoutOverride.Some? then session.timeoutOverride.value else s.timeout
  }

  /** The list without the given accounts. */
  function Without(accounts: seq<AccountId>, gone: set<AccountId>): (r: seq<AccountId>)
    ensures forall a :: a in r <==> a in accounts && a !in gone
  {
    if accounts == [] then []
    else if accounts[0] in gone then Without(accounts[1..], gone)
    else [accounts[0]] + Without(accounts[1..], gone)
  }

  /** The list without the first occurrence of an account. */
  function WithoutFirst(accounts: seq<AccountId>, a: AccountId): seq<AccountId> {
    if accounts == [] then []
    else if accounts[0] == a then accounts[1..]
    else [accounts[0]] + WithoutFirst(accounts[1..], a)
  }

  function WithBrowser(s: Store, b: BrowserId): Store {
    s.(browsers := s.browsers[b := []])
  }

  function WithAccount(s: Store, b: BrowserId, token: Token, a: AccountId, profile: string, now: int): Store {
    s.(sessions := s.sessions[token := Session(a, profile, now, None)],
       accountToSession := s.accountToSession[a := token],
       accountToBrowser := s.accountToBrowser[a := b],
       browsers := s.browsers[b := (if b in s.browsers then s.browsers[b] else []) + [a]])
  }

  /** Removal through the reverse index: only the owning browser's list is touched. */
  function WithoutAccount(s: Store, a: AccountId): Store {
    if a !in s.accountToSession then s
    else
      var browsers :=
        if a in s.accountToBrowser && s.accountToBrowser[a] in s.browsers then
          s.browsers[s.accountToBrowser[a] := WithoutFirst(s.browsers[s.accountToBrowser[a]], a)]
        else s.browsers;
      s.(sessions := s.sessions - {s.accountToSession[a]},
         accountToSession := s.accountToSession - {a},
         accountToBrowser := s.accountToBrowser - {a},
         browsers := browsers)
  }

  /** Drop the sessions and index entries of a list of accounts. */
  function DropAccounts(s: Store, accounts: seq<AccountId>): Store
    decreases accounts
  {
    if accounts == [] then s
    else
      var a := accounts[0];
      var s' := s.(accountToBrowser := s.accountToBrowser - {a});
      var s'' := if a in s.accountToSession then
        s'.(sessions := s.sessions - {s.accountToSession[a]}, accountToSession := s.accountToSession - {a}) else s';
      DropAccounts(s'', accounts[1..])
  }

  function WithoutBrowser(s: Store, b: BrowserId): Store {
    if b in s.browsers then DropAccounts(s.(browsers := s.browsers - {b}), s.browsers[b]) else s
  }

  /** Scan every browser for the accounts and drop the browsers left empty, also those that were empty before. */
  function Evicted(s: Store, gone: set<AccountId>): Store {
    s.(accountToSession := s.accountToSession - gone,
       accountToBrowser := s.accountToBrowser - gone,
       browsers := map b | b in s.browsers && Without(s.browsers[b], gone) != [] :: Without(s.browsers[b], gone))
  }

  /** Lazy expiry: an expired session is evicted when it is asked for, a live one is refreshed. */
  function AfterGet(s: Store, token: Token, now: int): Store {
    if token !in s.sessions then s
    else
      var session := s.sessions[token];
      if Expired(s, session, now) then Evicted(s.(sessions := s.sessions - {token}), {session.account})
      else s.(sessions := s.sessions[token := session.(lastAccessed := now)])
  }

  function Got(s: Store, token: Token, now: int): Option<Session> {
    if token in s.sessions && !Expired(s, s.sessions[token], now) then Some(s.sessions[token].(lastAccessed := now))
    else None
  }

  predicate Grants(s: Store, b: BrowserId, a: AccountId, token: Token) {
    b in s.browsers && a in s.browsers[b] && a in s.accountToSession && s.accountToSession[a] == token
  }

  function ExpiredAccounts(s: Store, now: int): set<AccountId> {
    set t | t in s.sessions && Expired(s, s.sessions[t], now) :: s.sessions[t].account
  }

  /** Eager expiry: drop every expired session, then evict its account. */
  function Purged(s: Store, now: int): Store {
    var alive := s.(sessions := map t | t in s.sessions && !Expired(s, s.sessions[t], now) :: s.sessions[t]);
    var gone := ExpiredAccounts(s, now);
    if gone == {} then alive else Evicted(alive, gone)
  }

  // ----- What consistency means -----

  /** The property the store's own diagnostic checks. */
  ghost predicate Consistent(s: Store) {
    && (forall t :: t in s.sessions ==>
          s.sessions[t].account in s.accountToSession && s.accountToSession[s.sessions[t].account] == t)
    && (forall a :: a in s.accountToSession ==> s.accountToSession[a] in s.sessions)
    && (forall b, a :: b in s.browsers && a in s.browsers[b] ==> a in s.accountToSession)
    && (forall a :: a in s.accountToBrowser ==> a in s.accountToSession && s.accountToBrowser[a] in s.browsers)
  }

  ghost predicate NoDuplicates(accounts: seq<AccountId>) {
    forall i, j :: 0 <= i < j < |accounts| ==> accounts[i] != accounts[j]
  }

  /** Tokens and accounts are in bijection. */
  ghost predicate TokensMatch(s: Store) {
    && (forall t :: t in s.sessions ==>
          s.sessions[t].account in s.accountToSession && s.accountToSession[s.sessions[t].account] == t)
    && (forall a :: a in s.accountToSession ==>
          s.accountToSession[a] in s.sessions && s.sessions[s.accountToSession[a]].account == a)
  }

  ghost predicate Lists(s: Store, b: BrowserId, a: AccountId) {
    b in s.browsers && a in s.browsers[b]
  }

  ghost predicate Owns(s: Store, b: BrowserId, a: AccountId) {
    a in s.accountToBrowser && s.accountToBrowser[a] == b
  }

  /** The reverse index is exactly membership in a browser's list, without repetitions. */
  ghost predicate OwnersMatch(s: Store) {
    && s.accountToBrowser.Keys == s.accountToSession.Keys
    && (forall b, a :: Lists(s, b, a) <==> Owns(s, b, a))
    && (forall b :: b in s.browsers ==> NoDuplicates(s.browsers[b]))
  }

  ghost predicate Inv(s: Store) {
    TokensMatch(s) && OwnersMatch(s)
  }

  datatype Issue =
    | OtherToken(account: AccountId, mapped: Token, token: Token)
    | Unmapped(token: Token, account: AccountId)
    | MissingSession(account: AccountId, token: Token)
    | UnknownListed(browser: BrowserId, account: AccountId)
    | UnknownOwned(account: AccountId)
    | MissingBrowser(account: AccountId, browser: BrowserId)

  class Sessions {
    var sessions: map<Token, Session>
    var browsers: map<BrowserId, seq<AccountId>>
    var accountToSession: map<AccountId, Token>
    var accountToBrowser: map<AccountId, BrowserId>
    const timeout: nat

    ghost function Contents(): Store
      reads this
    {
      Store(sessions, browsers, accountToSession, accountToBrowser, timeout)
    }

    constructor (timeout: nat)
      ensures Contents() == Store(map[], map[], map[], map[], timeout)
    {
      sessions, browsers, accountToSession, accountToBrowser := map[], map[], map[], map[];
      this.timeout := timeout;
    }

    /** `id` is the freshly generated browser id. */
    method CreateBrowser(id: BrowserId)
      modifies this
      ensures Contents() == WithBrowser(old(Contents()), id)
    {
      browsers := browsers[id := []];
    }

    /** `token` and `account` are freshly generated. */
    method AddAccountToBrowser(browser: BrowserId, token: Token, account: AccountId, profile: string, now: int)
      modifies this
      ensures Contents() == WithAccount(old(Contents()), browser, token, account, profile, now)
      ensures token in sessions && sessions[token] == Session(account, profile, now, None)
      ensures account in accountToSession && accountToSession[account] == token
      ensures account in accountToBrowser && accountToBrowser[account] == browser
      ensures browser in browsers && browsers[browser] ==
                if browser in old(browsers) then old(browsers)[browser] + [account] else [account]
    {
      sessions := sessions[token := Session(account, profile, now, None)];
      accountToSession := accountToSession[account := token];
      accountToBrowser := accountToBrowser[account := browser];
      var listed := if browser in browsers then browsers[browser] else [];
      browsers := browsers[browser := listed + [account]];
    }

    method EvictAccount(account: AccountId)
      modifies this
      ensures Contents() == Evicted(old(Contents()), {account})
      ensures account !in accountToSession && account !in accountToBrowser && sessions == old(sessions)
      ensures forall b :: b in browsers <==> b in old(browsers) && exists a :: a in old(browsers)[b] && a != account
      ensures forall b, a :: b in browsers ==> (a in browsers[b] <==> a in old(browsers)[b] && a != account)
    {
      forall b | b in browsers
        ensures Without(browsers[b], {account}) != [] <==> exists a :: a in browsers[b] && a != account
      {
        NotEmptyIff(Without(browsers[b], {account}));
      }
      accountToSession := accountToSession - {account};
      accountToBrowser := accountToBrowser - {account};
      browsers := map b | b in browsers && Without(browsers[b], {account}) != [] :: Without(browsers[b], {account});
    }

    method Get(token: Token, now: int) returns (session: Option<Session>)
      modifies this
      ensures Contents() == AfterGet(old(Contents()), token, now)
      ensures session == Got(old(Contents()), token, now)
      ensures session.Some? <==>
              && token in old(sessions)
              && var entry := old(sessions)[token];
                 now - entry.lastAccessed <=
                   match entry.timeoutOverride case Some(limit) => limit case None => timeout
      ensures if session.Some? then
                sessions == old(sessions)[token := session.value] &&
                session.value == old(sessions)[token].(lastAccessed := now)
              else sessions == old(sessions) - {token}
    {
      if token !in sessions {
        return None;
      }
      var entry := sessions[token];
      var effective := if entry.timeoutOverride.Some? then entry.timeoutOverride.value else timeout;
      if now - entry.lastAccessed > effective {
        sessions := sessions - {token};
        EvictAccount(entry.account);
        return None;
      }
      sessions := sessions[token := entry.(lastAccessed := now)];
      return Some(sessions[token]);
    }

    method GetAccountSession(browser: BrowserId, account: AccountId, token: Token, now: int)
      returns (session: Option<Session>)
      modifies this
      ensures var granted := Grants(old(Contents()), browser, account, token);
              && Contents() == (if granted then AfterGet(old(Contents()), token, now) else old(Contents()))
              && session == (if granted then Got(old(Contents()), token, now) else None)
    {
      if browser !in browsers || account !in browsers[browser] {
        return None;
      }
      if account !in accountToSession || accountToSession[account] != token {
        return None;
      }
      session := Get(token, now);
    }

    method RemoveAccount(account: AccountId) returns (removed: bool)
      modifies this
      ensures Contents() == WithoutAccount(old(Contents()), account)
      ensures removed <==> account in old(accountToSession)
      ensures removed ==>
                && sessions == old(sessions) - {old(accountToSession)[account]}
                && accountToSession == old(accountToSession) - {account}
                && accountToBrowser == old(accountToBrowser) - {account}
                && browsers.Keys == old(browsers).Keys
      ensures removed ==> forall b :: b in browsers ==>
                browsers[b] == if account in old(accountToBrowser) && old(accountToBrowser)[account] == b
                               then WithoutFirst(old(browsers)[b], account) else old(browsers)[b]
      ensures !removed ==> Contents() == old(Contents())
    {
      if account !in accountToSession {
        return false;
      }
      var token := accountToSession[account];
      accountToSession := accountToSession - {account};
      sessions := sessions - {token};
      if account in accountToBrowser {
        var browser := accountToBrowser[account];
        accountToBrowser := accountToBrowser - {account};
        if browser in browsers {
          var list := browsers[browser];
          var pos := 0;
          while pos < |list| && list[pos] != account
            invariant 0 <= pos <= |list| && account !in list[..pos]
          {
            pos := pos + 1;
          }
          WithoutFirstAt(list, account, pos);
          if pos < |list| {
            browsers := browsers[browser := list[..pos] + list[pos + 1..]];
          } else {
            assert browsers[browser := list] == browsers;
          }
        }
      } else {
        assert accountToBrowser - {account} == accountToBrowser;
      }
      return true;
    }

    method RemoveBrowser(browser: BrowserId)
      modifies this
      ensures Contents() == WithoutBrowser(old(Contents()), browser)
      ensures browsers == old(browsers) - {browser}
      ensures browser in old(browsers) ==> forall a :: a in old(browsers)[browser] ==>
                && a !in accountToSession && a !in accountToBrowser
                && (a in old(accountToSession) ==> old(accountToSession)[a] !in sessions)
      ensures browser in old(browsers) ==> forall a :: a !in old(browsers)[browser] ==>
                && (a in accountToSession <==> a in old(accountToSession))
                && (a in accountToBrowser <==> a in old(accountToBrowser))
      ensures browser !in old(browsers) ==> Contents() == old(Contents())
    {
      if browser in browsers {
        DroppedAreGone(Contents().(browsers := browsers - {browser}), browsers[browser]);
      }
      if browser in browsers {
        var accounts := browsers[browser];
        browsers := browsers - {browser};
        ghost var target := DropAccounts(Contents(), accounts);
        for n := 0 to |accounts|
          invariant browsers == old(browsers) - {browser}
          invariant DropAccounts(Contents(), accounts[n..]) == target
        {
          var account := accounts[n];
          assert accounts[n..][0] == account && accounts[n..][1..] == accounts[n + 1..];
          accountToBrowser := accountToBrowser - {account};
          if account in accountToSession {
            var token := accountToSession[account];
            accountToSession := accountToSession - {account};
            sessions := sessions - {token};
          }
        }
      }
    }

    method PurgeExpired(now: int)
      modifies this
      ensures Contents() == Purged(old(Contents()), now)
      ensures forall t :: t in sessions <==>
                && t in old(sessions)
                && var entry := old(sessions)[t];
                   now - entry.lastAccessed <=
                     match entry.timeoutOverride case Some(limit) => limit case None => timeout
      ensures forall t :: t in sessions ==> sessions[t] == old(sessions)[t]
    {
      hide Evicted;
      ghost var before := Contents();
      var expired := set t | t in sessions && Expires(sessions[t], now) :: sessions[t].account;
      sessions := map t | t in sessions && !Expires(sessions[t], now) :: sessions[t];
      ghost var alive := Contents();
      assert expired == ExpiredAccounts(before, now);
      assert alive.sessions == map t | t in before.sessions && !Expired(before, before.sessions[t], now)
                                 :: before.sessions[t];
      assert Purged(before, now) == if expired == {} then alive else Evicted(alive, expired);
      ghost var done: set<AccountId> := {};
      var todo := expired;
      while todo != {}
        invariant todo <= expired && done == expired - todo && sessions == alive.sessions
        invariant Contents() == if done == {} then alive else Evicted(alive, done)
      {
        var account :| account in todo;
        EvictOneMore(alive, done, account);
        assert done == {} ==> done + {account} == {account};
        EvictAccount(account);
        todo := todo - {account};
        done := done + {account};
      }
      assert done == expired;
    }

    predicate Expires(session: Session, now: int)
      reads this
    {
      now - session.lastAccessed > if session.timeoutOverride.Some? then session.timeoutOverride.value else timeout
    }

    /** The diagnostic: it reports nothing exactly when the maps agree. */
    method CheckConsistency() returns (issues: seq<Issue>)
      ensures issues == [] <==> Consistent(Contents())
      ensures issues == [] <==>
                && (forall t :: t in sessions ==>
                      sessions[t].account in accountToSession && accountToSession[sessions[t].account] == t)
                && (forall a :: a in accountToSession ==> accountToSession[a] in sessions)
                && (forall b, a :: b in browsers && a in browsers[b] ==> a in accountToSession)
                && (forall a :: a in accountToBrowser ==> a in accountToSession && accountToBrowser[a] in browsers)
    {
      issues := [];
      var tokens := sessions.Keys;
      while tokens != {}
        invariant tokens <= sessions.Keys
        invariant issues == [] <==> forall t :: t in sessions && t !in tokens ==>
          sessions[t].account in accountToSession && accountToSession[sessions[t].account] == t
      {
        var t :| t in tokens;
        tokens := tokens - {t};
        var account := sessions[t].account;
        if account in accountToSession {
          if accountToSession[account] != t {
            issues := issues + [OtherToken(account, accountToSession[account], t)];
          }
        } else {
          issues := issues + [Unmapped(t, account)];
        }
      }
      ghost var first := issues == [];
      var accounts := accountToSession.Keys;
      while accounts != {}
        invariant accounts <= accountToSession.Keys
        invariant issues == [] <==>
          first && forall a :: a in accountToSession && a !in accounts ==> accountToSession[a] in sessions
      {
        var a :| a in accounts;
        accounts := accounts - {a};
        if accountToSession[a] !in sessions {
          issues := issues + [MissingSession(a, accountToSession[a])];
        }
      }
      ghost var second := issues == [];
      var ids := browsers.Keys;
      while ids != {}
        invariant ids <= browsers.Keys
        invariant issues == [] <==>
          second && forall b, a :: b in browsers && b !in ids && a in browsers[b] ==> a in accountToSession
      {
        var b :| b in ids;
        ids := ids - {b};
        ghost var before := issues == [];
        for n := 0 to |browsers[b]|
          invariant issues == [] <==> before && forall i :: 0 <= i < n ==> browsers[b][i] in accountToSession
        {
          if browsers[b][n] !in accountToSession {
            issues := issues + [UnknownListed(b, browsers[b][n])];
          }
        }
      }
      ghost var third := issues == [];
      var owned := accountToBrowser.Keys;
      while owned != {}
        invariant owned <= accountToBrowser.Keys
        invariant issues == [] <==>
          third && forall a :: a in accountToBrowser && a !in owned ==>
            a in accountToSession && accountToBrowser[a] in browsers
      {
        var a :| a in owned;
        owned := owned - {a};
        if a !in accountToSession {
          issues := issues + [UnknownOwned(a)];
        }
        if accountToBrowser[a] !in browsers {
          issues := issues + [MissingBrowser(a, accountToBrowser[a])];
        }
      }
    }
  }

  lemma NotEmptyIff(list: seq<AccountId>)
    ensures list != [] <==> exists a :: a in list
  {
    if list != [] {
      assert list[0] in list;
    }
  }

  /** Dropping accounts leaves no trace of them, and keeps the others. */
  lemma {:induction false} DroppedAreGone(s: Store, accounts: seq<AccountId>)
    ensures var r := DropAccounts(s, accounts);
            && r.browsers == s.browsers
            && r.sessions.Keys <= s.sessions.Keys && r.accountToSession.Keys <= s.accountToSession.Keys
            && r.accountToBrowser.Keys <= s.accountToBrowser.Keys
            && (forall a :: a in r.accountToSession ==> r.accountToSession[a] == s.accountToSession[a])
            && (forall a :: a !in accounts ==>
                 && (a in r.accountToSession <==> a in s.accountToSession)
                 && (a in r.accountToBrowser <==> a in s.accountToBrowser))
            && forall a :: a in accounts ==>
                 && a !in r.accountToSession && a !in r.accountToBrowser
                 && (a in s.accountToSession ==> s.accountToSession[a] !in r.sessions)
    decreases accounts
  {
    if accounts != [] {
      var a := accounts[0];
      var s' := s.(accountToBrowser := s.accountToBrowser - {a});
      var s'' := if a in s.accountToSession then
        s'.(sessions := s.sessions - {s.accountToSession[a]}, accountToSession := s.accountToSession - {a}) else s';
      DroppedAreGone(s'', accounts[1..]);
      assert forall x :: x in accounts ==> x == a || x in accounts[1..];
    }
  }

  lemma {:induction false} WithoutFirstAt(list: seq<AccountId>, a: AccountId, pos: nat)
    requires pos <= |list| && a !in list[..pos] && (pos < |list| ==> list[pos] == a)
    ensures WithoutFirst(list, a) == if pos < |list| then list[..pos] + list[pos + 1..] else list
  {
    if pos > 0 {
      assert list[0] in list[..pos];
      assert list[1..][..pos - 1] == list[..pos][1..];
      WithoutFirstAt(list[1..], a, pos - 1);
    }
  }

  lemma {:induction false} WithoutTwice(list: seq<AccountId>, gone: set<AccountId>, a: AccountId)
    ensures Without(Without(list, gone), {a}) == Without(list, gone + {a})
  {
    if list != [] {
      WithoutTwice(list[1..], gone, a);
      var kept := Without(list[1..], gone);
      assert list[0] !in gone ==> ([list[0]] + kept)[1..] == kept && ([list[0]] + kept)[0] == list[0];
    }
  }

  /** Evicting accounts one after another is evicting them together. */
  lemma EvictOneMore(s: Store, gone: set<AccountId>, a: AccountId)
    ensures Evicted(Evicted(s, gone), {a}) == Evicted(s, gone + {a})
  {
    var x, y := Evicted(Evicted(s, gone), {a}), Evicted(s, gone + {a});
    assert x.accountToSession == y.accountToSession;
    assert x.accountToBrowser == y.accountToBrowser;
    forall b | b in s.browsers
      ensures b in x.browsers <==> b in y.browsers
      ensures b in y.browsers ==> x.browsers[b] == y.browsers[b]
    {
      WithoutTwice(s.browsers[b], gone, a);
      if Without(s.browsers[b], gone + {a}) != [] {
        assert Without(s.browsers[b], gone + {a})[0] in Without(s.browsers[b], gone);
      }
    }
    assert x.browsers == y.browsers;
  }
}
