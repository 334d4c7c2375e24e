/** The per-user database pools: a timestamp map with LRU and idle eviction. */
module PoolManager {
  import opened Wrappers

  type User = string

  /** Open pools with the time of their last access. */
  type Pools = map<User, int>

  // ----- Operations, as functions and relations on the map -----

  predicate IsLeastRecent(pools: Pools, user: User) {
    user in pools && forall other :: other in pools ==> pools[user] <= pools[other]
  }

  /** `victim` is what making room for one more user removes. */
  predicate IsVictim(pools: Pools, maxUsers: nat, victim: Option<User>) {
    if |pools| >= maxUsers && pools != map[] then victim.Some? && IsLeastRecent(pools, victim.value)
    else victim == None
  }

  function WithoutVictim(pools: Pools, victim: Option<User>): Pools {
    if victim.Some? then pools - {victim.value} else pools
  }

  /** Pools still fresh when the sweep reads the clock for each of them. */
  function Swept(pools: Pools, idleTimeout: nat, readings: map<User, int>): Pools
    requires pools.Keys <= readings.Keys
  {
    map u | u in pools && readings[u] - pools[u] < idleTimeout :: pools[u]
  }

  class DbPoolManager {
    const maxUsers: nat
    const idleTimeout: nat
    var pools: Pools

    constructor (maxUsers: nat, idleTimeout: nat)
      ensures pools == map[] && this.maxUsers == maxUsers && this.idleTimeout == idleTimeout
    {
      pools := map[];
      this.maxUsers, this.idleTimeout := maxUsers, idleTimeout;
    }

    method LeastRecent() returns (user: Option<User>)
      ensures if pools == map[] then user == None else user.Some? && IsLeastRecent(pools, user.value)
    {
      user := None;
      var todo := pools.Keys;
      while todo != {}
        invariant todo <= pools.Keys
        invariant user == None ==> todo == pools.Keys
        invariant user.Some? ==> user.value in pools
        invariant forall other :: user.Some? && other in pools && other !in todo ==> pools[user.value] <= pools[other]
      {
        var u :| u in todo;
        todo := todo - {u};
        if user == None || pools[u] < pools[user.value] {
          user := Some(u);
        }
      }
      assert user == None ==> pools.Keys == {};
    }

    /** A hit refreshes the entry. A miss first makes room, and keeps the room made when opening the pool fails. */
    method GetPool(user: User, now: int, opens: bool) returns (ok: bool, ghost victim: Option<User>)
      modifies this
      ensures ok <==> user in old(pools) || opens
      ensures user in old(pools) ==> victim == None && pools == old(pools)[user := now]
      ensures |old(pools)| < maxUsers ==> victim == None
      ensures user !in old(pools) && |old(pools)| >= maxUsers && old(pools) != map[] ==>
                victim.Some? && victim.value in old(pools) && victim.value !in pools &&
                forall other :: other in old(pools) ==> old(pools)[victim.value] <= old(pools)[other]
      ensures user !in old(pools) ==>
                IsVictim(old(pools), maxUsers, victim) &&
                pools == if opens then WithoutVictim(old(pools), victim)[user := now]
                         else WithoutVictim(old(pools), victim)
    {
      victim := None;
      if user in pools {
        pools := pools[user := now];
        return true, victim;
      }
      if |pools| >= maxUsers {
        var lru := LeastRecent();
        if lru.Some? {
          pools := pools - {lru.value};
        }
        victim := lru;
      }
      if !opens {
        return false, victim;
      }
      pools := pools[user := now];
      return true, victim;
    }

    /** `readings` holds the clock reading made for each entry. */
    method EvictIdle(readings: map<User, int>)
      requires pools.Keys <= readings.Keys
      modifies this
      ensures pools == Swept(old(pools), idleTimeout, readings)
      ensures forall u :: u in pools ==> u in old(pools) && pools[u] == old(pools)[u]
      ensures forall u :: u in old(pools) ==> (u !in pools <==> idleTimeout <= readings[u] - old(pools)[u])
    {
      pools := map u | u in pools && readings[u] - pools[u] < idleTimeout :: pools[u];
    }
  }

  // ----- The recency list -----

  /** All users ever served, each once, the most recent first. */
  type Recency = seq<User>

  function Drop(recent: Recency, user: User): (r: Recency)
    ensures forall x :: x in r <==> x in recent && x != user
  {
    if recent == [] then []
    else if recent[0] == user then Drop(recent[1..], user)
    else [recent[0]] + Drop(recent[1..], user)
  }

  /** Move a user to the front. */
  function Touched(recent: Recency, user: User): Recency {
    [user] + Drop(recent, user)
  }

  function Members(recent: Recency): set<User> {
    set u | u in recent
  }

  /** The open pools are the `n` most recently used users. */
  ghost predicate AreMostRecent(pools: Pools, recent: Recency, n: nat) {
    n <= |recent| && pools.Keys == Members(recent[..n])
  }

  function Capacity(maxUsers: nat): nat {
    if maxUsers < 1 then 1 else maxUsers
  }

  // ----- Sweeps -----

  /** The clock readings of one sweep, which starts at `start` and ends at `end`. */
  predicate InWindow(pools: Pools, readings: map<User, int>, start: int, end: int) {
    pools.Keys <= readings.Keys && forall u :: u in pools ==> start <= readings[u] <= end
  }

  /** Keeping a pool keeps every pool used more recently. */
  ghost predicate KeepsRecent(pools: Pools, kept: Pools) {
    forall a, b :: a in kept && a in pools && b in pools && pools[a] < pools[b] ==> b in kept
  }

  /** The older pool is still fresh when the sweep starts, the newer one idle when it ends. */
  predicate Crosses(pools: Pools, idleTimeout: nat, start: int, end: int, older: User, newer: User) {
    && older in pools && newer in pools && pools[older] < pools[newer]
    && start - pools[older] < idleTimeout <= end - pools[newer]
  }

  /**
    The sweep reads the clock once per entry. Whatever the readings, it keeps the most recent pools, exactly
    when no two pools time out one after the other while it runs.
   */
  lemma SweepKeepsRecentIff(pools: Pools, idleTimeout: nat, start: int, end: int)
    requires start <= end
    ensures (forall readings :: InWindow(pools, readings, start, end) ==>
                                  KeepsRecent(pools, Swept(pools, idleTimeout, readings)))
            <==> !exists older, newer :: Crosses(pools, idleTimeout, start, end, older, newer)
  {
    if older, newer :| Crosses(pools, idleTimeout, start, end, older, newer) {
      var readings := map u | u in pools :: if u == older then start else end;
      assert InWindow(pools, readings, start, end);
      var kept := Swept(pools, idleTimeout, readings);
      assert older in kept && newer !in kept;
      assert !KeepsRecent(pools, kept);
    } else {
      forall readings | InWindow(pools, readings, start, end)
        ensures KeepsRecent(pools, Swept(pools, idleTimeout, readings))
      {
        var kept := Swept(pools, idleTimeout, readings);
        forall a, b | a in kept && b in pools && pools[a] < pools[b] ensures b in kept {
          assert !Crosses(pools, idleTimeout, start, end, a, b);
        }
      }
    }
  }

  // ----- Runs -----

  datatype Op =
    | Serve(user: User, opens: bool, victim: Option<User>)
    | Sweep(readings: map<User, int>, end: int)

  /** Besides the open pools: when each user was last served, as a map and as a list moved to the front on use. */
  datatype World = World(pools: Pools, lastUse: map<User, int>, recent: Recency, clock: int)

  ghost predicate Serves(w: World, user: User, opens: bool, victim: Option<User>, now: int, maxUsers: nat, w': World) {
    if user in w.pools then
      w' == World(w.pools[user := now], w.lastUse[user := now], Touched(w.recent, user), now)
    else
      && IsVictim(w.pools, maxUsers, victim)
      && var room := WithoutVictim(w.pools, victim);
         w' == if opens then World(room[user := now], w.lastUse[user := now], Touched(w.recent, user), now)
               else World(room, w.lastUse, w.recent, now)
  }

  ghost predicate Sweeps(w: World, readings: map<User, int>, now: int, end: int, idleTimeout: nat, w': World) {
    && now <= end && InWindow(w.pools, readings, now, end)
    && w' == w.(pools := Swept(w.pools, idleTimeout, readings), clock := end)
  }

  /** One operation at time `now`; access times strictly increase. */
  ghost predicate Steps(w: World, op: Op, now: int, maxUsers: nat, idleTimeout: nat, w': World) {
    w.clock < now &&
    match op
    case Serve(user, opens, victim) => Serves(w, user, opens, victim, now, maxUsers, w')
    case Sweep(readings, end) => Sweeps(w, readings, now, end, idleTimeout, w')
  }

  /** Times of last use fall along the list. */
  ghost predicate FallsAlong(recent: Recency, lastUse: map<User, int>) {
    && (forall u :: u in recent ==> u in lastUse)
    && (forall i, j :: 0 <= i < j < |recent| ==> lastUse[recent[j]] < lastUse[recent[i]])
  }

  /** The list holds the users of the map, each once, by falling time. */
  ghost predicate ListsByTime(recent: Recency, lastUse: map<User, int>) {
    FallsAlong(recent, lastUse) && forall u :: u in lastUse ==> u in recent
  }

  ghost predicate Inv(w: World, maxUsers: nat) {
    && ListsByTime(w.recent, w.lastUse)
    && (forall u :: u in w.lastUse ==> w.lastUse[u] <= w.clock)
    && (forall u :: u in w.pools ==> u in w.lastUse && w.pools[u] == w.lastUse[u])
    && (forall a, b :: a in w.pools && b in w.lastUse && w.lastUse[a] < w.lastUse[b] ==> b in w.pools)
    && |w.pools| <= Capacity(maxUsers)
  }

  lemma {:induction false} DropKeepsOrder(recent: Recency, lastUse: map<User, int>, user: User)
    requires FallsAlong(recent, lastUse)
    ensures FallsAlong(Drop(recent, user), lastUse)
  {
    if recent != [] {
      var rest := recent[1..];
      assert forall i :: 0 <= i < |rest| ==> rest[i] == recent[i + 1];
      DropKeepsOrder(rest, lastUse, user);
      forall x | x in Drop(rest, user) ensures lastUse[x] < lastUse[recent[0]] {
        assert x in rest;
      }
    }
  }

  lemma TouchedListsByTime(recent: Recency, lastUse: map<User, int>, user: User, now: int)
    requires ListsByTime(recent, lastUse) && forall u :: u in lastUse ==> lastUse[u] < now
    ensures ListsByTime(Touched(recent, user), lastUse[user := now])
  {
    var d, after := Drop(recent, user), lastUse[user := now];
    DropKeepsOrder(recent, lastUse, user);
    assert FallsAlong(d, after) by {
      assert forall i :: 0 <= i < |d| ==> d[i] in d;
    }
    FrontFalls(d, after, user);
  }

  lemma FrontFalls(d: Recency, lastUse: map<User, int>, user: User)
    requires FallsAlong(d, lastUse) && user in lastUse && forall u :: u in d ==> lastUse[u] < lastUse[user]
    ensures FallsAlong([user] + d, lastUse)
  {
    var t := [user] + d;
    assert t[0] == user && t[1..] == d;
    forall i, j | 0 <= i < j < |t| ensures lastUse[t[j]] < lastUse[t[i]] {
      assert t[j] == d[j - 1] && d[j - 1] in d;
      assert i > 0 ==> t[i] == d[i - 1];
    }
  }

  lemma RoomFacts(w: World, maxUsers: nat, victim: Option<User>)
    requires Inv(w, maxUsers) && IsVictim(w.pools, maxUsers, victim)
    ensures var room := WithoutVictim(w.pools, victim);
            |room| < Capacity(maxUsers) && Inv(w.(pools := room), maxUsers)
  {
    if victim.Some? {
      var room := w.pools - {victim.value};
      assert w.pools.Keys == room.Keys + {victim.value};
      assert |room.Keys| == |w.pools.Keys| - 1;
      assert |room| == |w.pools| - 1;
    }
  }

  lemma SameCount(a: Pools, b: Pools)
    requires a.Keys == b.Keys
    ensures |a| == |b|
  {
    assert |a.Keys| == |a| && |b.Keys| == |b|;
  }

  lemma OneMore(pools: Pools, user: User, now: int)
    requires user !in pools
    ensures |pools[user := now]| == |pools| + 1
  {
    assert pools[user := now].Keys == pools.Keys + {user};
    assert |pools[user := now].Keys| == |pools[user := now]| && |pools.Keys| == |pools|;
  }

  /** Serving a user whose pool fits. */
  lemma UseKeepsInv(w: World, user: User, now: int, maxUsers: nat)
    requires Inv(w, maxUsers) && w.clock < now
    requires user in w.pools || |w.pools| < Capacity(maxUsers)
    ensures Inv(World(w.pools[user := now], w.lastUse[user := now], Touched(w.recent, user), now), maxUsers)
  {
    hide ListsByTime, Touched;
    TouchedListsByTime(w.recent, w.lastUse, user, now);
    if user in w.pools {
      assert w.pools[user := now].Keys == w.pools.Keys;
      SameCount(w.pools[user := now], w.pools);
    } else {
      OneMore(w.pools, user, now);
    }
  }

  lemma ServeKeepsInv(
    w: World, user: User, opens: bool, victim: Option<User>, now: int, maxUsers: nat, w': World)
    requires Inv(w, maxUsers) && w.clock < now && Serves(w, user, opens, victim, now, maxUsers, w')
    ensures Inv(w', maxUsers)
  {
    hide ListsByTime, Touched;
    if user in w.pools {
      UseKeepsInv(w, user, now, maxUsers);
    } else {
      RoomFacts(w, maxUsers, victim);
      if opens {
        UseKeepsInv(w.(pools := WithoutVictim(w.pools, victim)), user, now, maxUsers);
      }
    }
  }

  lemma {:induction false} FewerKeys(small: Pools, large: Pools)
    requires small.Keys <= large.Keys
    ensures |small| <= |large|
  {
    if small != map[] {
      var u :| u in small;
      assert (small - {u}).Keys == small.Keys - {u} && (large - {u}).Keys == large.Keys - {u};
      assert |small.Keys| == |small| && |large.Keys| == |large|;
      assert |(small - {u}).Keys| == |small - {u}| && |(large - {u}).Keys| == |large - {u}|;
      FewerKeys(small - {u}, large - {u});
    }
  }

  lemma SweepKeepsInv(
    w: World, readings: map<User, int>, now: int, end: int, maxUsers: nat, idleTimeout: nat, w': World)
    requires Inv(w, maxUsers) && w.clock < now && Sweeps(w, readings, now, end, idleTimeout, w')
    requires forall a, b :: !Crosses(w.pools, idleTimeout, now, end, a, b)
    ensures Inv(w', maxUsers)
  {
    SweepKeepsRecentIff(w.pools, idleTimeout, now, end);
    assert KeepsRecent(w.pools, w'.pools);
    FewerKeys(w'.pools, w.pools);
  }

  lemma {:induction false} MemberCount(recent: Recency, lastUse: map<User, int>)
    requires FallsAlong(recent, lastUse)
    ensures |Members(recent)| == |recent|
  {
    if recent != [] {
      var rest := recent[1..];
      assert forall i :: 0 <= i < |rest| ==> rest[i] == recent[i + 1];
      MemberCount(rest, lastUse);
      forall i | 0 <= i < |rest| ensures rest[i] != recent[0] {
        assert lastUse[recent[i + 1]] < lastUse[recent[0]];
      }
      assert Members(recent) == Members(rest) + {recent[0]};
    }
  }

  ghost predicate ClosedUnderUse(pools: set<User>, recent: Recency, lastUse: map<User, int>)
    requires FallsAlong(recent, lastUse) && pools <= Members(recent)
  {
    forall a, b :: a in pools && b in recent && lastUse[a] < lastUse[b] ==> b in pools
  }

  lemma SplitLast(recent: Recency, lastUse: map<User, int>)
    requires recent != [] && FallsAlong(recent, lastUse)
    ensures var before, last := recent[..|recent| - 1], recent[|recent| - 1];
            && FallsAlong(before, lastUse) && Members(recent) == Members(before) + {last}
            && forall u :: u in before ==> u in recent && lastUse[last] < lastUse[u]
  {
    var n := |recent| - 1;
    assert recent == recent[..n] + [recent[n]];
    forall u | u in recent[..n] ensures lastUse[recent[n]] < lastUse[u] {
      var i :| 0 <= i < n && recent[..n][i] == u;
      assert recent[i] == u;
    }
  }

  /** Pools closed under more recent use are a prefix of the list. */
  lemma {:induction false} ClosedIsPrefix(pools: set<User>, recent: Recency, lastUse: map<User, int>) returns (m: nat)
    requires FallsAlong(recent, lastUse) && pools <= Members(recent)
    requires ClosedUnderUse(pools, recent, lastUse)
    ensures m <= |recent| && pools == Members(recent[..m])
  {
    if recent == [] {
      m := 0;
    } else {
      var n := |recent| - 1;
      var before, last := recent[..n], recent[n];
      SplitLast(recent, lastUse);
      if last in pools {
        m := |recent|;
        assert recent[..m] == recent;
        assert forall u :: u in before ==> u in pools;
      } else {
        m := ClosedIsPrefix(pools, before, lastUse);
        assert recent[..m] == before[..m];
      }
    }
  }

  lemma InvMeansMostRecent(w: World, maxUsers: nat)
    requires Inv(w, maxUsers)
    ensures AreMostRecent(w.pools, w.recent, |w.pools|)
  {
    var m := ClosedIsPrefix(w.pools.Keys, w.recent, w.lastUse);
    var prefix := w.recent[..m];
    assert FallsAlong(prefix, w.lastUse);
    MemberCount(prefix, w.lastUse);
    assert |w.pools.Keys| == |w.pools|;
  }

  /** An operation and the time it starts. */
  datatype Timed = Timed(op: Op, at: int)

  /** A run from no open pools, with any hits, misses and sweeps. */
  ghost predicate IsRun(run: seq<World>, ops: seq<Timed>, maxUsers: nat, idleTimeout: nat) {
    && |run| == |ops| + 1 && run[0] == World(map[], map[], [], run[0].clock)
    && forall i, j :: 0 <= i && j == i + 1 < |run| ==>
         Steps(run[i], ops[i].op, ops[i].at, maxUsers, idleTimeout, run[j])
  }

  /** No sweep lasts so long that an older pool is still fresh at its start while a newer one is idle at its end. */
  ghost predicate NoSweepCrosses(run: seq<World>, ops: seq<Timed>, idleTimeout: nat)
    requires |run| == |ops| + 1
  {
    forall i, a, b :: 0 <= i < |ops| && ops[i].op.Sweep? ==>
      !Crosses(run[i].pools, idleTimeout, ops[i].at, ops[i].op.end, a, b)
  }

  lemma StepKeepsInv(w: World, op: Op, now: int, maxUsers: nat, idleTimeout: nat, w': World)
    requires Inv(w, maxUsers) && Steps(w, op, now, maxUsers, idleTimeout, w')
    requires op.Sweep? ==> forall a, b :: !Crosses(w.pools, idleTimeout, now, op.end, a, b)
    ensures Inv(w', maxUsers)
  {
    match op
    case Serve(user, opens, victim) => ServeKeepsInv(w, user, opens, victim, now, maxUsers, w');
    case Sweep(readings, end) => SweepKeepsInv(w, readings, now, end, maxUsers, idleTimeout, w');
  }

  lemma {:induction false} RunKeepsInv(run: seq<World>, ops: seq<Timed>, maxUsers: nat, idleTimeout: nat, i: nat)
    requires IsRun(run, ops, maxUsers, idleTimeout) && NoSweepCrosses(run, ops, idleTimeout) && i < |run|
    ensures Inv(run[i], maxUsers)
  {
    if i > 0 {
      hide Inv, Steps, Crosses;
      RunKeepsInv(run, ops, maxUsers, idleTimeout, i - 1);
      StepKeepsInv(run[i - 1], ops[i - 1].op, ops[i - 1].at, maxUsers, idleTimeout, run[i]);
    }
  }

  /**
    Over every run in which no sweep crosses, the open pools are exactly the n most recently used users, for some n up
    to the limit.
   */
  lemma OpenPoolsAreMostRecent(run: seq<World>, ops: seq<Timed>, maxUsers: nat, idleTimeout: nat, i: nat)
    requires IsRun(run, ops, maxUsers, idleTimeout) && NoSweepCrosses(run, ops, idleTimeout) && i < |run|
    ensures exists n ::
              && 0 <= n <= (if maxUsers < 1 then 1 else maxUsers)
              && AreMostRecent(run[i].pools, run[i].recent, n)
  {
    RunKeepsInv(run, ops, maxUsers, idleTimeout, i);
    assert |run[i].pools| <= Capacity(maxUsers);
    InvMeansMostRecent(run[i], maxUsers);
  }

  // ----- Runs in which every pool opens and nothing is swept -----

  ghost predicate OnlyOpens(ops: seq<Timed>) {
    forall i :: 0 <= i < |ops| ==> ops[i].op.Serve? && ops[i].op.opens
  }

  /** As many pools are open as fit, or one for every user served. */
  predicate Filled(w: World, maxUsers: nat) {
    |w.pools| == if |w.recent| < Capacity(maxUsers) then |w.recent| else Capacity(maxUsers)
  }

  lemma {:induction false} FewerMembers(a: set<User>, b: set<User>)
    requires a <= b
    ensures |a| <= |b|
  {
    if a != {} {
      var u :| u in a;
      FewerMembers(a - {u}, b - {u});
    }
  }

  lemma TouchedMembers(recent: Recency, user: User)
    ensures Members(Touched(recent, user)) == Members(recent) + {user}
  {
  }

  lemma OneMoreMember(members: set<User>, user: User)
    ensures |members + {user}| == |members| + if user in members then 0 else 1
  {
    if user in members {
      assert members + {user} == members;
    }
  }

  lemma RecentCount(w: World, user: User, maxUsers: nat)
    requires ListsByTime(w.recent, w.lastUse) && forall u :: u in w.lastUse ==> w.lastUse[u] <= w.clock
    ensures |Touched(w.recent, user)| == |w.recent| + if user in w.recent then 0 else 1
  {
    TouchedListsByTime(w.recent, w.lastUse, user, w.clock + 1);
    TouchedMembers(w.recent, user);
    assert user in Members(w.recent) <==> user in w.recent;
    hide Touched, Members;
    MemberCount(w.recent, w.lastUse);
    MemberCount(Touched(w.recent, user), w.lastUse[user := w.clock + 1]);
    OneMoreMember(Members(w.recent), user);
  }

  /** When there are as many pools as users, every user has one. */
  lemma AllAreOpen(pools: Pools, recent: Recency, lastUse: map<User, int>, user: User)
    requires FallsAlong(recent, lastUse) && (forall u :: u in pools ==> u in recent)
    requires |pools| == |recent| && user in recent
    ensures user in pools
  {
    MemberCount(recent, lastUse);
    assert |pools.Keys| == |pools| && pools.Keys <= Members(recent);
    if user !in pools {
      FewerMembers(pools.Keys, Members(recent) - {user});
    }
  }

  lemma PoolCount(w: World, user: User, victim: Option<User>, now: int, maxUsers: nat, w': World)
    requires Serves(w, user, true, victim, now, maxUsers, w')
    ensures w'.recent == Touched(w.recent, user)
    ensures |w'.pools| == |w.pools| +
              if user in w.pools || (|w.pools| >= maxUsers && w.pools != map[]) then 0 else 1
  {
    if user in w.pools {
      SameCount(w.pools[user := now], w.pools);
    } else {
      RoomCount(w.pools, maxUsers, victim);
      OneMore(WithoutVictim(w.pools, victim), user, now);
    }
  }

  lemma ServeFills(w: World, user: User, victim: Option<User>, now: int, maxUsers: nat, w': World)
    requires Inv(w, maxUsers) && Serves(w, user, true, victim, now, maxUsers, w')
    requires Filled(w, maxUsers)
    ensures Filled(w', maxUsers)
  {
    PoolCount(w, user, victim, now, maxUsers, w');
    RecentCount(w, user, maxUsers);
    if |w.pools| == |w.recent| && user in w.recent {
      AllAreOpen(w.pools, w.recent, w.lastUse, user);
    }
    assert user in w.pools ==> user in w.recent && w.recent != [];
    assert w.pools == map[] ==> |w.pools| == 0;
    assert w.pools != map[] ==> |w.pools| > 0;
    hide Serves, Inv, Touched;
  }

  lemma RoomCount(pools: Pools, maxUsers: nat, victim: Option<User>)
    requires IsVictim(pools, maxUsers, victim)
    ensures |WithoutVictim(pools, victim)| == if |pools| >= maxUsers && pools != map[] then |pools| - 1 else |pools|
  {
    if victim.Some? {
      var room := pools - {victim.value};
      assert pools.Keys == room.Keys + {victim.value};
      assert |room.Keys| == |room| && |pools.Keys| == |pools|;
    }
  }

  /** No more is evicted than has to be: the pools of the most recent users are open, as many as fit. */
  lemma {:induction false} PoolsFillUp(run: seq<World>, ops: seq<Timed>, maxUsers: nat, idleTimeout: nat, i: nat)
    requires IsRun(run, ops, maxUsers, idleTimeout) && OnlyOpens(ops) && i < |run|
    ensures var limit := if maxUsers < 1 then 1 else maxUsers;
            AreMostRecent(run[i].pools, run[i].recent, if |run[i].recent| < limit then |run[i].recent| else limit)
    ensures Inv(run[i], maxUsers) && Filled(run[i], maxUsers)
  {
    hide Inv, Serves, AreMostRecent;
    if i > 0 {
      var op, at := ops[i - 1].op, ops[i - 1].at;
      PoolsFillUp(run, ops, maxUsers, idleTimeout, i - 1);
      assert Steps(run[i - 1], op, at, maxUsers, idleTimeout, run[i]);
      ServeKeepsInv(run[i - 1], op.user, true, op.victim, at, maxUsers, run[i]);
      ServeFills(run[i - 1], op.user, op.victim, at, maxUsers, run[i]);
    } else {
      NothingOpen(run[0], maxUsers);
    }
    InvMeansMostRecent(run[i], maxUsers);
  }

  lemma NothingOpen(w: World, maxUsers: nat)
    requires w == World(map[], map[], [], w.clock)
    ensures Inv(w, maxUsers) && Filled(w, maxUsers)
  {
  }

  // ----- A sweep that crosses -----

  const OLDER := "a"
  const NEWER := "b"

  /** Two users served in turn, and a sweep that looks at the older pool before it is idle, at the newer after. */
  function CrossingOps(idleTimeout: nat): seq<Timed> {
    [Timed(Serve(OLDER, true, None), 1), Timed(Serve(NEWER, true, None), 2),
     Timed(Sweep(map[OLDER := idleTimeout, NEWER := idleTimeout + 2], idleTimeout + 2), idleTimeout)]
  }

  function CrossingRun(idleTimeout: nat): seq<World> {
    var used := map[OLDER := 1, NEWER := 2];
    [World(map[], map[], [], 0),
     World(map[OLDER := 1], map[OLDER := 1], [OLDER], 1),
     World(used, used, [NEWER, OLDER], 2),
     World(map[OLDER := 1], used, [NEWER, OLDER], idleTimeout + 2)]
  }

  lemma ServesInTurn(idleTimeout: nat, maxUsers: nat)
    requires maxUsers >= 2
    ensures var run := CrossingRun(idleTimeout);
            && Serves(run[0], OLDER, true, None, 1, maxUsers, run[1])
            && Serves(run[1], NEWER, true, None, 2, maxUsers, run[2])
  {
    assert Drop([], OLDER) == [];
    assert [OLDER][0] == OLDER && [OLDER][1..] == [];
    assert Drop([OLDER], NEWER) == [OLDER] + Drop([], NEWER);
    assert map[OLDER := 1][NEWER := 2] == map[OLDER := 1, NEWER := 2];
  }

  lemma OnlyOlderIsKept(idleTimeout: nat)
    requires idleTimeout >= 3
    ensures var readings := map[OLDER := idleTimeout, NEWER := idleTimeout + 2];
            Swept(map[OLDER := 1, NEWER := 2], idleTimeout, readings) == map[OLDER := 1]
  {
  }

  /** Such a sweep is reachable; it closes the pool used last and keeps an older one. */
  lemma CrossingSweepBreaksOrder(maxUsers: nat, idleTimeout: nat)
    requires maxUsers >= 2 && idleTimeout >= 3
    ensures IsRun(CrossingRun(idleTimeout), CrossingOps(idleTimeout), maxUsers, idleTimeout)
    ensures forall n :: !AreMostRecent(CrossingRun(idleTimeout)[3].pools, CrossingRun(idleTimeout)[3].recent, n)
  {
    var run, ops := CrossingRun(idleTimeout), CrossingOps(idleTimeout);
    ServesInTurn(idleTimeout, maxUsers);
    OnlyOlderIsKept(idleTimeout);
    hide Serves, Swept, Touched;
    forall i, j | 0 <= i && j == i + 1 < |run|
      ensures Steps(run[i], ops[i].op, ops[i].at, maxUsers, idleTimeout, run[j])
    {
      assert i == 0 || i == 1 || i == 2;
    }
    forall n: nat | n <= 2 ensures Members(run[3].recent[..n]) != {OLDER} {
      assert n > 0 ==> run[3].recent[..n][0] == NEWER;
      assert NEWER != OLDER;
      assert n > 0 ==> NEWER in Members(run[3].recent[..n]);
      assert OLDER !in Members([]);
      assert n == 0 ==> run[3].recent[..n] == [];
    }
    assert run[3].pools.Keys == {OLDER};
  }
}
