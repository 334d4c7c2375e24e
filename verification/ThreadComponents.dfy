/**
  Threads are what the thread query reaches. Where every query for a known id returns exactly the messages that
  mention it, they are the connected components of the messages; on headers built by the IMAP client that fails
  only for ids that differ in letter case.
 */
module ThreadComponents {
  import opened Like
  import opened Words
  import opened Wrappers
  import opened Threads

  // ----- Headers as the IMAP client builds them -----

  /** `<...>` with no bracket, backslash or white space inside. */
  predicate IsMessageId(id: string) {
    && |id| >= 2 && id[0] == '<' && id[|id| - 1] == '>'
    && forall i :: 0 < i < |id| - 1 ==> id[i] != '<' && id[i] != '>' && id[i] != '\\' && !IsSpace(id[i])
  }

  predicate AreMessageIds(ids: seq<string>) {
    forall id :: id in ids ==> IsMessageId(id)
  }

  ghost predicate WellFormedMessage(msg: Message) {
    && (msg.messageId.Some? && msg.messageId.value != "" ==> IsMessageId(msg.messageId.value))
    && (msg.inReplyTo.Some? && msg.inReplyTo.value != "" ==> IsMessageId(msg.inReplyTo.value))
    && (msg.references.Some? ==> exists ids :: AreMessageIds(ids) && msg.references.value == JoinSpace(ids))
  }

  ghost function AllIds(table: Table): set<string> {
    set k, id | k in table && id in MessageIds(table[k]) :: id
  }

  ghost predicate WellFormedHeaders(table: Table) {
    forall k :: k in table ==> WellFormedMessage(table[k])
  }

  // ----- Substring search is token membership -----

  lemma IdHasNoSpace(id: string)
    requires IsMessageId(id)
    ensures id != "" && NoSpace(id) && '\\' !in id
  {
  }

  /** An id occurring at the head of joined ids is the first of them. */
  lemma OccurrenceAtHead(ids: seq<string>, x: string)
    requires ids != [] && AreMessageIds(ids) && IsMessageId(x)
    ensures StartsWith(JoinSpace(ids), x) <==> SameText(x, ids[0])
  {
    var s, first := JoinSpace(ids), ids[0];
    assert first in ids;
    assert s[..|first|] == first;
    if StartsWith(s, x) {
      var m := |x| - 1;
      assert SameChar(x[m], s[..|x|][m]);
      assert |x| <= |first| ==> first[m] == s[m];
      assert |first| <= |x| ==> SameChar(x[|first| - 1], s[..|x|][|first| - 1]);
    }
  }

  lemma OccurrenceStart(s: string, k: nat, x: string)
    requires k <= |s| && x != "" && StartsWith(s[k..], x)
    ensures k < |s| && SameChar(x[0], s[k])
  {
    assert SameText(x, s[k..][..|x|]);
    assert s[k..][..|x|][0] == s[k];
  }

  /** Past the first id, an occurrence lies wholly in the ids that follow. */
  lemma OccurrenceInTail(first: string, tail: string, x: string)
    requires IsMessageId(first) && IsMessageId(x)
    ensures Contains(first + " " + tail, x) <==> StartsWith(first + " " + tail, x) || Contains(tail, x)
  {
    var s, n := first + " " + tail, |first| + 1;
    assert s[0..] == s && s[..|first|] == first;
    assert forall j :: 0 < j < |first| ==> s[j] != '<';
    forall k | 0 <= k <= |tail| ensures s[n + k..] == tail[k..] {}
    if StartsWith(s, x) {
      assert StartsWith(s[0..], x);
    }
    if k :| 0 <= k <= |tail| && StartsWith(tail[k..], x) {
      assert StartsWith(s[n + k..], x);
    }
    if k :| 0 <= k <= |s| && StartsWith(s[k..], x) {
      OccurrenceStart(s, k, x);
      assert s[k] == '<';
      assert k >= n ==> StartsWith(tail[k - n..], x);
    }
  }

  predicate Listed(ids: seq<string>, x: string) {
    exists i :: 0 <= i < |ids| && SameText(x, ids[i])
  }

  /** Among ids joined by spaces, an id occurs as a substring exactly when it is one of them, up to case. */
  lemma {:induction false} OccursIffListed(ids: seq<string>, x: string)
    requires AreMessageIds(ids) && IsMessageId(x)
    ensures Contains(JoinSpace(ids), x) <==> Listed(ids, x)
  {
    var s := JoinSpace(ids);
    if ids != [] {
      var first, rest := ids[0], ids[1..];
      assert first in ids;
      assert forall id :: id in rest ==> id in ids;
      OccurrenceAtHead(ids, x);
      OccursIffListed(rest, x);
      assert Listed(ids, x) <==> SameText(x, first) || Listed(rest, x) by {
        if i :| 0 <= i < |rest| && SameText(x, rest[i]) {
          assert SameText(x, ids[i + 1]);
        }
        if i :| 0 <= i < |ids| && SameText(x, ids[i]) {
          assert i > 0 ==> SameText(x, rest[i - 1]);
        }
      }
      if |ids| > 1 {
        OccurrenceInTail(first, JoinSpace(rest), x);
      } else {
        assert first + "" == first;
        assert first[0..] == first;
        assert StartsWith(s, x) <==> Contains(s, x);
      }
    }
  }

  lemma IdsAreMessageIds(msg: Message, id: string)
    requires WellFormedMessage(msg) && id in MessageIds(msg)
    ensures IsMessageId(id)
  {
    if id in WordSet(msg.references) {
      var ids :| AreMessageIds(ids) && msg.references.value == JoinSpace(ids);
      forall w | w in ids ensures w != "" && NoSpace(w) { IdHasNoSpace(w); }
      SplitJoin(ids);
    }
  }

  /** The message references an id equal to `id` up to ASCII case. */
  ghost predicate ReferencesLike(msg: Message, id: string) {
    exists r :: r in WordSet(msg.references) && SameText(id, r)
  }

  lemma ListedIffSameText(ids: seq<string>, id: string)
    ensures Listed(ids, id) <==> exists r :: r in ids && SameText(id, r)
  {
    if r :| r in ids && SameText(id, r) {
      var i :| 0 <= i < |ids| && ids[i] == r;
      assert SameText(id, ids[i]);
    }
    if Listed(ids, id) {
      var i :| 0 <= i < |ids| && SameText(id, ids[i]);
      assert ids[i] in ids;
    }
  }

  /** In a References header the query finds an id exactly up to ASCII case. */
  lemma ReferencesAreFound(ids: seq<string>, id: string)
    requires AreMessageIds(ids) && IsMessageId(id)
    ensures LikeMatch(Anywhere(EscapeWildcards(id)), JoinSpace(ids)) <==>
            exists r :: r in WordSet(Some(JoinSpace(ids))) && SameText(id, r)
  {
    hide LikeMatch, SameText, Contains;
    IdHasNoSpace(id);
    forall w | w in ids ensures w != "" && NoSpace(w) { IdHasNoSpace(w); }
    SplitJoin(ids);
    EscapeWildcardsIsOnePass(id);
    AnywhereFindsTerm(id, JoinSpace(ids), false);
    OccursIffListed(ids, id);
    ListedIffSameText(ids, id);
  }

  /** On well-formed headers the query finds the messages that mention the id or reference a variant of it. */
  lemma QueryFinds(table: Table, k: Key, id: string)
    requires WellFormedHeaders(table) && k in table && id in AllIds(table)
    ensures RowMatches(table[k], id) <==> id in MessageIds(table[k]) || ReferencesLike(table[k], id)
  {
    hide IsMessageId, LikeMatch, EscapeWildcards, Anywhere, JoinSpace, SplitWhitespace;
    var msg := table[k];
    var k0 :| k0 in table && id in MessageIds(table[k0]);
    IdsAreMessageIds(table[k0], id);
    IdIsNotEmpty(id);
    if msg.references.Some? {
      var ids :| AreMessageIds(ids) && msg.references.value == JoinSpace(ids);
      ReferencesAreFound(ids, id);
      assert SameText(id, id);
    }
  }

  lemma IdIsNotEmpty(id: string)
    requires IsMessageId(id)
    ensures id != ""
  {
  }

  /** The query for a known id returns the message exactly if it mentions the id. */
  ghost predicate QueryIsExact(table: Table, k: Key, id: string)
    requires k in table
  {
    RowMatches(table[k], id) <==> id in MessageIds(table[k])
  }

  ghost predicate QueriesAreExact(table: Table) {
    forall k, id :: k in table && id in AllIds(table) ==> QueryIsExact(table, k, id)
  }

  /** No message references a variant, in ASCII case, of an id it does not mention. */
  ghost predicate NoCaseClash(table: Table) {
    forall k, id :: k in table && id in AllIds(table) && ReferencesLike(table[k], id) ==> id in MessageIds(table[k])
  }

  /** On headers as the client builds them, queries are exact precisely if no two ids clash in letter case. */
  lemma QueryIsMembership(table: Table)
    requires WellFormedHeaders(table)
    ensures QueriesAreExact(table) <==> NoCaseClash(table)
  {
    forall k, id | k in table && id in AllIds(table)
      ensures QueryIsExact(table, k, id) <==> (ReferencesLike(table[k], id) ==> id in MessageIds(table[k]))
    {
      QueryFinds(table, k, id);
    }
    hide RowMatches, ReferencesLike, MessageIds;
    if QueriesAreExact(table) {
      forall k, id | k in table && id in AllIds(table) && ReferencesLike(table[k], id)
        ensures id in MessageIds(table[k])
      {
        assert QueryIsExact(table, k, id);
      }
    }
  }

  // ----- Reachability -----

  predicate HasMessageId(table: Table, k: Key) {
    k in table && table[k].messageId.Some? && table[k].messageId.value != ""
  }

  /** The thread shown for a cached message: its own id and references start the walk. */
  ghost function ThreadOf(table: Table, k: Key): set<Key>
    requires HasMessageId(table, k)
  {
    ThreadKeys(table, SeedIds(table[k].messageId.value, table[k].references))
  }

  /** The query for some id of `a` returns `b`. */
  ghost predicate Finds(table: Table, a: Key, b: Key) {
    a in table && b in table && exists id :: id in MessageIds(table[a]) && RowMatches(table[b], id)
  }

  ghost predicate IsPath(table: Table, p: seq<Key>, a: Key, b: Key) {
    && p != [] && p[0] == a && p[|p| - 1] == b
    && forall i :: 0 <= i < |p| - 1 ==> Finds(table, p[i], p[i + 1])
  }

  ghost predicate Reaches(table: Table, a: Key, b: Key) {
    exists p :: IsPath(table, p, a, b)
  }

  lemma ReachesIsTransitive(table: Table, a: Key, b: Key, c: Key)
    requires Reaches(table, a, b) && Reaches(table, b, c)
    ensures Reaches(table, a, c)
  {
    var p :| IsPath(table, p, a, b);
    var q :| IsPath(table, q, b, c);
    var r := p + q[1..];
    hide Finds;
    forall i | 0 <= i < |r| - 1 ensures Finds(table, r[i], r[i + 1]) {
      if i >= |p| - 1 {
        assert r[i] == q[i - |p| + 1] && r[i + 1] == q[i - |p| + 2];
      } else {
        assert r[i] == p[i] && r[i + 1] == p[i + 1];
      }
    }
    assert IsPath(table, r, a, c);
  }

  lemma ReachesStep(table: Table, a: Key, b: Key, c: Key)
    requires Reaches(table, a, b) && Finds(table, b, c)
    ensures Reaches(table, a, c)
  {
    assert IsPath(table, [b, c], b, c);
    ReachesIsTransitive(table, a, b, c);
  }

  lemma ReachesItself(table: Table, a: Key)
    ensures Reaches(table, a, a)
  {
    assert IsPath(table, [a], a, a);
  }

  /** A closed set containing the seed swallows the ids of everything on a path. */
  lemma {:induction false} PathIdsAreClosed(table: Table, c: set<string>, p: seq<Key>, a: Key, b: Key)
    requires HasMessageId(table, a) && IsPath(table, p, a, b) && Closed(table, c)
    requires table[a].messageId.value in c
    ensures b in table && MessageIds(table[b]) <= c
    decreases |p|
  {
    if |p| == 1 {
      assert RowMatches(table[a], table[a].messageId.value);
    } else {
      var n := |p| - 2;
      assert IsPath(table, p[..n + 1], a, p[n]);
      PathIdsAreClosed(table, c, p[..n + 1], a, p[n]);
      assert Finds(table, p[n], b);
    }
  }

  lemma ReachedIdsAreForced(table: Table, a: Key, b: Key, id: string)
    requires HasMessageId(table, a) && Reaches(table, a, b)
    requires b in table && id in MessageIds(table[b])
    ensures InClosure(table, SeedIds(table[a].messageId.value, table[a].references), id)
  {
    var p :| IsPath(table, p, a, b);
    var seed := SeedIds(table[a].messageId.value, table[a].references);
    forall c: set<string> | seed <= c && Closed(table, c) ensures id in c {
      PathIdsAreClosed(table, c, p, a, b);
    }
  }

  /** The ids of all messages reached from `a`. */
  ghost function ReachedIds(table: Table, a: Key): set<string> {
    set k, id | k in table && Reaches(table, a, k) && id in MessageIds(table[k]) :: id
  }

  lemma ReachedIdsAreClosed(table: Table, a: Key)
    requires HasMessageId(table, a)
    ensures SeedIds(table[a].messageId.value, table[a].references) <= ReachedIds(table, a)
    ensures Closed(table, ReachedIds(table, a))
    ensures forall k, id :: k in table && id in ReachedIds(table, a) && RowMatches(table[k], id) ==>
                              Reaches(table, a, k)
  {
    ReachesItself(table, a);
    var seed := SeedIds(table[a].messageId.value, table[a].references);
    assert seed <= MessageIds(table[a]);
    forall k, id | k in table && id in ReachedIds(table, a) && RowMatches(table[k], id)
      ensures Reaches(table, a, k) && MessageIds(table[k]) <= ReachedIds(table, a)
    {
      var j :| j in table && Reaches(table, a, j) && id in MessageIds(table[j]);
      assert Finds(table, j, k);
      ReachesStep(table, a, j, k);
    }
  }

  lemma InThread(table: Table, a: Key, k: Key, id: string)
    requires HasMessageId(table, a) && k in table && RowMatches(table[k], id)
    requires InClosure(table, SeedIds(table[a].messageId.value, table[a].references), id)
    ensures k in ThreadOf(table, a)
  {
  }

  lemma ReachedIsInThread(table: Table, a: Key, k: Key)
    requires HasMessageId(table, a) && k in table && Reaches(table, a, k)
    ensures k in ThreadOf(table, a)
  {
    hide InClosure, ThreadOf, RowMatches, MessageIds, SeedIds;
    var p :| IsPath(table, p, a, k);
    if |p| == 1 {
      OwnIdIsSeed(table, a);
      InThread(table, a, a, table[a].messageId.value);
    } else {
      var n := |p| - 2;
      assert IsPath(table, p[..n + 1], a, p[n]);
      assert Finds(table, p[n], k);
      var id :| id in MessageIds(table[p[n]]) && RowMatches(table[k], id);
      ReachedIdsAreForced(table, a, p[n], id);
      InThread(table, a, k, id);
    }
  }

  lemma OwnIdIsSeed(table: Table, a: Key)
    requires HasMessageId(table, a)
    ensures RowMatches(table[a], table[a].messageId.value)
    ensures InClosure(table, SeedIds(table[a].messageId.value, table[a].references), table[a].messageId.value)
  {
  }

  /** On every table the walk returns exactly the messages its start reaches by one query after another. */
  lemma ThreadIsReachable(table: Table, a: Key)
    requires HasMessageId(table, a)
    ensures ThreadOf(table, a) == set k | k in table && Reaches(table, a, k)
  {
    hide RowMatches, MessageIds, SeedIds, Reaches, Finds;
    var seed := SeedIds(table[a].messageId.value, table[a].references);
    ReachedIdsAreClosed(table, a);
    forall k | k in ThreadOf(table, a) ensures Reaches(table, a, k) {
      var id :| InClosure(table, seed, id) && RowMatches(table[k], id);
      assert id in ReachedIds(table, a);
    }
    forall k | k in table && Reaches(table, a, k) ensures k in ThreadOf(table, a) {
      ReachedIsInThread(table, a, k);
    }
  }

  // ----- When threads are components -----

  /** Whatever one query finds, further queries lead back from it. */
  ghost predicate FindsLeadBack(table: Table) {
    forall a, b :: Finds(table, a, b) ==> Reaches(table, b, a)
  }

  ghost predicate ReachesIsMutual(table: Table) {
    forall a, b :: Reaches(table, a, b) ==> Reaches(table, b, a)
  }

  lemma {:induction false} PathLeadsBack(table: Table, p: seq<Key>, a: Key, b: Key)
    requires FindsLeadBack(table) && IsPath(table, p, a, b)
    ensures Reaches(table, b, a)
    decreases |p|
  {
    hide Finds;
    if |p| == 1 {
      ReachesItself(table, a);
    } else {
      assert Finds(table, p[0], p[1]);
      var rest := p[1..];
      forall i | 0 <= i < |rest| - 1 ensures Finds(table, rest[i], rest[i + 1]) {
        assert rest[i] == p[i + 1] && rest[i + 1] == p[i + 1 + 1];
      }
      assert IsPath(table, rest, p[1], b);
      PathLeadsBack(table, rest, p[1], b);
      ReachesIsTransitive(table, b, p[1], a);
    }
  }

  /** On every table: being reached is mutual precisely if each single find leads back. */
  lemma MutualIffFindsLeadBack(table: Table)
    ensures ReachesIsMutual(table) <==> FindsLeadBack(table)
  {
    if FindsLeadBack(table) {
      forall a, b | Reaches(table, a, b) ensures Reaches(table, b, a) {
        var p :| IsPath(table, p, a, b);
        PathLeadsBack(table, p, a, b);
      }
    }
    if ReachesIsMutual(table) {
      forall a, b | Finds(table, a, b) ensures Reaches(table, b, a) {
        assert IsPath(table, [a, b], a, b);
      }
    }
  }

  /** Two messages mention a common id. */
  ghost predicate ShareId(table: Table, a: Key, b: Key) {
    a in table && b in table && exists id :: id in MessageIds(table[a]) && id in MessageIds(table[b])
  }

  /** With exact queries, finding is sharing an id: threads are the connected components of the messages. */
  lemma ThreadIsComponent(table: Table, a: Key)
    requires QueriesAreExact(table)
    ensures forall x, y :: Finds(table, x, y) <==> ShareId(table, x, y)
    ensures FindsLeadBack(table)
    ensures HasMessageId(table, a) ==> ThreadOf(table, a) == set k | k in table && Reaches(table, a, k)
  {
    hide RowMatches, MessageIds;
    forall x, y ensures Finds(table, x, y) <==> ShareId(table, x, y) {
      if x in table && y in table {
        forall id | id in MessageIds(table[x]) ensures RowMatches(table[y], id) <==> id in MessageIds(table[y]) {
          assert QueryIsExact(table, y, id);
        }
      }
    }
    forall x, y | Finds(table, x, y) ensures Reaches(table, y, x) {
      assert ShareId(table, y, x);
      assert IsPath(table, [y, x], y, x);
    }
    if HasMessageId(table, a) {
      ThreadIsReachable(table, a);
    }
  }

  /**
    Where finds lead back, threads partition the messages: asking from any member gives the same thread, from any other
    message a disjoint one.
   */
  lemma ThreadsPartition(table: Table, a: Key, b: Key)
    requires FindsLeadBack(table) && HasMessageId(table, a) && HasMessageId(table, b)
    ensures a in ThreadOf(table, a)
    ensures b in ThreadOf(table, a) <==> a in ThreadOf(table, b)
    ensures b in ThreadOf(table, a) ==> ThreadOf(table, a) == ThreadOf(table, b)
    ensures b !in ThreadOf(table, a) ==> ThreadOf(table, a) !! ThreadOf(table, b)
  {
    ThreadIsReachable(table, a);
    ThreadIsReachable(table, b);
    ReachesItself(table, a);
    MutualIffFindsLeadBack(table);
    hide Finds, FindsLeadBack, IsPath, ThreadOf, Reaches;
    if Reaches(table, a, b) {
      forall k | k in table ensures Reaches(table, a, k) <==> Reaches(table, b, k) {
        if Reaches(table, a, k) { ReachesIsTransitive(table, b, a, k); }
        if Reaches(table, b, k) { ReachesIsTransitive(table, a, b, k); }
      }
    } else {
      forall k | k in table ensures !(Reaches(table, a, k) && Reaches(table, b, k)) {
        if Reaches(table, a, k) && Reaches(table, b, k) {
          ReachesIsTransitive(table, a, k, b);
        }
      }
    }
  }

  // ----- A table on which they are not -----

  const UPPER := Key("INBOX", 1)
  const LOWER := Key("INBOX", 2)

  /** One message references `<X>`, another has the id `<x>`. */
  function ClashingTable(): Table {
    map[UPPER := Message(Some("<a>"), None, Some("<X>"), 0), LOWER := Message(Some("<x>"), None, None, 0)]
  }

  lemma ClashingIds()
    ensures MessageIds(ClashingTable()[UPPER]) == {"<a>", "<X>"} && MessageIds(ClashingTable()[LOWER]) == {"<x>"}
    ensures WellFormedHeaders(ClashingTable())
  {
    var ids := ["<X>"];
    assert JoinSpace(ids) == "<X>";
    SplitJoin(ids);
    assert AreMessageIds(ids);
    assert WellFormedMessage(ClashingTable()[UPPER]);
  }

  lemma UpperIsLike()
    ensures RowMatches(ClashingTable()[UPPER], "<x>")
  {
    EscapeWildcardsIsOnePass("<x>");
    AnywhereFindsTerm("<x>", "<X>", false);
    assert "<X>"[0..] == "<X>" && "<X>"[..3] == "<X>";
    assert SameText("<x>", "<X>");
    assert StartsWith("<X>"[0..], "<x>");
  }

  lemma OthersAreNotLower()
    ensures !RowMatches(ClashingTable()[LOWER], "<a>") && !RowMatches(ClashingTable()[LOWER], "<X>")
  {
  }

  lemma UpperIdsAreTwo()
    ensures MessageIds(ClashingTable()[UPPER]) <= {"<a>", "<X>"}
    ensures SeedIds("<a>", Some("<X>")) <= {"<a>", "<X>"}
  {
    ClashingIds();
    assert SeedIds("<a>", Some("<X>")) <= MessageIds(ClashingTable()[UPPER]);
  }

  lemma UpperMissesLower()
    ensures LOWER !in ThreadKeys(ClashingTable(), SeedIds("<a>", Some("<X>")))
  {
    var table, c := ClashingTable(), {"<a>", "<X>"};
    UpperIdsAreTwo();
    OthersAreNotLower();
    hide RowMatches, MessageIds, SeedIds;
    assert forall k :: k in table ==> k == UPPER || k == LOWER;
    assert Closed(table, c);
    forall id | InClosure(table, SeedIds("<a>", Some("<X>")), id) ensures !RowMatches(table[LOWER], id) {
      assert id in c;
    }
  }

  /** LIKE folds letter case and `=` does not: the walk from one message finds the other, but not the reverse. */
  lemma CaseClashBreaksThreads()
    ensures WellFormedHeaders(ClashingTable())
    ensures HasMessageId(ClashingTable(), UPPER) && HasMessageId(ClashingTable(), LOWER)
    ensures UPPER in ThreadOf(ClashingTable(), LOWER) && LOWER !in ThreadOf(ClashingTable(), UPPER)
  {
    var table := ClashingTable();
    ClashingIds();
    UpperIsLike();
    hide RowMatches, MessageIds, SeedIds, WellFormedHeaders, ThreadKeys;
    UpperMissesLower();
    assert Finds(table, LOWER, UPPER);
    assert IsPath(table, [LOWER, UPPER], LOWER, UPPER);
    ThreadIsReachable(table, LOWER);
  }

  // ----- The stored thread id -----

  /** The id the message list groups by: oldest reference, else the id replied to, else the message's own id. */
  function ComputeThreadId(msg: Message): Option<string> {
    if msg.references.Some? && SplitWhitespace(msg.references.value) != [] then
      Some(SplitWhitespace(msg.references.value)[0])
    else if msg.inReplyTo.Some? && msg.inReplyTo.value != "" then msg.inReplyTo
    else if msg.messageId.Some? && msg.messageId.value != "" then msg.messageId
    else None
  }

  /**
    A message is filed under the first id of its references, however they are spaced; without references under the
    id it replies to, and without that under its own.
   */
  lemma ThreadIdPreference(msg: Message, a: string, w: string, b: string)
    requires AllSpace(a) && w != "" && NoSpace(w) && (b == "" || IsSpace(b[0]))
    ensures msg.references == Some(a + w + b) ==> ComputeThreadId(msg) == Some(w)
    ensures msg.references == None || AllSpace(msg.references.value) ==>
              ComputeThreadId(msg) ==
              if msg.inReplyTo.Some? && msg.inReplyTo != Some("") then msg.inReplyTo
              else if msg.messageId != Some("") then msg.messageId
              else None
  {
    hide IsSpace, SplitWhitespace;
    FirstWord(a, w, b);
    if msg.references.Some? && AllSpace(msg.references.value) {
      NoWordsInSpace(msg.references.value);
    }
  }

  /** With exact queries the list's groups refine the threads: messages filed under one id are in one thread. */
  lemma ThreadIdRefinesThread(table: Table, a: Key, b: Key)
    requires QueriesAreExact(table) && HasMessageId(table, a) && HasMessageId(table, b)
    requires ComputeThreadId(table[a]) == ComputeThreadId(table[b])
    ensures ThreadOf(table, a) == ThreadOf(table, b) && b in ThreadOf(table, a)
  {
    var id := ComputeThreadId(table[a]).value;
    assert id in MessageIds(table[a]) && id in MessageIds(table[b]);
    ThreadIsComponent(table, a);
    assert ShareId(table, a, b);
    assert IsPath(table, [a, b], a, b);
    ThreadsPartition(table, a, b);
  }
}
