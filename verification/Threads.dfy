/** Thread reconstruction: the cached message table and the transitive walk over its headers. */
module Threads {
  import opened Like
  import opened Words
  import opened Wrappers

  datatype Key = Key(folder: string, uid: nat)

  /** The columns of a cached message that threading looks at. */
  datatype Message = Message(
    messageId: Option<string>,
    inReplyTo: Option<string>,
    references: Option<string>,
    dateEpoch: int)

  /** The `messages` table, by primary key. */
  type Table = map<Key, Message>

  datatype Row = Row(key: Key, msg: Message)

  // ----- One query -----

  /** The WHERE clause of the thread query; a NULL column never matches. */
  predicate RowMatches(msg: Message, target: string) {
    || msg.messageId == Some(target)
    || msg.inReplyTo == Some(target)
    || (msg.references.Some? && LikeMatch(Anywhere(EscapeWildcards(target)), msg.references.value))
  }

  ghost predicate AreRows(table: Table, rows: seq<Row>) {
    forall x :: x in rows ==> x.key in table && x.msg == table[x.key]
  }

  ghost predicate NoRepeats(rows: seq<Row>) {
    forall i, j :: 0 <= i < j < |rows| ==> rows[i].key != rows[j].key
  }

  ghost predicate SortedByDate(rows: seq<Row>) {
    forall i, j :: 0 <= i < j < |rows| ==> rows[i].msg.dateEpoch <= rows[j].msg.dateEpoch
  }

  function KeysOf(rows: seq<Row>): set<Key> {
    set i | 0 <= i < |rows| :: rows[i].key
  }

  lemma KeysOfConcat(a: seq<Row>, b: seq<Row>)
    ensures KeysOf(a + b) == KeysOf(a) + KeysOf(b)
  {
    forall k | k in KeysOf(b) ensures k in KeysOf(a + b) {
      var i :| 0 <= i < |b| && b[i].key == k;
      assert (a + b)[|a| + i].key == k;
    }
    forall k | k in KeysOf(a) ensures k in KeysOf(a + b) {
      var i :| 0 <= i < |a| && a[i].key == k;
      assert (a + b)[i].key == k;
    }
  }

  /** Insert before the first row that is not older: the step of a stable sort. */
  function InsertByDate(row: Row, rows: seq<Row>): (r: seq<Row>)
    ensures KeysOf(r) == {row.key} + KeysOf(rows)
    ensures forall x :: x in r <==> x == row || x in rows
    ensures NoRepeats(rows) && row.key !in KeysOf(rows) ==> NoRepeats(r)
  {
    if rows == [] || row.msg.dateEpoch <= rows[0].msg.dateEpoch then
      KeysOfCons(row, rows);
      [row] + rows
    else
      var rest := InsertByDate(row, rows[1..]);
      assert rows == [rows[0]] + rows[1..];
      KeysOfCons(rows[0], rest);
      KeysOfCons(rows[0], rows[1..]);
      [rows[0]] + rest
  }

  lemma {:induction false} InsertKeepsOrder(row: Row, rows: seq<Row>)
    requires SortedByDate(rows)
    ensures SortedByDate(InsertByDate(row, rows))
  {
    if rows != [] && row.msg.dateEpoch > rows[0].msg.dateEpoch {
      var rest := InsertByDate(row, rows[1..]);
      InsertKeepsOrder(row, rows[1..]);
      assert forall x :: x in rest ==> rows[0].msg.dateEpoch <= x.msg.dateEpoch;
    }
  }

  lemma KeysOfCons(row: Row, rows: seq<Row>)
    ensures KeysOf([row] + rows) == {row.key} + KeysOf(rows)
    ensures NoRepeats([row] + rows) <==> NoRepeats(rows) && row.key !in KeysOf(rows)
  {
    var all := [row] + rows;
    assert all[0] == row && all[1..] == rows;
    forall i | 0 <= i < |rows| ensures rows[i].key in KeysOf(all) {
      assert all[i + 1] == rows[i];
    }
    forall i, j | NoRepeats(all) && 0 <= i < j < |rows| ensures rows[i].key != rows[j].key {
      assert all[i + 1].key != all[j + 1].key;
    }
    forall j | NoRepeats(all) && 0 <= j < |rows| ensures rows[j].key != row.key {
      assert all[0].key != all[j + 1].key;
    }
  }

  /** Stable sort by date, oldest first. */
  function SortByDate(rows: seq<Row>): (r: seq<Row>)
    ensures KeysOf(r) == KeysOf(rows)
    ensures forall x :: x in r <==> x in rows
    ensures SortedByDate(r)
    ensures NoRepeats(rows) ==> NoRepeats(r)
  {
    if rows == [] then []
    else
      assert rows == [rows[0]] + rows[1..];
      KeysOfCons(rows[0], rows[1..]);
      InsertKeepsOrder(rows[0], SortByDate(rows[1..]));
      InsertByDate(rows[0], SortByDate(rows[1..]))
  }

  /** The rows of one date, in order. */
  function OfDate(rows: seq<Row>, date: int): seq<Row> {
    if rows == [] then []
    else if rows[0].msg.dateEpoch == date then [rows[0]] + OfDate(rows[1..], date)
    else OfDate(rows[1..], date)
  }

  lemma {:induction false} InsertIsStable(row: Row, rows: seq<Row>, date: int)
    ensures OfDate(InsertByDate(row, rows), date) == OfDate([row] + rows, date)
  {
    assert ([row] + rows)[1..] == rows;
    if rows != [] && row.msg.dateEpoch > rows[0].msg.dateEpoch {
      var rest := rows[1..];
      InsertIsStable(row, rest, date);
      assert ([row] + rest)[1..] == rest;
      assert ([rows[0]] + InsertByDate(row, rest))[1..] == InsertByDate(row, rest);
    }
  }

  /** The sort keeps the order of rows of one date. */
  lemma {:induction false} SortIsStable(rows: seq<Row>, date: int)
    ensures OfDate(SortByDate(rows), date) == OfDate(rows, date)
  {
    if rows != [] {
      SortIsStable(rows[1..], date);
      InsertIsStable(rows[0], SortByDate(rows[1..]), date);
      assert ([rows[0]] + SortByDate(rows[1..]))[1..] == SortByDate(rows[1..]);
    }
  }

  /** Rows matching one id, oldest first; rows of equal date come in any order. */
  method GetThreadMessages(table: Table, target: string) returns (rows: seq<Row>)
    ensures AreRows(table, rows) && NoRepeats(rows) && SortedByDate(rows)
    ensures KeysOf(rows) == set k | k in table && RowMatches(table[k], target)
  {
    rows := [];
    var todo := table.Keys;
    while todo != {}
      invariant todo <= table.Keys
      invariant AreRows(table, rows) && NoRepeats(rows) && SortedByDate(rows)
      invariant KeysOf(rows) == set k | k in table && k !in todo && RowMatches(table[k], target)
    {
      var k :| k in todo;
      todo := todo - {k};
      if RowMatches(table[k], target) {
        InsertKeepsOrder(Row(k, table[k]), rows);
        rows := InsertByDate(Row(k, table[k]), rows);
      }
    }
  }

  // ----- The walk -----

  function NonEmpty(id: Option<string>): set<string> {
    if id.Some? && id.value != "" then {id.value} else {}
  }

  function WordSet(s: Option<string>): set<string> {
    if s.Some? then set w | w in SplitWhitespace(s.value) else {}
  }

  /** Every id a message mentions: its own, the one it answers and the ones it references. */
  function MessageIds(msg: Message): set<string> {
    NonEmpty(msg.messageId) + NonEmpty(msg.inReplyTo) + WordSet(msg.references)
  }

  /** The ids a walk starts from. */
  function SeedIds(messageId: string, references: Option<string>): set<string> {
    {messageId} + WordSet(references)
  }

  /** Every message found through one of the ids adds no id of its own. */
  ghost predicate Closed(table: Table, ids: set<string>) {
    forall k, id :: k in table && id in ids && RowMatches(table[k], id) ==> MessageIds(table[k]) <= ids
  }

  /** `id` lies in the least closed set of ids that contains the seed. */
  ghost predicate InClosure(table: Table, seed: set<string>, id: string) {
    forall c: set<string> :: seed <= c && Closed(table, c) ==> id in c
  }

  /** The messages found through the least closed set of ids. */
  ghost function ThreadKeys(table: Table, seed: set<string>): set<Key> {
    set k | k in table && exists id :: InClosure(table, seed, id) && RowMatches(table[k], id)
  }

  /** All ids the walk can ever meet. */
  ghost function Universe(table: Table, seed: set<string>): set<string> {
    seed + set k, id | k in table && id in MessageIds(table[k]) :: id
  }

  /** Keep the first row of each key not yet seen. */
  function FirstOfEachKey(rows: seq<Row>, seen: set<Key>): (r: seq<Row>)
    ensures KeysOf(r) == KeysOf(rows) - seen
    ensures forall x :: x in r ==> x in rows
    ensures NoRepeats(r)
  {
    if rows == [] then []
    else
      assert rows == [rows[0]] + rows[1..];
      KeysOfCons(rows[0], rows[1..]);
      if rows[0].key in seen then FirstOfEachKey(rows[1..], seen)
      else
        var rest := FirstOfEachKey(rows[1..], seen + {rows[0].key});
        KeysOfCons(rows[0], rest);
        [rows[0]] + rest
  }

  /** What the inner loop has established about the ids queried so far. */
  ghost predicate Explored(table: Table, processed: set<string>, known: set<string>, all: seq<Row>) {
    && AreRows(table, all)
    && KeysOf(all) == (set k | k in table && exists id :: id in processed && RowMatches(table[k], id))
    && forall k :: k in KeysOf(all) ==> MessageIds(table[k]) <= known
  }

  /** Nothing is known that the closure does not force. */
  ghost predicate Forced(table: Table, seed: set<string>, known: set<string>) {
    && seed <= known <= Universe(table, seed)
    && forall c: set<string> :: seed <= c && Closed(table, c) ==> known <= c
  }

  ghost function FoundIds(rows: seq<Row>): set<string> {
    set i, id | 0 <= i < |rows| && id in MessageIds(rows[i].msg) :: id
  }

  lemma FoundIdsStep(rows: seq<Row>, n: nat)
    requires n < |rows|
    ensures FoundIds(rows[..n + 1]) == FoundIds(rows[..n]) + MessageIds(rows[n].msg)
  {
    forall x | x in FoundIds(rows[..n]) ensures x in FoundIds(rows[..n + 1]) {
      var i :| 0 <= i < n && x in MessageIds(rows[..n][i].msg);
      assert rows[..n + 1][i] == rows[i];
    }
    forall x | x in MessageIds(rows[n].msg) ensures x in FoundIds(rows[..n + 1]) {
      assert rows[..n + 1][n] == rows[n];
    }
  }

  /** The loop over the rows of one query. */
  method AddFound(known: set<string>, all: seq<Row>, found: seq<Row>) returns (known': set<string>, all': seq<Row>)
    ensures known' == known + FoundIds(found)
    ensures all' == all + found
  {
    known', all' := known, all;
    for n := 0 to |found|
      invariant known' == known + FoundIds(found[..n])
      invariant all' == all + found[..n]
    {
      var msg := found[n].msg;
      FoundIdsStep(found, n);
      known' := known' + NonEmpty(msg.messageId);
      known' := known' + NonEmpty(msg.inReplyTo);
      known' := known' + WordSet(msg.references);
      assert found[..n + 1] == found[..n] + [found[n]];
      all' := all' + [found[n]];
    }
    assert found[..|found|] == found;
  }

  /** The rows are the answer to the query for one id. */
  ghost predicate Answers(table: Table, id: string, rows: seq<Row>) {
    AreRows(table, rows) && KeysOf(rows) == set k | k in table && RowMatches(table[k], id)
  }

  lemma QueryKeepsForced(table: Table, seed: set<string>, known: set<string>, id: string, found: seq<Row>)
    requires Forced(table, seed, known) && id in known && Answers(table, id, found)
    ensures Forced(table, seed, known + FoundIds(found))
  {
    forall x | x in FoundIds(found)
      ensures x in Universe(table, seed)
      ensures forall c: set<string> :: seed <= c && Closed(table, c) ==> x in c
    {
      var i :| 0 <= i < |found| && x in MessageIds(found[i].msg);
      var k := found[i].key;
      assert k in KeysOf(found);
      assert RowMatches(table[k], id) && x in MessageIds(table[k]);
    }
  }

  lemma QueryKeepsExplored(
    table: Table, processed: set<string>, known: set<string>, all: seq<Row>, id: string, found: seq<Row>)
    requires Explored(table, processed, known, all) && Answers(table, id, found)
    ensures Explored(table, processed + {id}, known + FoundIds(found), all + found)
  {
    KeysOfConcat(all, found);
    forall k | k in KeysOf(found) ensures MessageIds(table[k]) <= known + FoundIds(found) {
      var i :| 0 <= i < |found| && found[i].key == k;
      assert found[i].msg == table[k];
    }
  }

  lemma ClosureReached(table: Table, seed: set<string>, known: set<string>, all: seq<Row>)
    requires Forced(table, seed, known) && Explored(table, known, known, all)
    ensures KeysOf(all) == ThreadKeys(table, seed)
  {
    forall k, id | k in table && id in known && RowMatches(table[k], id)
      ensures MessageIds(table[k]) <= known
    {
      assert k in KeysOf(all);
    }
    assert Closed(table, known);
    assert forall id :: InClosure(table, seed, id) <==> id in known;
  }

  /** One round of the walk: query every id not queried before, in whatever order the set hands them out. */
  method QueryRound(
    table: Table, ghost seed: set<string>, processed: set<string>, known: set<string>, all: seq<Row>)
    returns (processed': set<string>, known': set<string>, all': seq<Row>)
    requires processed <= known && Forced(table, seed, known) && Explored(table, processed, known, all)
    ensures processed' == known <= known' && Forced(table, seed, known') && Explored(table, processed', known', all')
  {
    var toQuery := known - processed;
    processed', known', all' := processed, known, all;
    while toQuery != {}
      invariant toQuery <= known && processed' == known - toQuery && known <= known'
      invariant Forced(table, seed, known')
      invariant Explored(table, processed', known', all')
    {
      var id :| id in toQuery;
      toQuery := toQuery - {id};
      var found := GetThreadMessages(table, id);
      QueryKeepsForced(table, seed, known', id, found);
      QueryKeepsExplored(table, processed', known', all', id, found);
      processed' := processed' + {id};
      known', all' := AddFound(known', all', found);
    }
  }

  /** The transitive walk: rounds until no id is left to query, then one row per message, oldest first. */
  method GetFullThread(table: Table, messageId: string, references: Option<string>) returns (thread: seq<Row>)
    ensures AreRows(table, thread) && NoRepeats(thread) && SortedByDate(thread)
    ensures KeysOf(thread) == ThreadKeys(table, SeedIds(messageId, references))
  {
    ghost var seed := SeedIds(messageId, references);
    var known := {messageId} + WordSet(references);
    var processed: set<string>, all: seq<Row> := {}, [];
    while known - processed != {}
      invariant processed <= known && Forced(table, seed, known)
      invariant Explored(table, processed, known, all)
      decreases Universe(table, seed) - processed
    {
      processed, known, all := QueryRound(table, seed, processed, known, all);
    }
    assert forall id :: id in known && id !in processed ==> id in known - processed;
    assert processed == known;
    ClosureReached(table, seed, known, all);
    thread := SortByDate(FirstOfEachKey(all, {}));
  }

  // ----- Independence of the iteration order -----

  lemma {:induction false} KeyCount(rows: seq<Row>)
    requires NoRepeats(rows)
    ensures |KeysOf(rows)| == |rows|
  {
    if rows != [] {
      assert rows == [rows[0]] + rows[1..];
      KeysOfCons(rows[0], rows[1..]);
      KeyCount(rows[1..]);
    }
  }

  lemma {:induction false} SubsetCount<T>(a: set<T>, b: set<T>)
    requires a <= b
    ensures |a| <= |b|
  {
    if a != {} {
      var x :| x in a;
      SubsetCount(a - {x}, b - {x});
    }
  }

  lemma NotEarlier(table: Table, a: seq<Row>, b: seq<Row>, i: nat)
    requires AreRows(table, a) && NoRepeats(a) && SortedByDate(a)
    requires AreRows(table, b) && NoRepeats(b) && SortedByDate(b)
    requires KeysOf(a) == KeysOf(b) && i < |a| && i < |b|
    ensures b[i].msg.dateEpoch <= a[i].msg.dateEpoch
  {
    if a[i].msg.dateEpoch < b[i].msg.dateEpoch {
      var early := a[..i + 1];
      forall k | k in KeysOf(early) ensures k in KeysOf(b[..i]) {
        var m :| 0 <= m <= i && early[m].key == k;
        assert a[m] in a && k in KeysOf(a);
        var n :| 0 <= n < |b| && b[n].key == k;
        assert b[n] in b;
        assert n < i && b[..i][n].key == k;
      }
      KeyCount(early);
      KeyCount(b[..i]);
      SubsetCount(KeysOf(early), KeysOf(b[..i]));
    }
  }

  /** Two walks of the same thread agree on its messages and on the date at every place. */
  lemma WalksAgree(table: Table, a: seq<Row>, b: seq<Row>)
    requires AreRows(table, a) && NoRepeats(a) && SortedByDate(a)
    requires AreRows(table, b) && NoRepeats(b) && SortedByDate(b)
    requires KeysOf(a) == KeysOf(b)
    ensures |a| == |b|
    ensures forall i :: 0 <= i < |a| ==> a[i].msg.dateEpoch == b[i].msg.dateEpoch
    ensures forall x :: x in a <==> x in b
  {
    KeyCount(a);
    KeyCount(b);
    forall i | 0 <= i < |a| ensures a[i].msg.dateEpoch == b[i].msg.dateEpoch {
      NotEarlier(table, a, b, i);
      NotEarlier(table, b, a, i);
    }
    forall x | x in a ensures x in b {
      assert x.key in KeysOf(a);
    }
    forall x | x in b ensures x in a {
      assert x.key in KeysOf(b);
    }
  }
}
