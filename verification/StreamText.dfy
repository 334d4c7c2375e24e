/** What a model stream says, line by line and field by field. */
module StreamText {
  import opened Bytes
  import opened Wrappers
  import opened ModelStream
  import Words

  // ----- Bytes to lines -----

  function Terminated(rows: seq<Bytes>): Bytes {
    if rows == [] then [] else rows[0] + [10] + Terminated(rows[1..])
  }

  /** The lines of a stream are its newline-terminated rows, then the rest, unless that is empty or broken off. */
  lemma {:induction false} LinesAreRows(d: Decoder, rows: seq<Bytes>, last: Bytes, cut: bool)
    requires 10 !in last && forall i :: 0 <= i < |rows| ==> 10 !in rows[i]
    ensures var lines := Lines(d, Terminated(rows) + last, cut);
            && |lines| == |rows| + (if cut || last == [] then 0 else 1)
            && (forall i :: 0 <= i < |rows| ==> lines[i] == TrimLineEnd(d.lossy(rows[i] + [10])))
            && (|lines| > |rows| ==> lines[|rows|] == Words.TrimEnd(d.lossy(last)))
    decreases |rows|
  {
    if rows == [] {
      assert [] + last == last;
    } else {
      hide TrimLineEnd, Words.TrimEnd, IndexOf;
      var rest := Terminated(rows[1..]) + last;
      assert Terminated(rows) + last == rows[0] + [10] + rest;
      FirstRow(d, rows[0], rest, cut);
      LinesAreRows(d, rows[1..], last, cut);
      hide Lines;
      assert forall i :: 0 < i < |rows| ==> rows[i] == rows[1..][i - 1];
    }
  }

  lemma FirstRow(d: Decoder, row: Bytes, rest: Bytes, cut: bool)
    requires 10 !in row
    ensures Lines(d, row + [10] + rest, cut) == [TrimLineEnd(d.lossy(row + [10]))] + Lines(d, rest, cut)
  {
    hide TrimLineEnd, IndexOf;
    var s := row + [10] + rest;
    assert s[..|row|] == row && s[..|row| + 1] == row + [10] && s[|row| + 1..] == rest;
    IndexOfAt(s, 10, |row|);
  }

  /** Only the line end is trimmed from a terminated line. */
  lemma {:induction false} LineEndIsTrimmed(t: string, ends: string)
    requires forall i :: 0 <= i < |ends| ==> ends[i] == '\r' || ends[i] == '\n'
    requires t == "" || (t[|t| - 1] != '\r' && t[|t| - 1] != '\n')
    ensures TrimLineEnd(t + ends) == t
  {
    if ends == "" {
      assert t + ends == t;
    } else {
      assert (t + ends)[..|t + ends| - 1] == t + ends[..|ends| - 1];
      LineEndIsTrimmed(t, ends[..|ends| - 1]);
    }
  }

  // ----- One line -----

  /** A line that carries data other than white space or the end marker. */
  predicate HasData(line: string) {
    "data:" <= line && !Words.AllSpace(line[5..]) && Words.Trim(line[5..]) != "[DONE]"
  }

  /** Every call fragment has an index of at most 16. */
  predicate IndicesFit(c: Chunk) {
    c.delta.Some? ==> forall i :: 0 <= i < |c.delta.value.calls| ==> c.delta.value.calls[i].index <= 16
  }

  /** The text of a chunk, if it has any. */
  function TextOf(c: Chunk): seq<string> {
    match c.delta
    case Some(Delta(Some(t), _)) => if t == "" then [] else [t]
    case _ => []
  }

  function FragmentsOf(c: Chunk): seq<CallDelta> {
    match c.delta
    case Some(Delta(_, calls)) => calls
    case None => []
  }

  lemma FitIff(c: Chunk)
    ensures IndicesFit(c) <==> forall i :: 0 <= i < |CallsOn(c)| ==> CallsOn(c)[i].index <= MAX_TOOL_CALL_INDEX
  {
    if c.delta.Some? {
      assert CallsOn(c) == c.delta.value.calls;
    }
  }

  /**
    A line without data is passed over. Data that cannot be read is an error, as are an error chunk and a call index
    over 16; an error chunk shows no text, any other chunk shows its text.
   */
  lemma LineSays(d: Decoder, line: string)
    ensures !HasData(line) ==> Accepted(d, line) && ShownOn(d, line) == [] && ChunkOn(d, line) == None
    ensures HasData(line) ==>
              match d.json(Words.Trim(line[5..]))
              case None => !Accepted(d, line) && ShownOn(d, line) == []
              case Some(c) =>
                && ChunkOn(d, line) == Some(c)
                && (Accepted(d, line) <==> !c.isError && IndicesFit(c))
                && ShownOn(d, line) == if c.isError then [] else TextOf(c)
  {
    if "data:" <= line {
      Words.TrimIsEmptyIff(line[5..]);
      var parsed := d.json(Words.Trim(line[5..]));
      if parsed.Some? {
        FitIff(parsed.value);
      }
    }
    hide Words.Trim, Words.AllSpace;
  }

  // ----- One more line -----

  /** An acceptable line adds its text and its call fragments to the reply; its token counts replace earlier ones. */
  lemma LineAdds(d: Decoder, lines: seq<string>, line: string)
    requires AllAccepted(d, lines) && Accepted(d, line)
    ensures var was, now := ChunksOn(d, lines), ChunksOn(d, lines + [line]);
            if !HasData(line) then now == was
            else
              var c := d.json(Words.Trim(line[5..]));
              && c.Some?
              && now == was + [c.value]
              && Content(now) == Content(was) + Joined(TextOf(c.value))
              && CallDeltas(now) == CallDeltas(was) + FragmentsOf(c.value)
              && LastUsage(now) == if c.value.usage.Some? then c.value.usage.value else LastUsage(was)
  {
    LineSays(d, line);
    AcceptedLine(d, lines, line);
    hide Accepted, ShownOn, ChunkOn, ChunksOn, HasData, AllAccepted, Words.Trim;
    if HasData(line) {
      ChunkAdds(ChunksOn(d, lines), d.json(Words.Trim(line[5..])).value);
    }
  }

  lemma ChunkAdds(was: seq<Chunk>, c: Chunk)
    ensures Content(was + [c]) == Content(was) + Joined(TextOf(c))
    ensures CallDeltas(was + [c]) == CallDeltas(was) + FragmentsOf(c)
    ensures LastUsage(was + [c]) == if c.usage.Some? then c.usage.value else LastUsage(was)
  {
    assert (was + [c])[..|was|] == was;
    JoinedOne(ContentOn(c));
  }

  lemma JoinedOne(t: string)
    ensures Joined([t]) == t && Joined([]) == ""
  {
    assert [t][..0] == [];
    assert Joined([t]) == "" + t;
  }

  // ----- The calls of a reply -----

  /** The fragments sent for call `j`, in order of arrival. */
  function For(ds: seq<CallDelta>, j: nat): (r: seq<CallDelta>)
    ensures forall i :: 0 <= i < |r| ==> r[i] in ds && r[i].index == j
  {
    if ds == [] then []
    else if ds[0].index == j then [ds[0]] + For(ds[1..], j)
    else For(ds[1..], j)
  }

  function Names(ds: seq<CallDelta>): string {
    if ds == [] then "" else OrEmpty(ds[0].name) + Names(ds[1..])
  }

  function Arguments(ds: seq<CallDelta>): string {
    if ds == [] then "" else OrEmpty(ds[0].arguments) + Arguments(ds[1..])
  }

  /** The id given last, or none. */
  function LastId(ds: seq<CallDelta>, id: string): string {
    if ds == [] then id else LastId(ds[1..], if ds[0].id.Some? then ds[0].id.value else id)
  }

  lemma {:induction false} ForConcat(ds: seq<CallDelta>, tc: CallDelta, j: nat)
    ensures For(ds + [tc], j) == For(ds, j) + if tc.index == j then [tc] else []
  {
    if ds == [] {
      assert [tc][1..] == [];
    } else {
      assert (ds + [tc])[1..] == ds[1..] + [tc];
      ForConcat(ds[1..], tc, j);
    }
  }

  lemma {:induction false} NamesConcat(ds: seq<CallDelta>, tc: CallDelta)
    ensures Names(ds + [tc]) == Names(ds) + OrEmpty(tc.name)
  {
    if ds == [] {
      assert [] + [tc] == [tc] && [tc][1..] == [];
    } else {
      assert (ds + [tc])[1..] == ds[1..] + [tc];
      NamesConcat(ds[1..], tc);
      assert OrEmpty(ds[0].name) + (Names(ds[1..]) + OrEmpty(tc.name)) == Names(ds) + OrEmpty(tc.name);
    }
  }

  lemma {:induction false} ArgumentsConcat(ds: seq<CallDelta>, tc: CallDelta)
    ensures Arguments(ds + [tc]) == Arguments(ds) + OrEmpty(tc.arguments)
  {
    if ds == [] {
      assert [] + [tc] == [tc] && [tc][1..] == [];
    } else {
      assert (ds + [tc])[1..] == ds[1..] + [tc];
      ArgumentsConcat(ds[1..], tc);
      assert OrEmpty(ds[0].arguments) + (Arguments(ds[1..]) + OrEmpty(tc.arguments)) ==
             Arguments(ds) + OrEmpty(tc.arguments);
    }
  }

  lemma {:induction false} LastIdConcat(ds: seq<CallDelta>, tc: CallDelta, id: string)
    ensures LastId(ds + [tc], id) == if tc.id.Some? then tc.id.value else LastId(ds, id)
  {
    if ds == [] {
      assert [] + [tc] == [tc] && [tc][1..] == [];
    } else {
      assert (ds + [tc])[1..] == ds[1..] + [tc];
      LastIdConcat(ds[1..], tc, if ds[0].id.Some? then ds[0].id.value else id);
    }
  }

  /** A call has the id sent last and the names and arguments sent for its index, run together in order of arrival. */
  lemma {:induction false} CallIsItsFragments(ds: seq<CallDelta>, j: nat)
    ensures CallAt(ds, j) == ToolCall(LastId(For(ds, j), ""), Names(For(ds, j)), Arguments(For(ds, j)))
  {
    if ds != [] {
      var n := |ds| - 1;
      CallIsItsFragments(ds[..n], j);
      assert ds == ds[..n] + [ds[n]];
      ForConcat(ds[..n], ds[n], j);
      NamesConcat(For(ds[..n], j), ds[n]);
      ArgumentsConcat(For(ds[..n], j), ds[n]);
      LastIdConcat(For(ds[..n], j), ds[n], "");
      CallAtStep(ds[..n], ds[n], j);
      hide CallAt, For, Names, Arguments, LastId;
      assert For(ds[..n], j) + [] == For(ds[..n], j);
    }
  }

  lemma {:induction false} LargestIsNamed(ds: seq<CallDelta>)
    ensures ds == [] ==> CallCount(ds) == 0
    ensures ds != [] ==> exists i :: 0 <= i < |ds| && ds[i].index == CallCount(ds) - 1
  {
    if ds != [] {
      var n := |ds| - 1;
      LargestIsNamed(ds[..n]);
      if CallCount(ds) != ds[n].index + 1 {
        var i :| 0 <= i < n && ds[..n][i].index == CallCount(ds[..n]) - 1;
        assert ds[i].index == CallCount(ds) - 1;
      }
    }
  }

  /** The calls of a reply: one for each index up to the largest named, each made of its own fragments. */
  lemma CallsAreTheirFragments(d: Decoder, s: Bytes, cut: bool)
    ensures var r, ds := Reading(d, s, cut), CallDeltas(ChunksOn(d, Lines(d, s, cut)));
            r.Ok? ==>
              && (ds == [] ==> r.value.calls == [])
              && (ds != [] ==> exists i :: 0 <= i < |ds| && ds[i].index == |r.value.calls| - 1)
              && (forall i :: 0 <= i < |ds| ==> ds[i].index < |r.value.calls|)
              && forall j :: 0 <= j < |r.value.calls| ==>
                   r.value.calls[j] == ToolCall(LastId(For(ds, j), ""), Names(For(ds, j)), Arguments(For(ds, j)))
  {
    var ds := CallDeltas(ChunksOn(d, Lines(d, s, cut)));
    CallCountIsLargest(ds);
    LargestIsNamed(ds);
    forall j: nat ensures CallAt(ds, j) == ToolCall(LastId(For(ds, j), ""), Names(For(ds, j)), Arguments(For(ds, j))) {
      CallIsItsFragments(ds, j);
    }
    hide Lines, AllAccepted, CallAt, For, Names, Arguments, LastId, ChunksOn, CallDeltas, CallCount;
  }

  /** An unacceptable line is fatal; a stream that breaks off without one is worth retrying. */
  lemma ReadingFails(d: Decoder, s: Bytes, cut: bool)
    ensures Reading(d, s, cut) == Err(Fatal) <==>
            exists i :: 0 <= i < |Lines(d, s, cut)| && !Accepted(d, Lines(d, s, cut)[i])
    ensures Reading(d, s, cut) == Err(Retryable) <==>
            cut && forall i :: 0 <= i < |Lines(d, s, cut)| ==> Accepted(d, Lines(d, s, cut)[i])
  {
    hide Lines, Accepted, Summary;
    var lines := Lines(d, s, cut);
    if !AllAccepted(d, lines) {
      var i :| 0 <= i < |lines| && !Accepted(d, lines[i]);
      assert !Accepted(d, lines[i]);
    }
  }
}
