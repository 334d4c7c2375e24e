/** The streaming model client: network chunks to lines, lines to one reply. */
module ModelStream {
  import opened Bytes
  import opened Wrappers
  import Words

  datatype ToolCall = ToolCall(id: string, name: string, arguments: string)

  datatype ModelReply = ModelReply(content: string, calls: seq<ToolCall>, inputTokens: nat, outputTokens: nat)

  /** `Retryable` is worth trying again later; `Fatal` is not. */
  datatype ModelError = Retryable | Fatal

  // ----- One stream line -----

  /** The fields of a JSON chunk that are looked at; a missing index reads as 0. */
  datatype Chunk = Chunk(isError: bool, usage: Option<Usage>, delta: Option<Delta>)

  datatype Usage = Usage(prompt: nat, completion: nat)

  datatype Delta = Delta(content: Option<string>, calls: seq<CallDelta>)

  datatype CallDelta = CallDelta(index: nat, id: Option<string>, name: Option<string>, arguments: Option<string>)

  /** Lossy UTF-8 decoding and JSON reading, left abstract. */
  datatype Decoder = Decoder(lossy: Bytes -> string, json: string -> Option<Chunk>)

  const MAX_TOOL_CALL_INDEX := 16

  /** What a line carries, unless it is blank, a comment, another field or the end marker. */
  function Payload(line: string): Option<string> {
    if "data:" <= line then
      var data := Words.Trim(line[5..]);
      if data == "" || data == "[DONE]" then None else Some(data)
    else None
  }

  /** The chunk on a line, if there is one and it can be read. */
  function ChunkOn(d: Decoder, line: string): Option<Chunk> {
    match Payload(line)
    case None => None
    case Some(data) => d.json(data)
  }

  function CallsOn(c: Chunk): seq<CallDelta> {
    if c.delta.Some? then c.delta.value.calls else []
  }

  function ContentOn(c: Chunk): string {
    if c.delta.Some? && c.delta.value.content.Some? then c.delta.value.content.value else ""
  }

  /** Lines that do not end the reply with an error. */
  predicate Accepted(d: Decoder, line: string) {
    Payload(line).Some? ==>
      && ChunkOn(d, line).Some?
      && var c := ChunkOn(d, line).value;
         !c.isError && forall i :: 0 <= i < |CallsOn(c)| ==> CallsOn(c)[i].index <= MAX_TOOL_CALL_INDEX
  }

  /** The text shown to the user for a line. */
  function ShownOn(d: Decoder, line: string): seq<string> {
    match ChunkOn(d, line)
    case None => []
    case Some(c) => if c.isError || ContentOn(c) == "" then [] else [ContentOn(c)]
  }

  // ----- What a list of lines amounts to -----

  predicate AllAccepted(d: Decoder, lines: seq<string>) {
    forall i :: 0 <= i < |lines| ==> Accepted(d, lines[i])
  }

  function ChunksOn(d: Decoder, lines: seq<string>): seq<Chunk> {
    if lines == [] then []
    else
      var n := |lines| - 1;
      ChunksOn(d, lines[..n]) + (match ChunkOn(d, lines[n]) case None => [] case Some(c) => [c])
  }

  /** Text is shown line by line, up to and including the first line that is an error. */
  function Shown(d: Decoder, lines: seq<string>): seq<string> {
    if lines == [] then []
    else ShownOn(d, lines[0]) + if Accepted(d, lines[0]) then Shown(d, lines[1..]) else []
  }

  function Joined(texts: seq<string>): string {
    if texts == [] then "" else Joined(texts[..|texts| - 1]) + texts[|texts| - 1]
  }

  function Content(chunks: seq<Chunk>): string {
    if chunks == [] then "" else Content(chunks[..|chunks| - 1]) + ContentOn(chunks[|chunks| - 1])
  }

  function CallDeltas(chunks: seq<Chunk>): seq<CallDelta> {
    if chunks == [] then [] else CallDeltas(chunks[..|chunks| - 1]) + CallsOn(chunks[|chunks| - 1])
  }

  function LastUsage(chunks: seq<Chunk>): Usage {
    if chunks == [] then Usage(0, 0)
    else if chunks[|chunks| - 1].usage.Some? then chunks[|chunks| - 1].usage.value
    else LastUsage(chunks[..|chunks| - 1])
  }

  /** One more than the largest index named. */
  function CallCount(ds: seq<CallDelta>): nat {
    if ds == [] then 0
    else
      var n := CallCount(ds[..|ds| - 1]);
      if ds[|ds| - 1].index < n then n else ds[|ds| - 1].index + 1
  }

  /** The fragments for index `j`, joined in arrival order. */
  function ArgumentsAt(ds: seq<CallDelta>, j: nat): string {
    if ds == [] then ""
    else
      var last := ds[|ds| - 1];
      ArgumentsAt(ds[..|ds| - 1], j) + if last.index == j then OrEmpty(last.arguments) else ""
  }

  function NameAt(ds: seq<CallDelta>, j: nat): string {
    if ds == [] then ""
    else
      var last := ds[|ds| - 1];
      NameAt(ds[..|ds| - 1], j) + if last.index == j then OrEmpty(last.name) else ""
  }

  /** The last id sent for index `j`. */
  function IdAt(ds: seq<CallDelta>, j: nat): string {
    if ds == [] then ""
    else
      var last := ds[|ds| - 1];
      if last.index == j && last.id.Some? then last.id.value else IdAt(ds[..|ds| - 1], j)
  }

  function CallAt(ds: seq<CallDelta>, j: nat): ToolCall {
    ToolCall(IdAt(ds, j), NameAt(ds, j), ArgumentsAt(ds, j))
  }

  function Calls(ds: seq<CallDelta>): seq<ToolCall> {
    seq(CallCount(ds), j requires j >= 0 => CallAt(ds, j))
  }

  /** The reply a sequence of chunks spells out. */
  function Summary(chunks: seq<Chunk>): ModelReply {
    var usage := LastUsage(chunks);
    ModelReply(Content(chunks), Calls(CallDeltas(chunks)), usage.prompt, usage.completion)
  }

  // ----- The accumulator -----

  predicate SmallIndices(ds: seq<CallDelta>) {
    forall i :: 0 <= i < |ds| ==> ds[i].index <= MAX_TOOL_CALL_INDEX
  }

  lemma {:induction false} CallCountIsLargest(ds: seq<CallDelta>)
    ensures forall i :: 0 <= i < |ds| ==> ds[i].index < CallCount(ds)
    ensures SmallIndices(ds) ==> CallCount(ds) <= MAX_TOOL_CALL_INDEX + 1
  {
    if ds != [] {
      CallCountIsLargest(ds[..|ds| - 1]);
    }
  }

  /** Indices nobody has named stand for an empty call. */
  lemma {:induction false} UnnamedCallIsEmpty(ds: seq<CallDelta>, j: nat)
    requires j >= CallCount(ds)
    ensures CallAt(ds, j) == ToolCall("", "", "")
  {
    if ds != [] {
      UnnamedCallIsEmpty(ds[..|ds| - 1], j);
    }
  }

  /** One more fragment changes the call at its own index only. */
  lemma CallAtStep(ds: seq<CallDelta>, tc: CallDelta, j: nat)
    ensures CallAt(ds + [tc], j) ==
            if tc.index != j then CallAt(ds, j)
            else ToolCall(if tc.id.Some? then tc.id.value else IdAt(ds, j),
                          NameAt(ds, j) + OrEmpty(tc.name),
                          ArgumentsAt(ds, j) + OrEmpty(tc.arguments))
  {
    assert (ds + [tc])[..|ds|] == ds;
  }

  /** How one more chunk changes the reply. */
  lemma SummaryStep(chunks: seq<Chunk>, c: Chunk)
    ensures var before := Summary(chunks);
            Summary(chunks + [c]) ==
            ModelReply(before.content + ContentOn(c),
                       Calls(CallDeltas(chunks) + CallsOn(c)),
                       if c.usage.Some? then c.usage.value.prompt else before.inputTokens,
                       if c.usage.Some? then c.usage.value.completion else before.outputTokens)
  {
    assert (chunks + [c])[..|chunks|] == chunks;
    hide Calls;
  }

  lemma EmptyBack<T>(a: seq<T>)
    ensures a + [] == a
  {
  }

  lemma TakeOneMore<T>(front: seq<T>, s: seq<T>, k: nat)
    requires k < |s|
    ensures s[..k + 1] == s[..k] + [s[k]]
    ensures front + s[..k + 1] == front + s[..k] + [s[k]]
  {
  }

  /** Folds stream lines into one reply. */
  class StreamAccumulator {
    var reply: ModelReply
    ghost var chunks: seq<Chunk>

    ghost predicate Valid()
      reads this
    {
      reply == Summary(chunks)
    }

    constructor ()
      ensures Valid() && chunks == []
    {
      reply := ModelReply("", [], 0, 0);
      chunks := [];
    }

    /** Merge one call fragment; a large index is refused before anything grows. */
    method PushCall(tc: CallDelta, ghost ds: seq<CallDelta>) returns (ok: bool)
      requires reply.calls == Calls(ds)
      modifies this`reply
      ensures ok <==> tc.index <= MAX_TOOL_CALL_INDEX
      ensures !ok ==> reply == old(reply)
      ensures ok ==> reply == old(reply).(calls := Calls(ds + [tc]))
    {
      var i := tc.index;
      if i > MAX_TOOL_CALL_INDEX {
        return false;
      }
      var calls := reply.calls;
      while |calls| <= i
        invariant reply == old(reply)
        invariant |Calls(ds)| <= |calls|
        invariant |calls| <= |Calls(ds)| || |calls| <= i + 1
        invariant forall j :: 0 <= j < |calls| ==> calls[j] == CallAt(ds, j)
        decreases i - |calls|
      {
        UnnamedCallIsEmpty(ds, |calls|);
        calls := calls + [ToolCall("", "", "")];
      }
      var call := calls[i];
      if tc.id.Some? {
        call := call.(id := tc.id.value);
      }
      if tc.name.Some? {
        call := call.(name := call.name + tc.name.value);
      }
      if tc.arguments.Some? {
        call := call.(arguments := call.arguments + tc.arguments.value);
      }
      calls := calls[i := call];
      assert (ds + [tc])[..|ds|] == ds;
      forall j | 0 <= j < |calls| ensures calls[j] == CallAt(ds + [tc], j) {
        CallAtStep(ds, tc, j);
      }
      assert calls == Calls(ds + [tc]);
      reply := reply.(calls := calls);
      return true;
    }

    /** Merge the fragments of one chunk, in order, stopping at a refused one. */
    method PushCalls(calls: seq<CallDelta>, ghost ds: seq<CallDelta>) returns (ok: bool)
      requires reply.calls == Calls(ds)
      modifies this`reply
      ensures ok <==> SmallIndices(calls)
      ensures ok ==> reply == old(reply).(calls := Calls(ds + calls))
    {
      hide Calls;
      var k := 0;
      EmptyBack(ds);
      while k < |calls|
        invariant 0 <= k <= |calls|
        invariant reply == old(reply).(calls := Calls(ds + calls[..k]))
        invariant SmallIndices(calls[..k])
      {
        ok := PushCall(calls[k], ds + calls[..k]);
        if !ok {
          return;
        }
        TakeOneMore(ds, calls, k);
        k := k + 1;
      }
      assert calls[..k] == calls;
      return true;
    }

    method PushLine(d: Decoder, line: string) returns (ok: bool, texts: seq<string>)
      requires Valid()
      modifies this
      ensures ok <==> Accepted(d, line)
      ensures texts == ShownOn(d, line)
      ensures !("data:" <= line) ==> ok && reply == old(reply) && texts == []
      ensures ok ==>
                && Valid()
                && chunks == match ChunkOn(d, line) case None => old(chunks) case Some(c) => old(chunks) + [c]
    {
      texts := [];
      if !("data:" <= line) {
        return true, texts;
      }
      var data := Words.Trim(line[5..]);
      if data == "" || data == "[DONE]" {
        return true, texts;
      }
      assert Payload(line) == Some(data);
      hide Payload, Words.Trim, Calls, CallDeltas, Content, LastUsage;
      var parsed := d.json(data);
      if parsed.None? {
        return false, texts;
      }
      var chunk := parsed.value;
      if chunk.isError {
        return false, texts;
      }
      SummaryStep(chunks, chunk);
      EmptyBack(reply.content);
      EmptyBack(CallDeltas(chunks));
      ghost var ds := CallDeltas(chunks);
      chunks := chunks + [chunk];
      if chunk.usage.Some? {
        reply := reply.(inputTokens := chunk.usage.value.prompt, outputTokens := chunk.usage.value.completion);
      }
      if chunk.delta.None? {
        return true, texts;
      }
      var delta := chunk.delta.value;
      if delta.content.Some? && delta.content.value != "" {
        texts := [delta.content.value];
        reply := reply.(content := reply.content + delta.content.value);
      }
      ok := PushCalls(delta.calls, ds);
    }
  }

  // ----- Bytes to lines -----

  const NEWLINE: Byte := 10

  function TrimLineEnd(s: string): string {
    if s != "" && (s[|s| - 1] == '\r' || s[|s| - 1] == '\n') then TrimLineEnd(s[..|s| - 1]) else s
  }

  /** The lines of a byte stream; an unterminated last line counts unless the connection broke off. */
  function Lines(d: Decoder, s: Bytes, cut: bool): seq<string>
    decreases |s|
  {
    var n := IndexOf(s, NEWLINE);
    if n < |s| then [TrimLineEnd(d.lossy(s[..n + 1]))] + Lines(d, s[n + 1..], cut)
    else if s == [] || cut then []
    else [Words.TrimEnd(d.lossy(s))]
  }

  /** All the bytes received, however they were cut. */
  function Flat(chunks: seq<Bytes>): Bytes {
    if chunks == [] then [] else chunks[0] + Flat(chunks[1..])
  }

  /** What reading a stream gives: the reply its lines spell out, unless a line is an error or the stream broke off. */
  function Reading(d: Decoder, s: Bytes, cut: bool): Result<ModelReply, ModelError> {
    var lines := Lines(d, s, cut);
    if !AllAccepted(d, lines) then Err(Fatal)
    else if cut then Err(Retryable)
    else Ok(Summary(ChunksOn(d, lines)))
  }

  lemma {:induction false} ShownSplit(d: Decoder, a: seq<string>, b: seq<string>)
    requires AllAccepted(d, a)
    ensures Shown(d, a + b) == Shown(d, a) + Shown(d, b)
  {
    if a == [] {
      assert a + b == b;
    } else {
      assert (a + b)[1..] == a[1..] + b;
      ShownSplit(d, a[1..], b);
    }
  }

  /** An accepted line adds its text and its chunk. */
  lemma AcceptedLine(d: Decoder, done: seq<string>, line: string)
    requires AllAccepted(d, done) && Accepted(d, line)
    ensures AllAccepted(d, done + [line])
    ensures Shown(d, done + [line]) == Shown(d, done) + ShownOn(d, line)
    ensures ChunksOn(d, done + [line]) ==
            match ChunkOn(d, line) case None => ChunksOn(d, done) case Some(c) => ChunksOn(d, done) + [c]
  {
    ShownSplit(d, done, [line]);
    assert (done + [line])[..|done|] == done;
    hide Accepted, ShownOn, ChunkOn;
  }

  /** A rejected line is the last one to show anything. */
  lemma RejectedLine(d: Decoder, done: seq<string>, line: string, rest: seq<string>)
    requires AllAccepted(d, done) && !Accepted(d, line)
    ensures !AllAccepted(d, done + ([line] + rest))
    ensures Shown(d, done + ([line] + rest)) == Shown(d, done) + ShownOn(d, line)
  {
    ShownSplit(d, done, [line] + rest);
    assert (done + ([line] + rest))[|done|] == line;
  }

  lemma PrefixAtHand(a: Bytes, b: Bytes, n: nat)
    requires n < |a|
    ensures (a + b)[..n] == a[..n] && (a + b)[n] == a[n]
    ensures (a + b)[..n + 1] == a[..n + 1] && (a + b)[n + 1..] == a[n + 1..] + b
  {
  }

  /** The line found in the bytes at hand is the first line of everything still to come. */
  lemma LineAtHand(d: Decoder, pending: Bytes, later: Bytes, cut: bool)
    requires NEWLINE in pending
    ensures var n := IndexOf(pending, NEWLINE);
            Lines(d, pending + later, cut) ==
            [TrimLineEnd(d.lossy(pending[..n + 1]))] + Lines(d, pending[n + 1..] + later, cut)
  {
    var n := IndexOf(pending, NEWLINE);
    var s := pending + later;
    hide IndexOf, TrimLineEnd;
    PrefixAtHand(pending, later, n);
    IndexOfAt(s, NEWLINE, n);
  }

  /** What the read loop knows between two lines. */
  ghost predicate Reached(d: Decoder, s: Bytes, cut: bool, done: seq<string>, left: Bytes) {
    Lines(d, s, cut) == done + Lines(d, left, cut) && AllAccepted(d, done)
  }

  /** The next line either moves the read on or ends it. */
  lemma NextLine(d: Decoder, s: Bytes, cut: bool, done: seq<string>, left: Bytes, line: string, after: Bytes)
    requires Reached(d, s, cut, done, left)
    requires Lines(d, left, cut) == [line] + Lines(d, after, cut)
    ensures Accepted(d, line) ==>
              && Reached(d, s, cut, done + [line], after)
              && Shown(d, done + [line]) == Shown(d, done) + ShownOn(d, line)
              && ChunksOn(d, done + [line]) ==
                 match ChunkOn(d, line) case None => ChunksOn(d, done) case Some(c) => ChunksOn(d, done) + [c]
    ensures !Accepted(d, line) ==>
              && Reading(d, s, cut) == Err(Fatal)
              && Shown(d, Lines(d, s, cut)) == Shown(d, done) + ShownOn(d, line)
  {
    hide Lines, Accepted, Shown, ShownOn, ChunksOn, ChunkOn, AllAccepted;
    var rest := Lines(d, after, cut);
    assert done + ([line] + rest) == done + [line] + rest;
    if Accepted(d, line) {
      AcceptedLine(d, done, line);
    } else {
      RejectedLine(d, done, line, rest);
    }
  }

  lemma StartOfStream(d: Decoder, s: Bytes, cut: bool)
    ensures Reached(d, s, cut, [], [] + s)
    ensures Shown(d, []) == [] && ChunksOn(d, []) == []
  {
    assert [] + s == s;
    assert [] + Lines(d, s, cut) == Lines(d, s, cut);
  }

  lemma TakeChunk(pending: Bytes, received: seq<Bytes>, i: nat)
    requires i < |received|
    ensures pending + Flat(received[i..]) == pending + received[i] + Flat(received[i + 1..])
  {
    assert received[i..][0] == received[i] && received[i..][1..] == received[i + 1..];
    assert pending + (received[i] + Flat(received[i + 1..])) == pending + received[i] + Flat(received[i + 1..]);
  }

  /** The bytes behind the last newline. */
  lemma LastLine(d: Decoder, pending: Bytes, cut: bool)
    requires NEWLINE !in pending
    ensures pending + Flat([]) == pending
    ensures Lines(d, [], cut) == []
    ensures Lines(d, pending, cut) ==
            if pending == [] || cut then [] else [Words.TrimEnd(d.lossy(pending))] + Lines(d, [], cut)
  {
  }

  lemma EndOfStream(d: Decoder, s: Bytes, cut: bool, done: seq<string>, left: Bytes)
    requires Reached(d, s, cut, done, left) && Lines(d, left, cut) == []
    ensures Lines(d, s, cut) == done
    ensures Reading(d, s, cut) == if cut then Err(Retryable) else Ok(Summary(ChunksOn(d, done)))
  {
  }

  /** Read the body of a response; `cut` says that the connection fails after the last chunk. */
  method ReadStream(d: Decoder, received: seq<Bytes>, cut: bool)
    returns (r: Result<ModelReply, ModelError>, texts: seq<string>)
    ensures r == Reading(d, Flat(received), cut)
    ensures texts == Shown(d, Lines(d, Flat(received), cut))
  {
    hide Lines, Reached, Reading, Shown, ChunksOn, Flat, Accepted, ShownOn, ChunkOn, TrimLineEnd, IndexOf, Summary;
    var acc := new StreamAccumulator();
    ghost var all := Flat(received);
    ghost var done: seq<string> := [];
    var pending: Bytes := [];
    texts := [];
    StartOfStream(d, all, cut);
    var i := 0;
    assert received[0..] == received;
    while i < |received|
      invariant 0 <= i <= |received| && NEWLINE !in pending
      invariant Reached(d, all, cut, done, pending + Flat(received[i..]))
      invariant acc.Valid() && acc.chunks == ChunksOn(d, done) && texts == Shown(d, done)
    {
      TakeChunk(pending, received, i);
      pending := pending + received[i];
      i := i + 1;
      ghost var later := Flat(received[i..]);
      while NEWLINE in pending
        invariant Reached(d, all, cut, done, pending + later)
        invariant acc.Valid() && acc.chunks == ChunksOn(d, done) && texts == Shown(d, done)
        decreases |pending|
      {
        ghost var left := pending + later;
        var n := IndexOf(pending, NEWLINE);
        var line := TrimLineEnd(d.lossy(pending[..n + 1]));
        LineAtHand(d, pending, later, cut);
        pending := pending[n + 1..];
        NextLine(d, all, cut, done, left, line, pending + later);
        var ok, shown := acc.PushLine(d, line);
        texts := texts + shown;
        if !ok {
          return Err(Fatal), texts;
        }
        done := done + [line];
      }
    }
    assert received[i..] == [];
    LastLine(d, pending, cut);
    if cut {
      EndOfStream(d, all, cut, done, pending);
      return Err(Retryable), texts;
    }
    if pending != [] {
      var line := Words.TrimEnd(d.lossy(pending));
      NextLine(d, all, cut, done, pending, line, []);
      var ok, shown := acc.PushLine(d, line);
      texts := texts + shown;
      if !ok {
        return Err(Fatal), texts;
      }
      done := done + [line];
      pending := [];
    }
    EndOfStream(d, all, cut, done, pending);
    return Ok(acc.reply), texts;
  }

  // ----- What holds of every stream -----

  lemma {:induction false} ContentSplit(a: seq<Chunk>, c: Option<Chunk>)
    ensures Content(a + match c case None => [] case Some(x) => [x]) ==
            Content(a) + match c case None => "" case Some(x) => ContentOn(x)
  {
    match c
    case None => assert a + [] == a;
    case Some(x) => assert (a + [x])[..|a|] == a;
  }

  lemma JoinedSplit(a: seq<string>, b: seq<string>)
    requires |b| <= 1
    ensures Joined(a + b) == Joined(a) + if b == [] then "" else b[0]
  {
    if b == [] {
      assert a + b == a;
    } else {
      assert (a + b)[..|a|] == a;
    }
  }

  /** The text shown is the text recorded. */
  lemma {:induction false} ShownIsContent(d: Decoder, lines: seq<string>)
    requires AllAccepted(d, lines)
    ensures Joined(Shown(d, lines)) == Content(ChunksOn(d, lines))
  {
    if lines != [] {
      var n := |lines| - 1;
      var front, line := lines[..n], lines[n];
      assert lines == front + [line];
      ShownIsContent(d, front);
      AcceptedLine(d, front, line);
      JoinedSplit(Shown(d, front), ShownOn(d, line));
      ContentSplit(ChunksOn(d, front), ChunkOn(d, line));
    }
  }

  lemma {:induction false} AcceptedIndicesAreSmall(d: Decoder, lines: seq<string>)
    requires AllAccepted(d, lines)
    ensures SmallIndices(CallDeltas(ChunksOn(d, lines)))
  {
    if lines != [] {
      var n := |lines| - 1;
      var before := ChunksOn(d, lines[..n]);
      AcceptedIndicesAreSmall(d, lines[..n]);
      assert Accepted(d, lines[n]);
      match ChunkOn(d, lines[n])
      case None => EmptyBack(before);
      case Some(c) =>
        assert Payload(lines[n]).Some?;
        assert (before + [c])[..|before|] == before;
    }
  }

  /**
    A stream yields a reply exactly when it arrives whole and every line is acceptable. Then there are at most
    17 calls, the text shown along the way is the content, and each call holds its index's fragments in order.
   */
  lemma SuccessfulReading(d: Decoder, s: Bytes, cut: bool)
    ensures var lines := Lines(d, s, cut);
            var r := Reading(d, s, cut);
            && (r.Ok? <==> !cut && AllAccepted(d, lines))
            && (r.Ok? ==>
                  var ds := CallDeltas(ChunksOn(d, lines));
                  && |r.value.calls| <= 17
                  && Joined(Shown(d, lines)) == r.value.content
                  && (forall i :: 0 <= i < |ds| ==> ds[i].index < |r.value.calls|)
                  && forall j :: 0 <= j < |r.value.calls| ==> r.value.calls[j].arguments == ArgumentsAt(ds, j))
  {
    var lines := Lines(d, s, cut);
    if AllAccepted(d, lines) {
      ShownIsContent(d, lines);
      AcceptedIndicesAreSmall(d, lines);
      CallCountIsLargest(CallDeltas(ChunksOn(d, lines)));
    }
  }

  // ----- One request -----

  /** What one attempt to send the request gives. */
  datatype Response = Refused(error: ModelError) | Streaming(received: seq<Bytes>, cut: bool)

  /** Send, and send once more if the first attempt is worth retrying; nothing is retried once text is arriving. */
  method Complete(d: Decoder, first: Response, second: Response)
    returns (r: Result<ModelReply, ModelError>, texts: seq<string>, sent: nat)
    ensures sent == if first == Refused(Retryable) then 2 else 1
    ensures var used := if sent == 2 then second else first;
            && (used.Refused? ==> r == Err(used.error) && texts == [])
            && (used.Streaming? ==>
                  && r == Reading(d, Flat(used.received), used.cut)
                  && texts == Shown(d, Lines(d, Flat(used.received), used.cut)))
  {
    var response := first;
    sent := 1;
    if response.Refused? && response.error.Retryable? {
      response := second;
      sent := 2;
    }
    match response
    case Refused(error) => return Err(error), [], sent;
    case Streaming(received, cut) =>
      r, texts := ReadStream(d, received, cut);
  }
}
