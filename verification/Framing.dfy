/** Newline-delimited replies, `McpClient.receive` of scripts/soak_mcp_sessions.py.
    JSON decoding is an arbitrary function of one line. */
module Framing {
  import opened Prelude

  const NEWLINE: byte := 10

  type Line = seq<byte>

  /** What `json.loads` and `message.get("id")` make of a line; `Bad` stands for their exceptions. */
  datatype Parsed<M> = Bad | Message(id: Option<int>, body: M)

  type Decoder<!M> = Line -> Parsed<M>

  /** What one read of the child's stdout delivers. */
  datatype Event = Chunk(data: seq<byte>) | TimedOut | Closed

  datatype Reply<M> = Answer(body: M) | Malformed | NoResponse | SessionClosed

  /** First position of a newline, or the length when there is none. */
  function NewlineAt(s: seq<byte>): (i: nat)
    ensures i <= |s| && NEWLINE !in s[..i]
    ensures i < |s| ==> s[i] == NEWLINE
  {
    if s == [] || s[0] == NEWLINE then 0
    else
      var i := 1 + NewlineAt(s[1..]);
      assert s[..i] == [s[0]] + s[1..][..i - 1];
      i
  }

  predicate IsSpace(b: byte) { b == 32 || 9 <= b <= 13 }

  /** `not line.strip()` */
  predicate Blank(line: Line) { forall b :: b in line ==> IsSpace(b) }

  datatype Scan<M> = Found(body: M, rest: seq<byte>) | Broken(rest: seq<byte>) | NeedMore(rest: seq<byte>)

  /** Consumes complete lines until one answers the request. */
  function ScanFor<M>(s: seq<byte>, id: int, decode: Decoder<M>): Scan<M>
    decreases |s|
  {
    var i := NewlineAt(s);
    if i == |s| then NeedMore(s)
    else if Blank(s[..i]) then ScanFor(s[i + 1..], id, decode)
    else match decode(s[..i])
      case Bad => Broken(s[i + 1..])
      case Message(other, body) =>
        if other == Some(id) then Found(body, s[i + 1..]) else ScanFor(s[i + 1..], id, decode)
  }

  // ----- what a scan returns -----

  /** The line is passed over: blank, or a message for another request. */
  predicate Skipped<M>(line: Line, id: int, decode: Decoder<M>) {
    Blank(line) || (decode(line).Message? && decode(line).id != Some(id))
  }

  /** Complete lines, every one of them passed over. */
  predicate AllSkipped<M>(s: seq<byte>, id: int, decode: Decoder<M>)
    decreases |s|
  {
    s == [] ||
    var i := NewlineAt(s);
    i < |s| && Skipped(s[..i], id, decode) && AllSkipped(s[i + 1..], id, decode)
  }

  lemma {:induction false} NewlineOfLine(line: Line, rest: seq<byte>)
    requires NEWLINE !in line
    ensures NewlineAt(line + [NEWLINE] + rest) == |line|
  {
    var s := line + [NEWLINE] + rest;
    var i := NewlineAt(s);
    assert s[|line|] == NEWLINE;
    assert forall k :: 0 <= k < |line| ==> s[k] == line[k] && line[k] in line;
    assert forall k :: 0 <= k < i ==> s[..i][k] == s[k];
  }

  lemma {:induction false} NewlineInPrefix(s: seq<byte>, t: seq<byte>)
    requires NewlineAt(s) < |s|
    ensures NewlineAt(s + t) == NewlineAt(s)
    ensures (s + t)[..NewlineAt(s)] == s[..NewlineAt(s)]
    ensures (s + t)[NewlineAt(s) + 1..] == s[NewlineAt(s) + 1..] + t
  {
    var i := NewlineAt(s);
    assert s + t == s[..i] + [NEWLINE] + (s[i + 1..] + t);
    NewlineOfLine(s[..i], s[i + 1..] + t);
  }

  /** `line` is the first complete line of `s` that answers the request: everything before it is passed over. */
  ghost predicate FirstReply<M>(s: seq<byte>, id: int, decode: Decoder<M>, body: M, skipped: seq<byte>, line: Line,
                                rest: seq<byte>) {
    && s == skipped + line + [NEWLINE] + rest && NEWLINE !in line
    && AllSkipped(skipped, id, decode)
    && !Blank(line) && decode(line) == Message(Some(id), body)
  }

  lemma {:induction false} SkipOneMore<M>(s: seq<byte>, id: int, decode: Decoder<M>, body: M, skipped: seq<byte>,
                                          line: Line, rest: seq<byte>)
    requires NewlineAt(s) < |s| && Skipped(s[..NewlineAt(s)], id, decode)
    requires FirstReply(s[NewlineAt(s) + 1..], id, decode, body, skipped, line, rest)
    ensures FirstReply(s, id, decode, body, s[..NewlineAt(s)] + [NEWLINE] + skipped, line, rest)
  {
    var first := s[..NewlineAt(s)];
    LineInFront(first, skipped, id, decode);
    SplitAtNewline(s);
    Regroup(first + [NEWLINE], skipped, line, [NEWLINE] + rest);
    assert skipped + line + [NEWLINE] + rest == skipped + line + ([NEWLINE] + rest);
    assert first + [NEWLINE] + skipped + line + [NEWLINE] + rest ==
           first + [NEWLINE] + skipped + line + ([NEWLINE] + rest);
  }

  lemma {:induction false} SplitAtNewline(s: seq<byte>)
    requires NewlineAt(s) < |s|
    ensures s == s[..NewlineAt(s)] + [NEWLINE] + s[NewlineAt(s) + 1..]
  {
  }

  lemma {:induction false} Regroup<T>(a: seq<T>, b: seq<T>, c: seq<T>, d: seq<T>)
    ensures a + (b + c + d) == a + b + c + d
  {
  }

  lemma {:induction false} LineInFront<M>(first: Line, skipped: seq<byte>, id: int, decode: Decoder<M>)
    requires NEWLINE !in first && Skipped(first, id, decode) && AllSkipped(skipped, id, decode)
    ensures AllSkipped(first + [NEWLINE] + skipped, id, decode)
  {
    var longer := first + [NEWLINE] + skipped;
    NewlineOfLine(first, skipped);
    assert longer[..|first|] == first && longer[|first| + 1..] == skipped;
  }

  lemma {:induction false} ReplyAtFront<M>(s: seq<byte>, id: int, decode: Decoder<M>, body: M)
    requires NewlineAt(s) < |s| && !Blank(s[..NewlineAt(s)])
    requires decode(s[..NewlineAt(s)]) == Message(Some(id), body)
    ensures FirstReply(s, id, decode, body, [], s[..NewlineAt(s)], s[NewlineAt(s) + 1..])
  {
    assert s == [] + s[..NewlineAt(s)] + [NEWLINE] + s[NewlineAt(s) + 1..];
  }

  lemma {:induction false} FoundCases<M>(s: seq<byte>, id: int, decode: Decoder<M>, body: M, rest: seq<byte>)
    requires ScanFor(s, id, decode) == Found(body, rest)
    ensures var i := NewlineAt(s);
            && i < |s|
            && (if Blank(s[..i]) || decode(s[..i]) != Message(Some(id), body) then
                  Skipped(s[..i], id, decode) && ScanFor(s[i + 1..], id, decode) == Found(body, rest)
                else rest == s[i + 1..])
  {
  }

  lemma {:induction false} FindReply<M>(s: seq<byte>, id: int, decode: Decoder<M>, body: M, rest: seq<byte>)
    returns (skipped: seq<byte>, line: Line)
    requires ScanFor(s, id, decode) == Found(body, rest)
    ensures FirstReply(s, id, decode, body, skipped, line, rest)
    decreases |s|
  {
    var i := NewlineAt(s);
    FoundCases(s, id, decode, body, rest);
    if Blank(s[..i]) || decode(s[..i]) != Message(Some(id), body) {
      skipped, line := FindReply(s[i + 1..], id, decode, body, rest);
      SkipOneMore(s, id, decode, body, skipped, line, rest);
      skipped := s[..i] + [NEWLINE] + skipped;
    } else {
      ReplyAtFront(s, id, decode, body);
      skipped, line := [], s[..i];
    }
  }

  /** A scan answers with exactly the first complete non-blank line carrying the requested id. */
  lemma {:induction false} FoundIsFirstReply<M>(s: seq<byte>, id: int, decode: Decoder<M>, body: M, rest: seq<byte>)
    requires ScanFor(s, id, decode) == Found(body, rest)
    ensures exists skipped, line :: FirstReply(s, id, decode, body, skipped, line, rest)
  {
    var skipped, line := FindReply(s, id, decode, body, rest);
  }

  lemma {:induction false} FirstReplyIsFound<M>(skipped: seq<byte>, line: Line, rest: seq<byte>, id: int,
                                                decode: Decoder<M>, body: M)
    requires FirstReply(skipped + line + [NEWLINE] + rest, id, decode, body, skipped, line, rest)
    ensures ScanFor(skipped + line + [NEWLINE] + rest, id, decode) == Found(body, rest)
    decreases |skipped|
  {
    var s := skipped + line + [NEWLINE] + rest;
    if skipped == [] {
      assert s == line + [NEWLINE] + rest;
      NewlineOfLine(line, rest);
      assert s[..|line|] == line && s[|line| + 1..] == rest;
    } else {
      var i := NewlineAt(skipped);
      var tail := line + [NEWLINE] + rest;
      assert s == skipped + tail;
      NewlineInPrefix(skipped, tail);
      assert s[..i] == skipped[..i];
      assert s[i + 1..] == skipped[i + 1..] + line + [NEWLINE] + rest;
      FirstReplyIsFound(skipped[i + 1..], line, rest, id, decode, body);
    }
  }

  /** A scan resumed after `t` more bytes have arrived. */
  function Resume<M>(scan: Scan<M>, t: seq<byte>, id: int, decode: Decoder<M>): Scan<M> {
    match scan
    case Found(body, rest) => Found(body, rest + t)
    case Broken(rest) => Broken(rest + t)
    case NeedMore(rest) => ScanFor(rest + t, id, decode)
  }

  lemma {:induction false} ScanStep<M>(s: seq<byte>, t: seq<byte>, id: int, decode: Decoder<M>)
    requires NewlineAt(s) < |s|
    ensures Skipped(s[..NewlineAt(s)], id, decode) ==>
              && ScanFor(s, id, decode) == ScanFor(s[NewlineAt(s) + 1..], id, decode)
              && ScanFor(s + t, id, decode) == ScanFor(s[NewlineAt(s) + 1..] + t, id, decode)
    ensures !Skipped(s[..NewlineAt(s)], id, decode) ==>
              ScanFor(s + t, id, decode) == Resume(ScanFor(s, id, decode), t, id, decode)
  {
    NewlineInPrefix(s, t);
  }

  /** Bytes that arrive later never change what complete lines already decided. */
  lemma {:induction false} ScanExtends<M>(s: seq<byte>, t: seq<byte>, id: int, decode: Decoder<M>)
    ensures ScanFor(s + t, id, decode) == Resume(ScanFor(s, id, decode), t, id, decode)
    decreases |s|
  {
    if NewlineAt(s) < |s| {
      ScanStep(s, t, id, decode);
      if Skipped(s[..NewlineAt(s)], id, decode) { ScanExtends(s[NewlineAt(s) + 1..], t, id, decode); }
    }
  }

  // ----- the stream a client still has to read -----

  /** The stream as the client can observe it: bytes up to the next interruption, and so on.
      How the bytes were cut into reads has no place in it. */
  datatype View = View(bytes: seq<byte>, next: Interruption)
  datatype Interruption = End | Stop(event: Event, view: View)

  function ViewOf(buffer: seq<byte>, pending: seq<Event>): View
    decreases |pending|
  {
    if pending == [] then View(buffer, End)
    else if pending[0].Chunk? then ViewOf(buffer + pending[0].data, pending[1..])
    else View(buffer, Stop(pending[0], ViewOf([], pending[1..])))
  }

  function Prepend(buffer: seq<byte>, v: View): View { View(buffer + v.bytes, v.next) }

  lemma {:induction false} ViewPrepends(a: seq<byte>, b: seq<byte>, pending: seq<Event>)
    ensures ViewOf(a + b, pending) == Prepend(a, ViewOf(b, pending))
    decreases |pending|
  {
    if pending != [] && pending[0].Chunk? {
      assert a + b + pending[0].data == a + (b + pending[0].data);
      ViewPrepends(a, b + pending[0].data, pending[1..]);
    }
  }

  function NoReply<M>(event: Event): Reply<M> { if event == Closed then SessionClosed else NoResponse }

  /** One call of `receive`, as a function of the observable stream alone. */
  function Receiving<M>(v: View, id: int, decode: Decoder<M>): (Reply<M>, View) {
    match ScanFor(v.bytes, id, decode)
    case Found(body, rest) => (Answer(body), View(rest, v.next))
    case Broken(rest) => (Malformed, View(rest, v.next))
    case NeedMore(rest) =>
      match v.next
      case End => (NoResponse, View(rest, End))
      case Stop(event, after) => (NoReply(event), Prepend(rest, after))
  }

  class McpClient<!M> {
    var buffer: seq<byte>
    var pending: seq<Event>  // what the coming reads will deliver; none left counts as a timeout
    const decode: Decoder<M>

    constructor (pending: seq<Event>, decode: Decoder<M>)
      ensures buffer == [] && this.pending == pending && this.decode == decode
    {
      buffer, this.pending, this.decode := [], pending, decode;
    }

    ghost function Stream(): View
      reads this
    {
      ViewOf(buffer, pending)
    }

    /** The inner loop: complete lines already buffered. */
    method DrainLines(id: int) returns (r: Option<Reply<M>>)
      modifies this`buffer
      ensures match ScanFor(old(buffer), id, decode)
              case Found(body, rest) => r == Some(Answer(body)) && buffer == rest
              case Broken(rest) => r == Some(Malformed) && buffer == rest
              case NeedMore(rest) => r == None && buffer == rest
    {
      while NewlineAt(buffer) < |buffer|
        invariant ScanFor(buffer, id, decode) == ScanFor(old(buffer), id, decode)
        decreases |buffer|
      {
        var i := NewlineAt(buffer);
        var line := buffer[..i];
        buffer := buffer[i + 1..];
        if !Blank(line) {
          match decode(line) {
            case Bad => return Some(Malformed);
            case Message(other, body) =>
              if other == Some(id) {
                return Some(Answer(body));
              }
          }
        }
      }
      r := None;
    }

    /** `receive`: the reply and the stream left over depend on the stream alone. */
    method Receive(id: int) returns (r: Reply<M>)
      modifies this`buffer, this`pending
      ensures (r, Stream()) == Receiving(old(Stream()), id, decode)
    {
      while true
        invariant Receiving(Stream(), id, decode) == Receiving(old(Stream()), id, decode)
        decreases |pending|
      {
        ghost var before, events := buffer, pending;
        var drained := DrainLines(id);
        DrainView(before, events, id, decode);
        if drained.Some? {
          return drained.value;
        }
        if pending == [] {
          return NoResponse;
        }
        var event := pending[0];
        pending := pending[1..];
        match event {
          case TimedOut => ViewPrepends(buffer, [], pending); assert buffer + [] == buffer; return NoResponse;
          case Closed => ViewPrepends(buffer, [], pending); assert buffer + [] == buffer; return SessionClosed;
          case Chunk(data) => buffer := buffer + data;
        }
      }
    }
  }

  /** Draining complete lines first decides the call or leaves it undecided with the same outcome. */
  lemma {:induction false} DrainView<M>(buffer: seq<byte>, pending: seq<Event>, id: int, decode: Decoder<M>)
    ensures match ScanFor(buffer, id, decode)
            case Found(body, rest) => Receiving(ViewOf(buffer, pending), id, decode) == (Answer(body), ViewOf(rest,
                pending))
            case Broken(rest) => Receiving(ViewOf(buffer, pending), id, decode) == (Malformed, ViewOf(rest, pending))
            case NeedMore(rest) => Receiving(ViewOf(buffer, pending), id, decode) == Receiving(ViewOf(rest, pending),
                id, decode)
  {
    var tail := ViewOf([], pending);
    assert buffer + [] == buffer;
    ViewPrepends(buffer, [], pending);
    ScanExtends(buffer, tail.bytes, id, decode);
    match ScanFor(buffer, id, decode) {
      case Found(_, rest) => assert rest + [] == rest; ViewPrepends(rest, [], pending);
      case Broken(rest) => assert rest + [] == rest; ViewPrepends(rest, [], pending);
      case NeedMore(rest) => assert rest + [] == rest; ViewPrepends(rest, [], pending);
    }
  }

  // ----- chunk boundaries do not matter -----

  function Concat(chunks: seq<seq<byte>>): seq<byte> {
    if chunks == [] then [] else chunks[0] + Concat(chunks[1..])
  }

  function Reads(chunks: seq<seq<byte>>): seq<Event> {
    seq(|chunks|, i requires 0 <= i < |chunks| => Chunk(chunks[i]))
  }

  /** However a stretch of the stream is cut into reads, the client sees the same stream. */
  lemma {:induction false} ViewOfChunks(buffer: seq<byte>, chunks: seq<seq<byte>>, later: seq<Event>)
    ensures ViewOf(buffer, Reads(chunks) + later) == ViewOf(buffer + Concat(chunks), later)
    decreases |chunks|
  {
    if chunks == [] {
      assert buffer + [] == buffer && Reads(chunks) + later == later;
    } else {
      var events := Reads(chunks) + later;
      assert events[0] == Chunk(chunks[0]) && events[1..] == Reads(chunks[1..]) + later;
      ViewOfChunks(buffer + chunks[0], chunks[1..], later);
      assert buffer + chunks[0] + Concat(chunks[1..]) == buffer + Concat(chunks);
    }
  }

  /** The replies of a whole sequence of calls. */
  function Replies<M>(v: View, ids: seq<int>, decode: Decoder<M>): (seq<Reply<M>>, View)
    decreases |ids|
  {
    if ids == [] then ([], v)
    else
      var (r, next) := Receiving(v, ids[0], decode);
      var (rs, last) := Replies(next, ids[1..], decode);
      ([r] + rs, last)
  }

  method ReceiveAll<M>(client: McpClient<M>, ids: seq<int>) returns (rs: seq<Reply<M>>)
    modifies client
    ensures (rs, client.Stream()) == Replies(old(client.Stream()), ids, client.decode)
    decreases |ids|
  {
    if ids == [] {
      return [];
    }
    var r := client.Receive(ids[0]);
    var rest := ReceiveAll(client, ids[1..]);
    rs := [r] + rest;
  }

  /** Two ways of cutting the same bytes into reads give the same replies to every sequence of
      calls, and leave the same stream behind. */
  lemma {:induction false} ChunkingIsInvisible<M>(buffer: seq<byte>, a: seq<seq<byte>>, b: seq<seq<byte>>,
                                                  later: seq<Event>,
                                                  ids: seq<int>, decode: Decoder<M>)
    requires Concat(a) == Concat(b)
    ensures Replies(ViewOf(buffer, Reads(a) + later), ids, decode) == Replies(ViewOf(buffer, Reads(b) + later), ids,
        decode)
  {
    ViewOfChunks(buffer, a, later);
    ViewOfChunks(buffer, b, later);
  }
}
