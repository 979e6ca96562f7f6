/** The response printer: status line, headers, and a plain or chunked body. */
module HttpOutputs {
  import opened Bytes
  import opened Sockets
  import opened HttpLines
  import opened HttpUtil
  import opened HttpRequests
  import opened HttpBodies

  const HTTP_1_1_STR: bytes := Lit("HTTP/1.1 ")
  const TRANSFER_ENCODING: bytes := Lit("transfer-encoding")
  const CONTENT_LENGTH: bytes := Lit("content-length")
  const CHUNKED: bytes := Lit("chunked")
  const LAST_SIZE: bytes := [48]
  const LAST_CHUNK: bytes := [48, 13, 10, 13, 10]

  // ------------------------------------------------------ headers in some order

  /** Every key of the map is the case-folded name it is filed under. */
  ghost predicate Filed(m: HeaderMap) {
    forall k :: k in m ==> Lower(m[k].name) == k
  }

  /** The entries of the map, each once, in some order of iteration. */
  ghost predicate IsOrder(m: HeaderMap, hs: seq<Header>) {
    && (forall i :: 0 <= i < |hs| ==> Lower(hs[i].name) in m && m[Lower(hs[i].name)] == hs[i])
    && (forall i, j :: 0 <= i < j < |hs| ==> Lower(hs[i].name) != Lower(hs[j].name))
    && (forall k :: k in m ==> exists i :: 0 <= i < |hs| && Lower(hs[i].name) == k)
  }

  ghost predicate PrintableMap(m: HeaderMap) {
    forall k :: k in m ==> WellFormedHeader(m[k])
  }

  /** Headers with different names are all in the map they are put into, and nothing else is. */
  lemma {:induction false} PutAllDistinct(m: HeaderMap, hs: seq<Header>)
    requires forall i, j :: 0 <= i < j < |hs| ==> Lower(hs[i].name) != Lower(hs[j].name)
    requires forall i :: 0 <= i < |hs| ==> Lower(hs[i].name) !in m
    ensures forall k :: k in PutAll(m, hs) <==> k in m || exists i :: 0 <= i < |hs| && Lower(hs[i].name) == k
    ensures forall k :: k in m ==> PutAll(m, hs)[k] == m[k]
    ensures forall i :: 0 <= i < |hs| ==> PutAll(m, hs)[Lower(hs[i].name)] == hs[i]
    decreases |hs|
  {
    if hs != [] {
      var m1 := Put(m, hs[0].name, hs[0].value);
      var rest := hs[1..];
      assert forall i :: 0 <= i < |rest| ==> rest[i] == hs[i + 1];
      assert hs[0] == Header(hs[0].name, hs[0].value);
      PutAllDistinct(m1, rest);
      forall i | 0 <= i < |hs|
        ensures Lower(hs[i].name) in PutAll(m, hs) && PutAll(m, hs)[Lower(hs[i].name)] == hs[i]
      {
        if 0 < i {
          assert rest[i - 1] == hs[i];
        }
      }
      forall k | k in PutAll(m, hs) && k !in m
        ensures exists i :: 0 <= i < |hs| && Lower(hs[i].name) == k
      {
        if k !in m1 {
          var i :| 0 <= i < |rest| && Lower(rest[i].name) == k;
          assert Lower(hs[i + 1].name) == k;
        } else {
          assert Lower(hs[0].name) == k;
        }
      }
    }
  }

  /** Whatever the order of iteration, putting the entries back rebuilds the map. */
  lemma OrderRebuilds(m: HeaderMap, hs: seq<Header>)
    requires IsOrder(m, hs)
    ensures PutAll(map[], hs) == m
  {
    PutAllDistinct(map[], hs);
    var r := PutAll(map[], hs);
    forall k | k in m ensures k in r && r[k] == m[k] {
      var i :| 0 <= i < |hs| && Lower(hs[i].name) == k;
    }
    assert r.Keys == m.Keys;
  }

  /**
   * The printed header section, in any order of iteration, is read back as the same
   * case-insensitive map, and reading stops exactly at its blank line.
   */
  lemma HeaderSectionRoundTrip(m: HeaderMap, hs: seq<Header>, tail: bytes)
    requires IsOrder(m, hs) && PrintableMap(m)
    ensures HeadersSpec(HeadersOnWire(hs, tail), map[]) == HeadersResult(m, true, tail)
  {
    HeadersRoundTrip(hs, map[], tail);
    OrderRebuilds(m, hs);
  }

  // ------------------------------------------------------------------ the body

  /** One call that adds to the body. */
  datatype OutCall = Wrote(data: bytes) | Ended

  function Emitted(chunked: bool, call: OutCall): bytes {
    if !chunked then (if call.Wrote? then call.data else [])
    else if call.Ended? then LAST_CHUNK
    else ToChars(|call.data|, HEX_BASE) + (CRLF + (call.data + CRLF))
  }

  function EmittedAll(chunked: bool, calls: seq<OutCall>): bytes {
    if calls == [] then []
    else EmittedAll(chunked, calls[..|calls| - 1]) + Emitted(chunked, calls[|calls| - 1])
  }

  lemma EmittedAppend(chunked: bool, calls: seq<OutCall>, call: OutCall)
    ensures EmittedAll(chunked, calls + [call]) == EmittedAll(chunked, calls) + Emitted(chunked, call)
  {
    assert (calls + [call])[..|calls|] == calls;
  }

  function Writes(ws: seq<bytes>): seq<OutCall> {
    seq(|ws|, i requires 0 <= i < |ws| => Wrote(ws[i]))
  }

  function ChunksOf(ws: seq<bytes>): seq<Chunk> {
    seq(|ws|, i requires 0 <= i < |ws| => Chunk(ToChars(|ws[i]|, HEX_BASE), ws[i]))
  }

  /** The body that a run of writes puts on the wire. */
  function SentBody(ws: seq<bytes>): Body {
    Chunked([], [], ChunksOf(ws), LAST_SIZE)
  }

  ghost predicate Writable(ws: seq<bytes>) {
    forall i :: 0 <= i < |ws| ==> 0 < |ws[i]| <= LONG_MAX
  }

  lemma {:induction false} DigitsHaveNoLineFeed(n: nat)
    ensures LF !in NatToChars(n, HEX_BASE)
  {
    NatToCharsValue(n, HEX_BASE);
    var s := NatToChars(n, HEX_BASE);
    assert forall i :: 0 <= i < |s| ==> DigitValue(s[i], HEX_BASE) >= 0;
    assert DigitValue(LF, HEX_BASE) < 0;
  }

  /** Every chunk header that is printed is one the decoder reads as the size of its data. */
  lemma SentBodyIsWellFormed(ws: seq<bytes>)
    requires Writable(ws)
    ensures SentBody(ws).WellFormed()
  {
    var cs := ChunksOf(ws);
    forall i | 0 <= i < |cs| ensures cs[i].WellFormed() {
      SizeIsRead(|ws[i]|);
    }
    SizeIsRead(0);
    assert LAST_SIZE == ToChars(0, HEX_BASE);
  }

  lemma SizeIsRead(n: nat)
    requires n <= LONG_MAX
    ensures LF !in ToChars(n, HEX_BASE) && LongFromChars(ToChars(n, HEX_BASE), HEX_BASE) == Parsed(n)
  {
    DigitsHaveNoLineFeed(n);
    ToCharsFromChars(n, HEX_BASE, LONG_MIN, LONG_MAX, []);
    assert ToChars(n, HEX_BASE) + [] == ToChars(n, HEX_BASE);
  }

  lemma {:induction false} ContentOfWrites(ws: seq<bytes>)
    ensures ChunkData(ChunksOf(ws)) == Concat(ws)
  {
    if ws != [] {
      assert ChunksOf(ws)[1..] == ChunksOf(ws[1..]);
      ContentOfWrites(ws[1..]);
    }
  }

  lemma {:induction false} WritesAreChunks(ws: seq<bytes>, more: seq<Chunk>, tail: bytes)
    ensures EmittedAll(true, Writes(ws)) + ChunksOnWire(more, LAST_SIZE, tail)
      == ChunksOnWire(ChunksOf(ws) + more, LAST_SIZE, tail)
    decreases |ws|
  {
    hide EmittedAll, Emitted, ChunksOnWire;
    if ws == [] {
      assert ChunksOf(ws) + more == more && Writes(ws) == [];
      NothingEmitted();
      Unit(ChunksOnWire(more, LAST_SIZE, tail));
    } else {
      var n := |ws| - 1;
      var c := Chunk(ToChars(|ws[n]|, HEX_BASE), ws[n]);
      assert Writes(ws) == Writes(ws[..n]) + [Wrote(ws[n])];
      EmittedAppend(true, Writes(ws[..n]), Wrote(ws[n]));
      Assoc(EmittedAll(true, Writes(ws[..n])), Emitted(true, Wrote(ws[n])), ChunksOnWire(more, LAST_SIZE, tail));
      ChunkThenRest(c, more, tail);
      WritesAreChunks(ws[..n], [c] + more, tail);
      assert ChunksOf(ws[..n]) + ([c] + more) == ChunksOf(ws) + more;
    }
  }

  lemma NothingEmitted()
    ensures EmittedAll(true, []) == EmittedAll(false, []) == []
  {
  }

  lemma EmittedPlain(data: bytes)
    ensures Emitted(false, Wrote(data)) == data && Emitted(false, Ended) == []
    ensures Emitted(true, Ended) == LAST_CHUNK
  {
  }

  lemma EndThenRest(tail: bytes)
    ensures Emitted(true, Ended) + tail == ChunksOnWire([], LAST_SIZE, tail)
  {
    assert LAST_CHUNK == LAST_SIZE + (CRLF + CRLF);
    Assoc(LAST_SIZE, CRLF + CRLF, tail);
    Assoc(CRLF, CRLF, tail);
  }

  lemma ChunkThenRest(c: Chunk, more: seq<Chunk>, tail: bytes)
    requires c.header == ToChars(|c.data|, HEX_BASE)
    ensures Emitted(true, Wrote(c.data)) + ChunksOnWire(more, LAST_SIZE, tail)
      == ChunksOnWire([c] + more, LAST_SIZE, tail)
  {
    var rest := ChunksOnWire(more, LAST_SIZE, tail);
    assert ([c] + more)[1..] == more;
    FlattenChunk(c.header, CRLF, c.data, CRLF, rest);
  }

  lemma FlattenChunk(a: bytes, b: bytes, c: bytes, d: bytes, e: bytes)
    ensures (a + (b + (c + d))) + e == a + (b + (c + (d + e)))
  {
  }

  /** What the writes and `end` put on the wire is the wire form of a well-formed body. */
  lemma OutputIsBody(ws: seq<bytes>, tail: bytes)
    ensures EmittedAll(true, Writes(ws) + [Ended]) + tail == SentBody(ws).Wire(tail)
    ensures SentBody(ws).Content() == Concat(ws)
  {
    hide EmittedAll, Emitted, ChunksOnWire;
    EmittedAppend(true, Writes(ws), Ended);
    Assoc(EmittedAll(true, Writes(ws)), Emitted(true, Ended), tail);
    EndThenRest(tail);
    WritesAreChunks(ws, [], tail);
    ContentOfWrites(ws);
    assert ChunksOf(ws) + [] == ChunksOf(ws);
    Unit(SentBody(ws).After(tail));
    Unit(ChunksOnWire(ChunksOf(ws), LAST_SIZE, tail));
    Unit(Concat(ws));
  }

  /**
   * Chunked round trip: any non-empty writes and an `end`, read back by any calls, are
   * answered as the written octets in one piece would be; once they are all taken,
   * `has_incoming` is false and the stream stands just past the last chunk.
   */
  lemma ChunkedRoundTrip(ws: seq<bytes>, tail: bytes, ops: seq<BodyOp>)
    requires Writable(ws)
    ensures var st := BodyState(0, false, EmittedAll(true, Writes(ws) + [Ended]) + tail);
      && RunSpec(st, ops).Ok? && RunSpec(st, ops).value.0 == Expected(SentBody(ws), ops)
      && |Expected(SentBody(ws), ops)| == |ops| == |Expected(Sized(Concat(ws)), ops)|
      && (forall i :: 0 <= i < |ops| ==> Alike(Expected(SentBody(ws), ops)[i], Expected(Sized(Concat(ws)), ops)[i]))
      && var r := Advance(RunSpec(st, ops).value.1);
         var left := Leftover(Concat(ws), ops);
         r.Ok? && (r.value.incoming == 0 <==> left == []) && (left == [] ==> r.value == BodyState(0, true, tail))
  {
    OutputIsBody(ws, tail);
    SentBodyIsWellFormed(ws);
    Unit(Concat(ws));
    ChunksDoNotMatter(SentBody(ws), Sized(Concat(ws)), ops);
    RunDelivers(SentBody(ws), tail, ops);
    RunEnds(SentBody(ws), tail, ops);
    hide RunSpec, Advance, Leftover, Expected, EmittedAll, Body.Wire, Body.Content;
  }

  // ---------------------------------------------------------------- the printer

  /** The status line and the header section. */
  function Head(status: bytes, hs: seq<Header>): bytes {
    HTTP_1_1_STR + (status + (CRLF + HeadersOnWire(hs, [])))
  }

  function StatusLine(status: bytes): bytes {
    HTTP_1_1_STR + (status + CRLF)
  }

  /** The header lines without the blank line after them. */
  function HeaderLines(hs: seq<Header>): bytes {
    if hs == [] then []
    else HeaderLines(hs[..|hs| - 1]) + (PrintHeader(hs[|hs| - 1]) + CRLF)
  }

  lemma {:induction false} HeaderLinesOnWire(hs: seq<Header>, more: seq<Header>, tail: bytes)
    ensures HeaderLines(hs) + HeadersOnWire(more, tail) == HeadersOnWire(hs + more, tail)
    decreases |hs|
  {
    hide PrintHeader;
    if hs == [] {
      assert hs + more == more;
      Unit(HeadersOnWire(more, tail));
    } else {
      var n := |hs| - 1;
      var h := hs[n];
      assert ([h] + more)[1..] == more && ([h] + more)[0] == h;
      Assoc(HeaderLines(hs[..n]), PrintHeader(h) + CRLF, HeadersOnWire(more, tail));
      Assoc(PrintHeader(h), CRLF, HeadersOnWire(more, tail));
      HeaderLinesOnWire(hs[..n], [h] + more, tail);
      assert hs[..n] + ([h] + more) == hs + more;
      hide HeaderLines, HeadersOnWire;
    }
  }

  function ResponseBytes(status: bytes, hs: seq<Header>, chunked: bool, calls: seq<OutCall>): bytes {
    Head(status, hs) + EmittedAll(chunked, calls)
  }

  // ------------------------------------------------------- what an endpoint says

  const OK_PHRASE: bytes := Lit("200 OK")

  /** One accepted call on the response. */
  datatype Saying =
    | SaidStatus(phrase: bytes)
    | SaidHeader(name: bytes, value: bytes)
    | SaidLength(n: nat)
    | SaidData(data: bytes)

  /** The data of the writes, in order. */
  function DataOf(said: seq<Saying>): seq<bytes> {
    if said == [] then []
    else
      var last := said[|said| - 1];
      DataOf(said[..|said| - 1]) + if last.SaidData? then [last.data] else []
  }

  /** The status and the headers as they are at the first write: what is said later comes too late. */
  function HeadOf(said: seq<Saying>): (bytes, HeaderMap) {
    if said == [] then (OK_PHRASE, map[])
    else
      var front, last := said[..|said| - 1], said[|said| - 1];
      var (status, m) := HeadOf(front);
      if DataOf(front) != [] then (status, m)
      else
        match last
        case SaidStatus(phrase) => (phrase, m)
        case SaidHeader(name, value) => (status, if name == [] || value == [] then m else Put(m, name, value))
        case SaidLength(n) => (status, Put(m, CONTENT_LENGTH, ToChars(n, 10)))
        case SaidData(_) => (status, m)
  }

  /** Before anything is said the status is 200 and there are no headers. */
  lemma NothingSaidIsOk()
    ensures HeadOf([]) == (Lit("200 OK"), map[]) && DataOf([]) == []
    ensures CONTENT_LENGTH == Lit("content-length")
  {
  }

  lemma SaysOneMore(said: seq<Saying>, one: Saying)
    ensures DataOf(said + [one]) == DataOf(said) + if one.SaidData? then [one.data] else []
    ensures HeadOf(said + [one]) ==
      var (status, m) := HeadOf(said);
      if DataOf(said) != [] then (status, m)
      else
        match one
        case SaidStatus(phrase) => (phrase, m)
        case SaidHeader(name, value) => (status, if name == [] || value == [] then m else Put(m, name, value))
        case SaidLength(n) => (status, Put(m, CONTENT_LENGTH, ToChars(n, 10)))
        case SaidData(_) => (status, m)
  {
    hide Put, ToChars;
    assert (said + [one])[..|said|] == said;
  }

  /**
   * The complete response that says this: one head, with the headers in some order of the
   * map, then exactly the data, framed as the head says.
   */
  ghost predicate IsResponseTo(r: bytes, said: seq<Saying>) {
    var (status, m) := HeadOf(said);
    exists hs: seq<Header> ::
      IsOrder(m, hs) && r == ResponseBytes(status, hs, IsChunked(m), Writes(DataOf(said)) + [Ended])
  }

  /** A printed head is read back: its status line, then its headers, up to exactly the body. */
  lemma ResponseHeadIsRead(r: bytes, said: seq<Saying>, tail: bytes)
    requires IsResponseTo(r, said) && PrintableMap(HeadOf(said).1) && LF !in HeadOf(said).0
    ensures var (status, m) := HeadOf(said);
      var body := EmittedAll(IsChunked(m), Writes(DataOf(said)) + [Ended]) + tail;
      && LineSpec(r + tail).0 == HttpLine(HTTP_1_1_STR + status, true)
      && HeadersSpec(LineSpec(r + tail).1, map[]) == HeadersResult(m, true, body)
  {
    hide LineSpec, HeadersSpec, EmittedAll, HeadOf, DataOf, IsChunked, HeadersOnWire;
    var (status, m) := HeadOf(said);
    var calls := Writes(DataOf(said)) + [Ended];
    var hs :| IsOrder(m, hs) && r == ResponseBytes(status, hs, IsChunked(m), calls);
    var emitted := EmittedAll(IsChunked(m), calls);
    HeadersThenBody(hs, emitted + tail);
    var line := HTTP_1_1_STR + status;
    assert r + tail == line + (CRLF + (HeadersOnWire(hs, []) + (emitted + tail)));
    assert LF !in HTTP_1_1_STR;
    LineRoundTrip(line, HeadersOnWire(hs, emitted + tail));
    HeaderSectionRoundTrip(m, hs, emitted + tail);
  }

  /** Without chunks the writes are on the wire one after the other, and nothing else. */
  lemma {:induction false} PlainWrites(ws: seq<bytes>)
    ensures EmittedAll(false, Writes(ws)) == Concat(ws)
  {
    if ws == [] {
      NothingEmitted();
    } else {
      var n := |ws| - 1;
      PlainWrites(ws[..n]);
      assert Writes(ws) == Writes(ws[..n]) + [Wrote(ws[n])];
      EmittedAppend(false, Writes(ws[..n]), Wrote(ws[n]));
      assert ws == ws[..n] + [ws[n]];
      ConcatAppend(ws[..n], [ws[n]]);
      assert Concat([ws[n]]) == ws[n] by {
        var none: seq<bytes> := [ws[n]][1..];
        assert none == [];
        Unit(ws[n]);
      }
    }
  }

  lemma PlainResponse(ws: seq<bytes>)
    ensures EmittedAll(false, Writes(ws) + [Ended]) == Concat(ws)
  {
    EmittedAppend(false, Writes(ws), Ended);
    PlainWrites(ws);
    Unit(Concat(ws));
    hide EmittedAll;
  }

  /** The decoder in this state delivers the content, whatever calls are made, and ends at the tail. */
  ghost predicate DeliversTo(st: BodyState, content: bytes, tail: bytes, ops: seq<BodyOp>) {
    && RunSpec(st, ops).Ok? && |RunSpec(st, ops).value.0| == |ops| == |Expected(Sized(content), ops)|
    && (forall i :: 0 <= i < |ops| ==> Alike(RunSpec(st, ops).value.0[i], Expected(Sized(content), ops)[i]))
    && var r := Advance(RunSpec(st, ops).value.1);
       var left := Leftover(content, ops);
       r.Ok? && (r.value.incoming == 0 <==> left == []) && (left == [] ==> r.value == BodyState(0, true, tail))
  }

  /**
   * What a client finds after a head with these headers.  If the value of their
   * Transfer-Encoding contains `chunked`, the decoder of chunks delivers exactly the content,
   * and ends at the tail; if not, exactly these octets come next.
   */
  ghost predicate BodyFollows(m: HeaderMap, rest: bytes, content: bytes, tail: bytes, ops: seq<BodyOp>) {
    var coding := Get(m, Lit("Transfer-Encoding"));
    if coding.Some? && ContainsCaseInsensitive(coding.value, Lit("chunked")) then
      && DeliversTo(BodyState(0, false, rest), content, tail, ops)
      && ReadSpec(BodyState(0, false, rest), |content| + 1) == Ok((content, BodyState(0, true, tail)))
    else rest == content + tail
  }

  /**
   * A complete response as its client reads it, whatever was said and whatever follows: the
   * status line and the headers as they were at the first write, then the writes one after
   * the other, framed as these headers announce.
   */
  lemma ResponseIsRead(r: bytes, said: seq<Saying>, tail: bytes, ops: seq<BodyOp>)
    requires IsResponseTo(r, said) && PrintableMap(HeadOf(said).1) && LF !in HeadOf(said).0 && Writable(DataOf(said))
    ensures LineSpec(r + tail).0 == HttpLine(Lit("HTTP/1.1 ") + HeadOf(said).0, true)
    ensures
      var head := HeadersSpec(LineSpec(r + tail).1, map[]);
      && head.complete && head.headers == HeadOf(said).1
      && BodyFollows(head.headers, head.rest, Concat(DataOf(said)), tail, ops)
  {
    hide *;
    NameOfVersion();
    ResponseHeadIsRead(r, said, tail);
    BodyIsFramed(HeadOf(said).1, DataOf(said), tail, ops);
  }

  lemma NameOfVersion()
    ensures HTTP_1_1_STR == Lit("HTTP/1.1 ")
  {
  }

  lemma BodyIsFramed(m: HeaderMap, ws: seq<bytes>, tail: bytes, ops: seq<BodyOp>)
    requires Writable(ws)
    ensures BodyFollows(m, EmittedAll(IsChunked(m), Writes(ws) + [Ended]) + tail, Concat(ws), tail, ops)
  {
    hide RunSpec, Advance, Leftover, Expected, EmittedAll, Get, ContainsCaseInsensitive, IsChunked, Writable, Writes;
    CodingIsChunked(m);
    if IsChunked(m) {
      ChunkedRoundTrip(ws, tail, ops);
      ChunksReadWhole(ws, tail);
    } else {
      PlainResponse(ws);
    }
  }

  lemma CodingIsChunked(m: HeaderMap)
    ensures
      var coding := Get(m, Lit("Transfer-Encoding"));
      IsChunked(m) <==> coding.Some? && ContainsCaseInsensitive(coding.value, Lit("chunked"))
  {
    assert Lower(Lit("Transfer-Encoding")) == Lower(TRANSFER_ENCODING);
  }

  lemma ChunksReadWhole(ws: seq<bytes>, tail: bytes)
    requires Writable(ws)
    ensures
      var st := BodyState(0, false, EmittedAll(true, Writes(ws) + [Ended]) + tail);
      ReadSpec(st, |Concat(ws)| + 1) == Ok((Concat(ws), BodyState(0, true, tail)))
  {
    hide *;
    OutputIsBody(ws, tail);
    SentBodyIsWellFormed(ws);
    SentState(ws, tail);
    ReadWhole(SentBody(ws), tail);
  }

  lemma ReadWhole(b: Body, tail: bytes)
    requires b.WellFormed()
    ensures ReadSpec(b.State(tail), |b.Content()| + 1) == Ok((b.Content(), BodyState(0, true, tail)))
  {
    hide *;
    var content := b.Content();
    MinOf(|content| + 1, |content|);
    ReadDelivers(b, tail, |content| + 1);
    AfterReadOfAll(b, tail, |content| + 1);
    assert content[..|content|] == content;
  }

  lemma SentState(ws: seq<bytes>, tail: bytes)
    ensures SentBody(ws).State(tail) == BodyState(0, false, SentBody(ws).Wire(tail))
  {
    hide Body.Wire;
  }

  lemma {:induction false} HeadersThenBody(hs: seq<Header>, tail: bytes)
    ensures HeadersOnWire(hs, []) + tail == HeadersOnWire(hs, tail)
  {
    hide PrintHeader;
    if hs == [] {
      assert (CRLF + []) + tail == CRLF + tail;
    } else {
      HeadersThenBody(hs[1..], tail);
      Assoc(PrintHeader(hs[0]), CRLF + HeadersOnWire(hs[1..], []), tail);
      Assoc(CRLF, HeadersOnWire(hs[1..], []), tail);
    }
  }

  class HttpOutput {
    const sock: Socket
    var status: bytes
    var headers: HeaderMap
    var headersWritten: bool
    var chunkedEncoding: bool

    ghost const base: bytes           // the socket's output when the response began
    ghost var printed: seq<Header>    // the headers in the order they were printed
    ghost var printedHeaders: HeaderMap
    ghost var printedStatus: bytes
    ghost var calls: seq<OutCall>     // the calls that have added to the body

    /** The socket's output is exactly the response so far: its head once, then its body. */
    ghost predicate Valid()
      reads this, sock.Repr()
    {
      && sock.Valid() && Filed(headers)
      && sock.Outgoing() == base + Response()
      && (if headersWritten then HeadPrinted() else calls == [])
    }

    /** The head is that of one moment, in one order of iteration, and decides the body's coding. */
    ghost predicate HeadPrinted()
      reads this
    {
      IsOrder(printedHeaders, printed) && (chunkedEncoding <==> IsChunked(printedHeaders))
    }

    ghost predicate SameHead(status: bytes, m: HeaderMap, hs: seq<Header>, chunked: bool)
      reads this
    {
      printedStatus == status && printedHeaders == m && printed == hs && chunkedEncoding == chunked
    }

    ghost function Response(): bytes
      reads this
    {
      if headersWritten then ResponseBytes(printedStatus, printed, chunkedEncoding, calls) else []
    }

    constructor (sock: Socket)
      requires sock.Valid()
      ensures Valid() && this.sock == sock && !headersWritten && Says(this, [])
      ensures base == sock.Outgoing()
    {
      this.sock := sock;
      status, headers := OK_PHRASE, map[];
      headersWritten, chunkedEncoding := false, false;
      base, printed, printedHeaders, printedStatus, calls := sock.Outgoing(), [], map[], [], [];
    }

    method SetStatus(phrase: bytes)
      requires Valid()
      modifies this`status
      ensures Valid() && status == phrase
    {
      status := phrase;
    }

    /** A header with an empty name or value is ignored; a known name keeps its spelling. */
    method SetHeader(name: bytes, value: bytes)
      requires Valid()
      modifies this`headers
      ensures Valid()
      ensures headers == if name == [] || value == [] then old(headers) else Put(old(headers), name, value)
      ensures old(PrintableMap(headers)) && WellFormedHeader(Header(name, value)) ==> PrintableMap(headers)
    {
      if name == [] || value == [] {
        return;
      }
      headers := Put(headers, name, value);
    }

    method SetContentLength(len: int) returns (r: Outcome<()>)
      requires Valid()
      modifies this`headers
      ensures Valid()
      ensures r == if len < 0 then Throw(InvalidSize) else Ok(())
      ensures headers == if len < 0 then old(headers) else Put(old(headers), CONTENT_LENGTH, ToChars(len, 10))
    {
      if len < 0 {
        return Throw(InvalidSize);
      }
      SetHeader(CONTENT_LENGTH, ToChars(len, 10));
      return Ok(());
    }

    /** Adds to the output; on failure the response stops short. */
    method RawWrite(src: bytes, ghost soFar: bytes) returns (r: Outcome<()>)
      requires sock.Valid() && sock.Outgoing() == base + soFar
      modifies sock.Repr()
      ensures sock.Valid() && sock.Incoming() == old(sock.Incoming()) && base <= sock.Outgoing()
      ensures r.Throw? ==> r.error == IoError
      ensures r.Ok? ==> sock.Outgoing() == base + (soFar + src)
    {
      r := sock.Write(src);
      Assoc(base, soFar, src);
    }

    /** One entry of the header map. */
    method WriteHeader(h: Header, ghost soFar: bytes) returns (r: Outcome<()>)
      requires sock.Valid() && sock.Outgoing() == base + soFar
      modifies sock.Repr()
      ensures sock.Valid() && sock.Incoming() == old(sock.Incoming()) && base <= sock.Outgoing()
      ensures r.Throw? ==> r.error == IoError
      ensures r.Ok? ==> sock.Outgoing() == base + (soFar + (PrintHeader(h) + CRLF))
    {
      hide Socket.Valid, Socket.Incoming, Socket.Outgoing;
      var w1 :- RawWrite(h.name, soFar);
      var w2 :- RawWrite(COLON_SEPARATOR, soFar + h.name);
      var w3 :- RawWrite(h.value, soFar + h.name + COLON_SEPARATOR);
      var w4 :- RawWrite(CRLF, soFar + h.name + COLON_SEPARATOR + h.value);
      HeaderAssembled(soFar, h);
      return Ok(());
    }

    /** Prints the status line and the headers, the first time it is called. */
    method WriteHeaders() returns (r: Outcome<()>)
      requires Valid()
      modifies this, sock.Repr()
      ensures sock.Valid() && sock.Incoming() == old(sock.Incoming()) && base <= sock.Outgoing()
      ensures headers == old(headers) && status == old(status) && calls == old(calls)
      ensures r.Throw? ==> r.error == IoError
      ensures r.Ok? ==> Valid() && headersWritten
      ensures old(headersWritten) ==>
        r.Ok? && SameHead(old(printedStatus), old(printedHeaders), old(printed), old(chunkedEncoding))
      ensures r.Ok? && !old(headersWritten) ==> printedHeaders == headers && printedStatus == status
    {
      hide Socket.Valid, Socket.Incoming, Socket.Outgoing, IsChunked, IsOrder, Head, Filed, EmittedAll;
      if headersWritten {
        return Ok(());
      }
      var chunked := FindChunked();
      chunkedEncoding := chunked;
      Unit(base);
      var hs :- PrintHead();
      headersWritten := true;
      printed, printedHeaders, printedStatus := hs, headers, status;
      NothingEmitted();
      Unit(Head(status, hs));
      return Ok(());
    }

    method PrintHead() returns (r: Outcome<seq<Header>>)
      requires sock.Valid() && sock.Outgoing() == base
      modifies sock.Repr()
      ensures sock.Valid() && sock.Incoming() == old(sock.Incoming()) && base <= sock.Outgoing()
      ensures r.Throw? ==> r.error == IoError
      ensures r.Ok? && Filed(headers) ==> IsOrder(headers, r.value)
      ensures r.Ok? ==> sock.Outgoing() == base + Head(status, r.value)
    {
      hide Socket.Valid, Socket.Incoming, Socket.Outgoing, IsOrder, Head, Filed, HeaderLines, StatusLine;
      var w1 :- WriteStatusLine();
      var hs :- WriteHeaderLines(StatusLine(status));
      var w2 :- RawWrite(CRLF, StatusLine(status) + HeaderLines(hs));
      HeadAssembled(status, hs);
      return Ok(hs);
    }

    method FindChunked() returns (b: bool)
      ensures b <==> IsChunked(headers)
    {
      var te := Get(headers, TRANSFER_ENCODING);
      if te.None? {
        return false;
      }
      var pos := FindCaseInsensitive(te.value, CHUNKED);
      return pos != -1;
    }

    method WriteStatusLine() returns (r: Outcome<()>)
      requires sock.Valid() && sock.Outgoing() == base
      modifies sock.Repr()
      ensures sock.Valid() && sock.Incoming() == old(sock.Incoming()) && base <= sock.Outgoing()
      ensures r.Throw? ==> r.error == IoError
      ensures r.Ok? ==> sock.Outgoing() == base + StatusLine(status)
    {
      hide Socket.Valid, Socket.Incoming, Socket.Outgoing;
      Unit(base);
      var w1 :- RawWrite(HTTP_1_1_STR, []);
      Unit(HTTP_1_1_STR);
      var w2 :- RawWrite(status, HTTP_1_1_STR);
      var w3 :- RawWrite(CRLF, HTTP_1_1_STR + status);
      Assoc(HTTP_1_1_STR, status, CRLF);
      return Ok(());
    }

    /** The loop over the map, in whatever order it is iterated; the entries are returned in that order. */
    method WriteHeaderLines(ghost front: bytes) returns (r: Outcome<seq<Header>>)
      requires sock.Valid() && sock.Outgoing() == base + front
      modifies sock.Repr()
      ensures sock.Valid() && sock.Incoming() == old(sock.Incoming()) && base <= sock.Outgoing()
      ensures r.Throw? ==> r.error == IoError
      ensures r.Ok? && Filed(headers) ==> IsOrder(headers, r.value)
      ensures r.Ok? ==> sock.Outgoing() == base + (front + HeaderLines(r.value))
    {
      hide Socket.Valid, Socket.Incoming, Socket.Outgoing, PrintHeader, HeaderLines, PartOfOrder, IsOrder;
      var keys := headers.Keys;
      var hs: seq<Header> := [];
      NoHeaderLines(headers);
      Unit(front);
      while keys != {}
        invariant sock.Valid() && sock.Incoming() == old(sock.Incoming())
        invariant keys <= headers.Keys
        invariant Filed(headers) ==> PartOfOrder(headers, hs, keys)
        invariant sock.Outgoing() == base + (front + HeaderLines(hs))
        decreases keys
      {
        var k :| k in keys;
        var w :- WriteHeader(headers[k], front + HeaderLines(hs));
        Assoc(front, HeaderLines(hs), PrintHeader(headers[k]) + CRLF);
        HeaderLinesAppend(hs, headers[k]);
        if Filed(headers) {
          PartOfOrderAppend(headers, hs, keys, k);
        }
        hs := hs + [headers[k]];
        keys := keys - {k};
      }
      if Filed(headers) {
        PartOfOrderDone(headers, hs);
      }
      return Ok(hs);
    }

    method WriteChunk(src: bytes, ghost soFar: bytes) returns (r: Outcome<()>)
      requires sock.Valid() && sock.Outgoing() == base + soFar
      modifies sock.Repr()
      ensures sock.Valid() && sock.Incoming() == old(sock.Incoming()) && base <= sock.Outgoing()
      ensures r.Throw? ==> r.error == IoError
      ensures r.Ok? ==> sock.Outgoing() == base + (soFar + Emitted(true, Wrote(src)))
    {
      hide Socket.Valid, Socket.Incoming, Socket.Outgoing, ToChars;
      var size := ToChars(|src|, HEX_BASE);
      var w1 :- RawWrite(size, soFar);
      var w2 :- RawWrite(CRLF, soFar + size);
      var w3 :- RawWrite(src, soFar + size + CRLF);
      var w4 :- RawWrite(CRLF, soFar + size + CRLF + src);
      ChunkAssembled(soFar, size, src);
      return Ok(());
    }

    /** A write of nothing is refused; otherwise the octets join the body, as one chunk if it is chunked. */
    method Write(src: bytes) returns (r: Outcome<()>)
      requires Valid() && |src| <= LONG_MAX
      modifies this, sock.Repr()
      ensures sock.Valid() && sock.Incoming() == old(sock.Incoming()) && base <= sock.Outgoing()
      ensures headers == old(headers) && status == old(status)
      ensures src == [] ==> r == Throw(InvalidSize) && sock.Outgoing() == old(sock.Outgoing())
      ensures src != [] && r.Throw? ==> r.error == IoError
      ensures r.Ok? ==> Valid() && headersWritten && calls == old(calls) + [Wrote(src)]
      ensures r.Ok? && old(headersWritten) ==>
        SameHead(old(printedStatus), old(printedHeaders), old(printed), old(chunkedEncoding))
      ensures r.Ok? && !old(headersWritten) ==> printedHeaders == headers && printedStatus == status
    {
      hide Socket.Valid, Socket.Incoming, Socket.Outgoing, Head, IsOrder, IsChunked;
      hide ToChars, Filed, EmittedAll, Emitted;
      EmittedPlain(src);
      if src == [] {
        return Throw(InvalidSize);
      }
      var w :- WriteHeaders();
      ghost var head := Head(printedStatus, printed);
      ghost var soFar := head + EmittedAll(chunkedEncoding, calls);
      if chunkedEncoding {
        var w1 :- WriteChunk(src, soFar);
      } else {
        var w1 :- RawWrite(src, soFar);
      }
      Assoc(head, EmittedAll(chunkedEncoding, calls), Emitted(chunkedEncoding, Wrote(src)));
      EmittedAppend(chunkedEncoding, calls, Wrote(src));
      calls := calls + [Wrote(src)];
      return Ok(());
    }

    /** Completes the response and hands all of it to the kernel. */
    method End() returns (r: Outcome<()>)
      requires Valid()
      modifies this, sock.Repr()
      ensures sock.Valid() && sock.Incoming() == old(sock.Incoming()) && base <= sock.Outgoing()
      ensures headers == old(headers) && status == old(status)
      ensures r.Throw? ==> r.error == IoError
      ensures r.Ok? ==> Valid() && headersWritten && calls == old(calls) + [Ended]
      ensures r.Ok? ==> sock.sent == sock.Outgoing()
      ensures r.Ok? && old(headersWritten) ==>
        SameHead(old(printedStatus), old(printedHeaders), old(printed), old(chunkedEncoding))
      ensures r.Ok? && !old(headersWritten) ==> printedHeaders == headers && printedStatus == status
    {
      hide Socket.Valid, Socket.Incoming, Socket.Outgoing, Head, IsOrder, IsChunked, Filed, EmittedAll, Emitted;
      EmittedPlain([]);
      var w :- WriteHeaders();
      ghost var head := Head(printedStatus, printed);
      ghost var soFar := head + EmittedAll(chunkedEncoding, calls);
      if chunkedEncoding {
        var w1 :- RawWrite(LAST_CHUNK, soFar);
      }
      Unit(soFar);
      Assoc(head, EmittedAll(chunkedEncoding, calls), Emitted(chunkedEncoding, Ended));
      EmittedAppend(chunkedEncoding, calls, Ended);
      calls := calls + [Ended];
      var f :- sock.Flush();
      return Ok(());
    }
  }

  /** What was said is what the object holds, or has printed. */
  ghost predicate Says(res: HttpOutput, said: seq<Saying>)
    reads res
  {
    && res.calls == Writes(DataOf(said)) && (res.headersWritten <==> DataOf(said) != [])
    && HeadOf(said) == if res.headersWritten then (res.printedStatus, res.printedHeaders) else (res.status, res.headers)
  }

  ghost predicate IsChunked(m: HeaderMap) {
    var te := Get(m, TRANSFER_ENCODING);
    te.Some? && ContainsCaseInsensitive(te.value, CHUNKED)
  }

  /** hs holds the entries of m whose keys are not in `keys`, each once. */
  ghost predicate PartOfOrder(m: HeaderMap, hs: seq<Header>, keys: set<bytes>) {
    && (forall i :: 0 <= i < |hs| ==> Lower(hs[i].name) in m && m[Lower(hs[i].name)] == hs[i])
    && (forall i :: 0 <= i < |hs| ==> Lower(hs[i].name) !in keys)
    && (forall i, j :: 0 <= i < j < |hs| ==> Lower(hs[i].name) != Lower(hs[j].name))
    && (forall k :: k in m ==> k in keys || exists i :: 0 <= i < |hs| && Lower(hs[i].name) == k)
  }

  lemma HeaderLinesAppend(hs: seq<Header>, h: Header)
    ensures HeaderLines(hs + [h]) == HeaderLines(hs) + (PrintHeader(h) + CRLF)
  {
    assert (hs + [h])[..|hs|] == hs;
  }

  lemma HeaderAssembled(soFar: bytes, h: Header)
    ensures soFar + h.name + COLON_SEPARATOR + h.value + CRLF == soFar + (PrintHeader(h) + CRLF)
  {
  }

  lemma ChunkAssembled(soFar: bytes, size: bytes, data: bytes)
    requires size == ToChars(|data|, HEX_BASE)
    ensures soFar + size + CRLF + data + CRLF == soFar + Emitted(true, Wrote(data))
  {
    hide ToChars;
  }

  lemma HeadAssembled(status: bytes, hs: seq<Header>)
    ensures (StatusLine(status) + HeaderLines(hs)) + CRLF == Head(status, hs)
  {
    HeaderLinesOnWire(hs, [], []);
    assert hs + [] == hs;
    Unit(CRLF);
    hide HeaderLines, HeadersOnWire;
    var lines := HeaderLines(hs);
    Assoc(StatusLine(status), lines, CRLF);
    Assoc(HTTP_1_1_STR, status + CRLF, lines + CRLF);
    Assoc(status, CRLF, lines + CRLF);
    assert lines + HeadersOnWire([], []) == lines + CRLF by {
      EmptySection();
    }
  }

  lemma EmptySection()
    ensures HeadersOnWire([], []) == CRLF
  {
  }

  lemma NoHeaderLines(m: HeaderMap)
    ensures HeaderLines([]) == [] && PartOfOrder(m, [], m.Keys)
  {
  }

  lemma PartOfOrderAppend(m: HeaderMap, hs: seq<Header>, keys: set<bytes>, k: bytes)
    requires Filed(m) && PartOfOrder(m, hs, keys) && k in keys && k in m
    ensures PartOfOrder(m, hs + [m[k]], keys - {k})
  {
    var hs1 := hs + [m[k]];
    assert hs1[|hs|] == m[k];
    assert forall i :: 0 <= i < |hs| ==> hs1[i] == hs[i];
    forall key | key in m && key !in keys - {k}
      ensures exists i :: 0 <= i < |hs1| && Lower(hs1[i].name) == key
    {
      if key == k {
        assert Lower(hs1[|hs|].name) == key;
      } else {
        var i :| 0 <= i < |hs| && Lower(hs[i].name) == key;
        assert Lower(hs1[i].name) == key;
      }
    }
  }

  lemma PartOfOrderDone(m: HeaderMap, hs: seq<Header>)
    requires PartOfOrder(m, hs, {})
    ensures IsOrder(m, hs)
  {
  }
}
