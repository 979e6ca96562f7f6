/** The keep-alive request loop of one connection. */
module HttpServers {
  import opened Bytes
  import opened Sockets
  import opened HttpLines
  import opened HttpUtil
  import opened HttpRequests
  import opened HttpBodies
  import opened HttpOutputs
  import opened RouterTries
  import opened HttpRouters

  const CONNECTION: bytes := Lit("connection")
  const KEEP_ALIVE: bytes := Lit("keep-alive")
  const CLOSE: bytes := Lit("close")
  const NOT_FOUND: bytes := Lit("404 Not Found")

  function DefaultConnType(v: HttpVersion): bytes {
    if v.HTTP_1_0? then CLOSE else KEEP_ALIVE
  }

  ghost predicate KeepAlive(req: Request) {
    ContainsCaseInsensitive(ValueOr(Get(req.headers, CONNECTION), DefaultConnType(req.line.version)), KEEP_ALIVE)
  }

  /**
   * Where the test is that of section 9.3 of RFC 9112: without a Connection header the
   * version decides, and the single options `close` and `keep-alive` do.
   */
  lemma KeepAliveAgrees(req: Request)
    ensures match Get(req.headers, CONNECTION)
      case None => KeepAlive(req) <==> req.line.version == HTTP_1_1
      case Some(v) =>
        && (Lower(v) == Lower(KEEP_ALIVE) ==> KeepAlive(req))
        && (Lower(v) == Lower(CLOSE) ==> !KeepAlive(req))
  {
    assert |CLOSE| < |KEEP_ALIVE|;
    assert KEEP_ALIVE[..|KEEP_ALIVE|] == KEEP_ALIVE;
    assert OccursAt(KEEP_ALIVE, KEEP_ALIVE, 0);
    match Get(req.headers, CONNECTION) {
      case None =>
      case Some(v) =>
        if Lower(v) == Lower(KEEP_ALIVE) {
          assert v[..|v|] == v;
          assert OccursAt(v, KEEP_ALIVE, 0);
        }
    }
  }

  const COMMA: byte := 44
  const TAB: byte := 9

  /** Optional whitespace: section 5.6.3 of RFC 9110. */
  ghost predicate IsOws(s: bytes) {
    forall i :: 0 <= i < |s| ==> s[i] == SPACE || s[i] == TAB
  }

  ghost predicate IsElement(piece: bytes, option: bytes, i: nat) {
    OccursAt(piece, option, i) && IsOws(piece[..i]) && IsOws(piece[i + |option|..])
  }

  ghost predicate HasElement(pieces: seq<bytes>, option: bytes) {
    exists k: nat, i: nat :: k < |pieces| && IsElement(pieces[k], option, i)
  }

  /** An element of the comma-separated list is this option: section 5.6.1 of RFC 9110. */
  ghost predicate HasOption(list: bytes, option: bytes) {
    HasElement(Split(list, COMMA), option)
  }

  /** Section 9.3 of RFC 9112, for a server that honours `keep-alive` of HTTP/1.0. */
  ghost predicate Persists(req: Request) {
    var options := ValueOr(Get(req.headers, CONNECTION), []);
    !HasOption(options, CLOSE) && (req.line.version == HTTP_1_1 || HasOption(options, KEEP_ALIVE))
  }

  ghost predicate IsSlice(s: bytes, piece: bytes, a: nat) {
    a + |piece| <= |s| && s[a..a + |piece|] == piece
  }

  lemma SliceLater(s: bytes, n: nat, piece: bytes, a: nat)
    requires n <= |s| && IsSlice(s[n..], piece, a)
    ensures IsSlice(s, piece, n + a)
  {
    var whole := s[n + a..n + a + |piece|];
    forall k | 0 <= k < |piece| ensures whole[k] == piece[k] {
      assert piece[k] == s[n..][a + k] == s[n + (a + k)];
    }
    assert whole == piece;
  }

  ghost predicate HasSlice(s: bytes, piece: bytes) {
    exists a: nat :: IsSlice(s, piece, a)
  }

  ghost predicate AllSlices(s: bytes, pieces: seq<bytes>) {
    forall k :: 0 <= k < |pieces| ==> HasSlice(s, pieces[k])
  }

  lemma SlicesLater(s: bytes, n: nat, pieces: seq<bytes>)
    requires n <= |s| && AllSlices(s[n..], pieces)
    ensures AllSlices(s, pieces)
  {
    hide IsSlice;
    forall k | 0 <= k < |pieces| ensures HasSlice(s, pieces[k]) {
      var a: nat :| IsSlice(s[n..], pieces[k], a);
      SliceLater(s, n, pieces[k], a);
    }
  }

  lemma SlicesJoin(s: bytes, front: seq<bytes>, back: seq<bytes>)
    requires AllSlices(s, front) && AllSlices(s, back)
    ensures AllSlices(s, front + back)
  {
    hide HasSlice;
  }

  lemma FrontIsSlice(s: bytes, n: nat)
    requires n <= |s|
    ensures AllSlices(s, if n == 0 then [] else [s[..n]])
  {
    assert IsSlice(s, s[..n], 0);
  }

  /** The pieces of a split string are slices of it. */
  lemma {:induction false} PiecesAreSlices(s: bytes, separator: byte)
    ensures AllSlices(s, Split(s, separator))
    decreases |s|
  {
    var n := IndexOf(s, separator);
    SplitUnfolds(s, separator, n);
    FrontIsSlice(s, n);
    hide *;
    if n < |s| {
      PiecesAreSlices(s[n + 1..], separator);
      SlicesLater(s, n + 1, Split(s[n + 1..], separator));
      SlicesJoin(s, if n == 0 then [] else [s[..n]], Split(s[n + 1..], separator));
    }
  }

  lemma SplitUnfolds(s: bytes, separator: byte, n: nat)
    requires n == IndexOf(s, separator)
    ensures n == |s| ==> Split(s, separator) == if n == 0 then [] else [s[..n]]
    ensures n < |s| ==>
      Split(s, separator) == (if n == 0 then [] else [s[..n]]) + Split(s[n + 1..], separator)
  {
  }

  /** What is an option is found by the search. */
  lemma OptionIsFound(list: bytes, option: bytes)
    requires HasOption(list, option)
    ensures ContainsCaseInsensitive(list, option)
  {
    hide Split, OccursAt, Lower, IsOws;
    var pieces := Split(list, COMMA);
    var k: nat, i: nat :| k < |pieces| && IsElement(pieces[k], option, i);
    PiecesAreSlices(list, COMMA);
    assert HasSlice(list, pieces[k]);
    var a: nat :| IsSlice(list, pieces[k], a);
    OccursInSlice(list, a, |pieces[k]|, option, i);
  }

  lemma OccursInSlice(list: bytes, a: nat, m: nat, option: bytes, i: nat)
    requires a + m <= |list| && OccursAt(list[a..a + m], option, i)
    ensures OccursAt(list, option, a + i)
  {
    hide Lower;
    SliceOfSlice(list, a, m, i, |option|);
  }

  lemma SliceOfSlice(s: bytes, a: nat, m: nat, i: nat, n: nat)
    requires a + m <= |s| && i + n <= m
    ensures s[a..a + m][i..i + n] == s[a + i..a + i + n]
  {
    var inner, outer := s[a..a + m][i..i + n], s[a + i..a + i + n];
    forall k | 0 <= k < n ensures inner[k] == outer[k] {
      assert inner[k] == s[a..a + m][i + k] == s[a + (i + k)];
      assert outer[k] == s[(a + i) + k];
    }
    assert inner == outer;
  }

  lemma NoOptions(option: bytes)
    ensures !HasOption([], option)
  {
    assert IndexOf([], COMMA) == 0;
  }

  /**
   * The test is that of section 9.3 of RFC 9112 exactly if: there is no Connection header;
   * or `close` is an option, and `keep-alive` occurs nowhere; or it is not, and the request
   * is of HTTP/1.1 and `keep-alive` occurs, or of HTTP/1.0 and `keep-alive` is an option
   * where it occurs.
   */
  lemma KeepAliveExactIff(req: Request)
    ensures (KeepAlive(req) <==> Persists(req)) <==>
      match Get(req.headers, CONNECTION)
      case None => true
      case Some(v) =>
        if HasOption(v, CLOSE) then !ContainsCaseInsensitive(v, KEEP_ALIVE)
        else if req.line.version == HTTP_1_1 then ContainsCaseInsensitive(v, KEEP_ALIVE)
        else ContainsCaseInsensitive(v, KEEP_ALIVE) ==> HasOption(v, KEEP_ALIVE)
  {
    KeepAliveAgrees(req);
    hide ContainsCaseInsensitive, HasOption;
    NoOptions(CLOSE);
    NoOptions(KEEP_ALIVE);
    match Get(req.headers, CONNECTION) {
      case None =>
      case Some(v) =>
        if HasOption(v, KEEP_ALIVE) {
          OptionIsFound(v, KEEP_ALIVE);
        }
    }
  }

  /** Where it is not: `close, keep-alive` goes on, and `upgrade` closes whatever the version. */
  lemma KeepAliveDiffers(req: Request)
    ensures Get(req.headers, CONNECTION) == Some(Lit("close, keep-alive")) ==> KeepAlive(req) && !Persists(req)
    ensures Get(req.headers, CONNECTION) == Some(Lit("upgrade")) ==>
      !KeepAlive(req) && (Persists(req) <==> req.line.version == HTTP_1_1)
  {
    var both, upgrade := Lit("close, keep-alive"), Lit("upgrade");
    assert both[7..17] == KEEP_ALIVE;
    assert OccursAt(both, KEEP_ALIVE, 7);
    CloseIsOption();
    assert |upgrade| < |KEEP_ALIVE|;
    UpgradeAlone();
    if HasOption(upgrade, KEEP_ALIVE) {
      OptionIsFound(upgrade, KEEP_ALIVE);
    }
  }

  lemma FirstIsElement(option: bytes, pieces: seq<bytes>)
    requires option != []
    ensures HasElement([option] + pieces, option)
  {
    hide Lower;
    assert option[..|option|] == option;
    assert IsElement(([option] + pieces)[0], option, 0);
  }

  lemma CloseIsOption()
    ensures HasOption(Lit("close, keep-alive"), CLOSE)
  {
    var rest := Lit(" keep-alive");
    assert Lit("close, keep-alive") == CLOSE + ([COMMA] + rest);
    SplitPiece(CLOSE, COMMA, rest);
    FirstIsElement(CLOSE, Split(rest, COMMA));
  }

  /** An element that does not begin with whitespace begins as the option does. */
  lemma ElementStart(piece: bytes, option: bytes, i: nat)
    requires IsElement(piece, option, i) && option != [] && piece[0] != SPACE && piece[0] != TAB
    ensures LowerByte(piece[0]) == LowerByte(option[0])
  {
    assert Lower(piece[i..i + |option|])[0] == LowerByte(piece[i]);
  }

  lemma UpgradeAlone()
    ensures !HasOption(Lit("upgrade"), CLOSE)
  {
    var upgrade := Lit("upgrade");
    SplitPiece(upgrade, COMMA, []);
    hide Split;
    if HasOption(upgrade, CLOSE) {
      var i: nat :| IsElement(upgrade, CLOSE, i);
      ElementStart(upgrade, CLOSE, i);
    }
  }

  /** The initial state of the body decoder: the length, and whether the body ends there. */
  ghost function FramingSpec(m: HeaderMap): Option<(nat, bool)> {
    var length := ValueOr(Get(m, CONTENT_LENGTH), []);
    if length != [] then
      var n := LongFromChars(length, 10);
      if !n.Parsed? || n.value < 0 then None else Some((n.value, true))
    else Some((0, !ContainsCaseInsensitive(ValueOr(Get(m, TRANSFER_ENCODING), []), CHUNKED)))
  }

  /** The request that a stream begins with, and the decoder at the start of its body. */
  ghost function HeadSpec(s: bytes): Option<(Request, BodyState)> {
    var (line, rest) := LineSpec(s);
    if !line.HasValue() then None
    else
      match RequestLineSpec(line.val)
      case None => None
      case Some(rl) =>
        var hr := HeadersSpec(rest, map[]);
        if !hr.complete then None
        else
          match FramingSpec(hr.headers)
          case None => None
          case Some((n, ended)) => Some((Request(rl, hr.headers), BodyState(n, ended, hr.rest)))
  }

  // ------------------------------------------------------------ a conversation

  /** One request and what was done with it. */
  datatype Exchange = Exchange(
    request: Request, endpoint: Option<Endpoint>, bound: Bindings,
    ops: seq<BodyOp>, replies: seq<Reply>, said: seq<Saying>, response: bytes)

  /** What is said where the router finds no endpoint. */
  const NO_ENDPOINT: seq<Saying> := [SaidStatus(NOT_FOUND), SaidLength(0)]

  /** The endpoint was the router's choice for the path, and the response is exactly what was said. */
  ghost predicate Responds(router: Trie, req: Request, x: Exchange) {
    && x.request == req
    && RouterTries.Match(router, req.line.verb, Split(req.line.target.path, '/' as int), map[])
       == Ok((x.endpoint, x.bound))
    && (x.endpoint == None ==> x.ops == [] && x.said == NO_ENDPOINT)
    && IsResponseTo(x.response, x.said) && Writable(DataOf(x.said))
  }

  /** Moreover every call on the body was answered by the decoder. */
  ghost predicate Answers(router: Trie, req: Request, st: BodyState, x: Exchange) {
    && Responds(router, req, x)
    && RunSpec(st, x.ops).Ok? && RunSpec(st, x.ops).value.0 == x.replies
  }

  /** Where there is no endpoint the response is this: the status line, one header, and no body. */
  lemma NotFoundResponse(r: bytes)
    requires IsResponseTo(r, NO_ENDPOINT)
    ensures r == Lit("HTTP/1.1 404 Not Found\r\n") + Lit("content-length: 0\r\n\r\n")
  {
    NotFoundText();
    hide Lit, Lower;
    var h := Header(CONTENT_LENGTH, [48]);
    NotFoundHead();
    var m := HeadOf(NO_ENDPOINT).1;
    hide HeadOf, DataOf, PrintHeader;
    var hs :| IsOrder(m, hs) && r == ResponseBytes(NOT_FOUND, hs, IsChunked(m), Writes([]) + [Ended]);
    OnlyHeader(m, h, hs);
    LengthIsNotChunked(m, h);
    hide IsOrder, IsChunked, HeadersOnWire, EmittedAll;
    NothingAtEnd();
    OneHeader(h);
    Unit(Head(NOT_FOUND, hs));
  }

  lemma NotFoundText()
    ensures Lit("HTTP/1.1 404 Not Found\r\n") + Lit("content-length: 0\r\n\r\n") ==
      HTTP_1_1_STR + (NOT_FOUND + (CRLF + (PrintHeader(Header(CONTENT_LENGTH, [48])) + (CRLF + CRLF))))
  {
    NotFoundStatus();
    NotFoundHeader();
    var header := PrintHeader(Header(CONTENT_LENGTH, [48])) + (CRLF + CRLF);
    hide Lit, PrintHeader;
    Assoc(HTTP_1_1_STR, NOT_FOUND + CRLF, header);
    Assoc(NOT_FOUND, CRLF, header);
  }

  lemma NotFoundStatus()
    ensures Lit("HTTP/1.1 404 Not Found\r\n") == HTTP_1_1_STR + (NOT_FOUND + CRLF)
  {
  }

  lemma NotFoundHeader()
    ensures Lit("content-length: 0\r\n\r\n") == PrintHeader(Header(CONTENT_LENGTH, [48])) + (CRLF + CRLF)
  {
  }

  lemma LengthIsNotChunked(m: HeaderMap, h: Header)
    requires m == map[Lower(h.name) := h] && h.name == CONTENT_LENGTH
    ensures !IsChunked(m)
  {
    assert |Lower(CONTENT_LENGTH)| != |Lower(TRANSFER_ENCODING)|;
  }

  lemma NothingAtEnd()
    ensures EmittedAll(false, Writes([]) + [Ended]) == []
  {
    assert Writes([]) + [Ended] == [] + [Ended];
    EmittedAppend(false, [], Ended);
    NothingEmitted();
    EmittedPlain([]);
  }

  lemma OneHeader(h: Header)
    ensures HeadersOnWire([h], []) == PrintHeader(h) + (CRLF + CRLF)
  {
    hide PrintHeader;
    assert [h][1..] == [];
    Unit(CRLF);
  }

  lemma NamesDiffer(m: HeaderMap, hs: seq<Header>)
    requires IsOrder(m, hs) && |hs| > 1
    ensures Lower(hs[0].name) != Lower(hs[1].name)
  {
  }

  /** There is one order of a map with one entry. */
  lemma OnlyHeader(m: HeaderMap, h: Header, hs: seq<Header>)
    requires m == map[Lower(h.name) := h] && IsOrder(m, hs)
    ensures hs == [h]
  {
    hide Lower;
    assert Lower(h.name) in m;
    assert |hs| >= 1 && forall i :: 0 <= i < |hs| ==> Lower(hs[i].name) == Lower(h.name) && hs[i] == h;
    if |hs| > 1 {
      NamesDiffer(m, hs);
    }
  }

  lemma NotFoundHead()
    ensures HeadOf(NO_ENDPOINT) == (NOT_FOUND, map[Lower(CONTENT_LENGTH) := Header(CONTENT_LENGTH, [48])])
    ensures DataOf(NO_ENDPOINT) == []
  {
    var none: seq<Saying> := [];
    SaysOneMore(none, SaidStatus(NOT_FOUND));
    SaysOneMore(none + [SaidStatus(NOT_FOUND)], SaidLength(0));
    assert none + [SaidStatus(NOT_FOUND)] + [SaidLength(0)] == NO_ENDPOINT;
  }

  /** The stream after the exchange, if the connection goes on. */
  ghost function Continues(req: Request, st: BodyState, x: Exchange): Option<bytes> {
    match RunSpec(st, x.ops)
    case Throw(_) => None
    case Ok((_, st1)) =>
      match Advance(st1)
      case Throw(_) => None
      case Ok(st2) => if st2.incoming == 0 && KeepAlive(req) then Some(st2.stream) else None
  }

  /** The log of a connection on stream s; `finished` when its loop has been left. */
  ghost predicate Conversation(router: Trie, s: bytes, log: seq<Exchange>, finished: bool)
    decreases |log|
  {
    if log == [] then finished ==> HeadSpec(s) == None
    else
      && HeadSpec(s).Some?
      && var (req, st) := HeadSpec(s).value;
      && Answers(router, req, st, log[0])
      && match Continues(req, st, log[0])
         case None => |log| == 1
         case Some(rest) => Conversation(router, rest, log[1..], finished)
  }

  // ------------------------------------------------------------ pipelined requests

  /**
   * Section 6.3 of RFC 9112, for requests: no framing header and no body; a content length
   * and as many octets; or a chunked coding and a body in chunks.  Not both headers.
   */
  ghost predicate Frames(hs: seq<Header>, body: Body) {
    || (Lacks(hs, Lit("content-length")) && Lacks(hs, Lit("transfer-encoding")) && body == Sized([]))
    || (&& Lacks(hs, Lit("transfer-encoding")) && !Lacks(hs, Lit("content-length"))
        && body.Sized? && |body.octets| <= LONG_MAX
        && forall i :: 0 <= i < |hs| && IsNamed(hs[i], Lit("content-length")) ==>
             hs[i].value == ToChars(|body.octets|, 10))
    || (&& Lacks(hs, Lit("content-length")) && !Lacks(hs, Lit("transfer-encoding"))
        && body.Chunked? && body.current == [] && body.owed == []
        && forall i :: 0 <= i < |hs| && IsNamed(hs[i], Lit("transfer-encoding")) ==>
             ContainsCaseInsensitive(hs[i].value, Lit("chunked")))
  }

  /** Headers that frame a body are read as the framing of exactly that body. */
  lemma FramingIsRead(hs: seq<Header>, body: Body)
    requires Frames(hs, body)
    ensures FramingSpec(PutAll(map[], hs)) == Some((|body.Ready()|, body.Sized?))
  {
    NothingContains(CHUNKED);
    hide PutAll, Lower, ToChars, LongFromChars, ContainsCaseInsensitive, IsNamed;
    LastValueStays(map[], hs, CONTENT_LENGTH, 0);
    LastValueStays(map[], hs, TRANSFER_ENCODING, 0);
    if !Lacks(hs, CONTENT_LENGTH) {
      LengthIsRead(|body.octets|);
      var i := LastOccurrence(hs, CONTENT_LENGTH);
      LastValueStays(map[], hs, CONTENT_LENGTH, i);
    }
    if !Lacks(hs, TRANSFER_ENCODING) {
      var i := LastOccurrence(hs, TRANSFER_ENCODING);
      LastValueStays(map[], hs, TRANSFER_ENCODING, i);
    }
  }

  /** A content length comes before any transfer coding. */
  lemma LengthComesFirst(hs: seq<Header>, i: nat, n: nat)
    requires i < |hs| && IsNamed(hs[i], Lit("Content-Length")) && Lacks(hs[i + 1..], Lit("Content-Length"))
    requires hs[i].value == ToChars(n, 10) && n <= LONG_MAX
    ensures FramingSpec(PutAll(map[], hs)) == Some((n, true))
  {
    NameOfLength();
    hide PutAll, Lower, ToChars, LongFromChars, ContainsCaseInsensitive, IsNamed;
    LengthIsRead(n);
    LastValueStays(map[], hs, Lit("Content-Length"), i);
    GetByName(PutAll(map[], hs), Lit("Content-Length"), CONTENT_LENGTH);
  }

  /** One that does not begin with a digit, or that is negative, is no framing at all. */
  lemma LengthIsRefused(hs: seq<Header>, i: nat)
    requires i < |hs| && IsNamed(hs[i], Lit("Content-Length")) && Lacks(hs[i + 1..], Lit("Content-Length"))
    requires NotALength(hs[i].value)
    ensures FramingSpec(PutAll(map[], hs)) == None
  {
    hide *;
    NameOfLength();
    NotANumber(hs[i].value);
    LastValueStays(map[], hs, Lit("Content-Length"), i);
    GetByName(PutAll(map[], hs), Lit("Content-Length"), CONTENT_LENGTH);
    FramingOfLength(PutAll(map[], hs), hs[i].value);
  }

  ghost predicate NotALength(v: bytes) {
    && v != [] && NoDigit(v[0], 10)
    && (v[0] == '-' as int ==> exists n: nat :: 0 < n && v == ['-' as int] + ToChars(n, 10))
  }

  lemma NotANumber(v: bytes)
    requires NotALength(v)
    ensures v != [] && (LongFromChars(v, 10).Parsed? ==> LongFromChars(v, 10).value < 0)
  {
    if v[0] != '-' as int {
      NothingIsRead(v, 10);
    } else {
      var n: nat :| 0 < n && v == ['-' as int] + ToChars(n, 10);
      NegativeIsRead(n, 10);
    }
  }

  lemma FramingOfLength(m: HeaderMap, v: bytes)
    requires Get(m, CONTENT_LENGTH) == Some(v) && v != []
    ensures FramingSpec(m) ==
      var n := LongFromChars(v, 10);
      if !n.Parsed? || n.value < 0 then None else Some((n.value, true))
  {
  }

  lemma NameOfLength()
    ensures Lower(Lit("Content-Length")) == Lower(CONTENT_LENGTH)
    ensures Lower(Lit("Transfer-Encoding")) == Lower(TRANSFER_ENCODING)
  {
  }

  lemma GetByName(m: HeaderMap, a: bytes, b: bytes)
    requires Lower(a) == Lower(b)
    ensures Get(m, a) == Get(m, b)
  {
  }

  lemma LengthIsRead(n: nat)
    requires n <= LONG_MAX
    ensures LongFromChars(ToChars(n, 10), 10) == Parsed(n)
  {
    ToCharsFromChars(n, 10, LONG_MIN, LONG_MAX, []);
    Unit(ToChars(n, 10));
  }

  lemma NothingContains(search: bytes)
    ensures search != [] ==> !ContainsCaseInsensitive([], search)
    ensures Get(map[], search) == None
  {
  }

  /** A request as a client sends it. */
  datatype SentRequest = SentRequest(
    verb: HttpMethod, target: SentTarget, version: HttpVersion, headers: seq<Header>, body: Body)
  {
    /** The line and the headers can be printed, and the headers frame the body that follows. */
    ghost predicate WellFormed() {
      && target.WellFormed() && target.Uri() != [] && SPACE !in target.Uri() && LF !in target.Uri()
      && WellFormedHeaders(headers) && body.WellFormed() && Frames(headers, body)
    }

    function Parsed(): Request {
      Request(RequestLine(verb, target.Meant(), version), PutAll(map[], headers))
    }

    function OnWire(tail: bytes): bytes {
      PrintRequestLine(verb, target.Uri(), version) + (CRLF + HeadersOnWire(headers, body.Wire(tail)))
    }
  }

  function Pipeline(rs: seq<SentRequest>, tail: bytes): bytes {
    if rs == [] then tail else rs[0].OnWire(Pipeline(rs[1..], tail))
  }

  /** A well-formed request is parsed back, and its body starts where the decoder does. */
  lemma HeadRoundTrip(r: SentRequest, tail: bytes)
    requires r.WellFormed()
    ensures HeadSpec(r.OnWire(tail)) == Some((r.Parsed(), r.body.State(tail)))
  {
    var line := PrintRequestLine(r.verb, r.target.Uri(), r.version);
    RequestLineHasNoLineFeed(r.verb, r.target.Uri(), r.version);
    RequestLineRoundTrip(r.verb, r.target, r.version);
    LineRoundTrip(line, HeadersOnWire(r.headers, r.body.Wire(tail)));
    HeadersRoundTrip(r.headers, map[], r.body.Wire(tail));
    FramingIsRead(r.headers, r.body);
    hide Frames, LineSpec, RequestLineSpec, HeadersSpec, FramingSpec, PrintRequestLine, HeadersOnWire;
  }

  lemma RequestLineHasNoLineFeed(m: HttpMethod, uri: bytes, v: HttpVersion)
    requires LF !in uri
    ensures LF !in PrintRequestLine(m, uri, v) && PrintRequestLine(m, uri, v) != []
  {
    NamesAreFound(m, v);
    hide MethodName, VersionName;
  }

  /** What the exchange is to look like for the request that was sent. */
  ghost predicate Serves(router: Trie, r: SentRequest, x: Exchange) {
    Responds(router, r.Parsed(), x) && x.replies == Expected(r.body, x.ops)
  }

  /** The connection goes on after the exchange: the body was taken whole, and the client asked for it. */
  ghost predicate GoesOn(r: SentRequest, x: Exchange) {
    Leftover(r.body.Content(), x.ops) == [] && KeepAlive(r.Parsed())
  }

  lemma ExchangeFraming(router: Trie, r: SentRequest, tail: bytes, x: Exchange)
    requires r.WellFormed() && Answers(router, r.Parsed(), r.body.State(tail), x)
    ensures Serves(router, r, x)
    ensures Continues(r.Parsed(), r.body.State(tail), x) == if GoesOn(r, x) then Some(tail) else None
  {
    RunDelivers(r.body, tail, x.ops);
    RunEnds(r.body, tail, x.ops);
    hide RunSpec, Advance, Leftover, Expected, KeepAlive, Body.State, Body.Content, IsResponseTo, RouterTries.Match;
  }

  /** The log is of the first requests, in order; if the conversation is over before the last, one did not go on. */
  ghost predicate ServedInOrder(router: Trie, rs: seq<SentRequest>, log: seq<Exchange>, finished: bool) {
    && |log| <= |rs|
    && (forall i :: 0 <= i < |log| ==> Serves(router, rs[i], log[i]))
    && (forall i :: 0 <= i < |log| - 1 ==> GoesOn(rs[i], log[i]))
    && (finished && |log| < |rs| ==> 0 < |log| && !GoesOn(rs[|log| - 1], log[|log| - 1]))
  }

  lemma ServedNext(router: Trie, rs: seq<SentRequest>, log: seq<Exchange>, finished: bool)
    requires rs != [] && log != [] && Serves(router, rs[0], log[0])
    requires if GoesOn(rs[0], log[0]) then ServedInOrder(router, rs[1..], log[1..], finished) else |log| == 1
    ensures ServedInOrder(router, rs, log, finished)
  {
    hide Serves, GoesOn;
    assert forall i :: 0 < i < |log| ==> log[i] == log[1..][i - 1];
    assert forall i :: 0 < i < |rs| ==> rs[i] == rs[1..][i - 1];
  }

  lemma {:induction false} PipelineServed(
    router: Trie, rs: seq<SentRequest>, tail: bytes, log: seq<Exchange>, finished: bool)
    requires forall i :: 0 <= i < |rs| ==> rs[i].WellFormed()
    requires HeadSpec(tail) == None
    requires Conversation(router, Pipeline(rs, tail), log, finished)
    ensures ServedInOrder(router, rs, log, finished)
    decreases |rs|
  {
    hide HeadSpec, Answers, Continues, Serves, GoesOn, SentRequest.OnWire, SentRequest.WellFormed, SentRequest.Parsed;
    if rs != [] {
      var rest := Pipeline(rs[1..], tail);
      HeadRoundTrip(rs[0], rest);
      if log != [] {
        ExchangeFraming(router, rs[0], rest, log[0]);
        if GoesOn(rs[0], log[0]) {
          PipelineServed(router, rs[1..], tail, log[1..], finished);
        }
        hide *;
        ServedNext(router, rs, log, finished);
      }
    }
  }

  /**
   * Pipelined requests are served in the order they were sent, each from its own octets:
   * request i of the log is request i of the pipeline, it went to the endpoint that the
   * router has for its path, which was answered from its own body alone, and the next
   * request was looked for exactly where its body ends.
   */
  lemma PipelineFraming(
    router: Trie, rs: seq<SentRequest>, tail: bytes, log: seq<Exchange>, finished: bool)
    requires forall i :: 0 <= i < |rs| ==> rs[i].WellFormed()
    requires HeadSpec(tail) == None
    requires Conversation(router, Pipeline(rs, tail), log, finished)
    ensures |log| <= |rs|
    ensures forall i :: 0 <= i < |log| ==> Serves(router, rs[i], log[i])
    ensures forall i :: 0 <= i < |log| - 1 ==> GoesOn(rs[i], log[i])
    ensures finished && |log| < |rs| ==> 0 < |log| && !GoesOn(rs[|log| - 1], log[|log| - 1])
  {
    PipelineServed(router, rs, tail, log, finished);
    hide Serves, GoesOn;
  }

  /** With the router of any registrations, that endpoint is the one that the walk over the tables finds. */
  lemma PipelineRouting(routes: seq<Route>, r: SentRequest, x: Exchange)
    requires AllRegistrable(routes) && Serves(Build(routes), r, x)
    ensures x.request.line.target == r.target.Meant() && x.request.line.verb == r.verb
    ensures Walk(Marked(routes), Accepted(routes), [], r.verb, Split(r.target.path, '/' as int), map[])
      == Ok((x.endpoint, x.bound))
  {
    MatchIsWalk(routes, r.verb, Split(r.target.path, '/' as int), map[]);
    hide Split, RouterTries.Match, Build, Marked, Accepted, IsResponseTo;
  }

  /** The pipeline may end in nothing, or in a line that was never finished. */
  lemma UnfinishedLineIsNoRequest(tail: bytes)
    requires LF !in tail
    ensures HeadSpec(tail) == None
  {
    IndexOfUnique(tail, LF, |tail|);
  }

  // ------------------------------------------------------------ reading a head

  /** The header loop once its next line has been read. */
  function HeadersAfter(line: HttpLine, rest: bytes, m: HeaderMap): HeadersResult {
    if !line.HasValue() then HeadersResult(m, line.IsLastLine(), rest)
    else
      match HeaderLineSpec(line.val)
      case None => HeadersResult(m, false, rest)
      case Some(h) => HeadersSpec(rest, Put(m, h.name, h.value))
  }

  lemma HeadersTurn(s: bytes, m: HeaderMap)
    ensures HeadersSpec(s, m) == HeadersAfter(LineSpec(s).0, LineSpec(s).1, m)
  {
    hide LineSpec, HeaderLineSpec;
  }

  /** The header loop: true iff it ended at the blank line. */
  method ReadHeaders(sock: Socket, req: HttpRequest) returns (r: Outcome<bool>)
    requires sock.Valid()
    modifies sock.Repr(), req
    ensures sock.Valid() && sock.Outgoing() == old(sock.Outgoing())
    ensures req.Line() == old(req.Line())
    ensures r.Throw? ==> r.error == IoError
    ensures r.Ok? ==> HeadersSpec(old(sock.Incoming()), old(req.headers)) ==
                      HeadersResult(req.headers, r.value, sock.Incoming())
  {
    hide Socket.Valid, Socket.Incoming, Socket.Outgoing, LineSpec, HeadersSpec, HeaderLineSpec;
    HeadersTurn(sock.Incoming(), req.headers);
    var line :- ReadHttpLine(sock);
    while line.HasValue()
      invariant sock.Valid() && sock.Outgoing() == old(sock.Outgoing()) && req.Line() == old(req.Line())
      invariant HeadersSpec(old(sock.Incoming()), old(req.headers)) ==
                HeadersAfter(line, sock.Incoming(), req.headers)
      decreases |sock.Incoming()|, line.HasValue()
    {
      var ok := req.ProcessHeaderLine(line.val);
      if !ok {
        return Ok(false);
      }
      HeadersTurn(sock.Incoming(), req.headers);
      LineProgress(sock.Incoming());
      line :- ReadHttpLine(sock);
    }
    return Ok(line.IsLastLine());
  }

  /** The framing of the body that the headers announce. */
  method ReadFraming(m: HeaderMap) returns (r: Option<(nat, bool)>)
    ensures r == FramingSpec(m)
  {
    var length := ValueOr(Get(m, CONTENT_LENGTH), []);
    var coding := ValueOr(Get(m, TRANSFER_ENCODING), []);
    if length != [] {
      var n := LongFromChars(length, 10);
      if !n.Parsed? || n.value < 0 {
        return None;
      }
      return Some((n.value, true));
    }
    var pos := FindCaseInsensitive(coding, CHUNKED);
    return Some((0, pos == -1));
  }

  /** Everything up to the body; false when the connection is to be closed instead. */
  method ReadHead(sock: Socket, req: HttpRequest) returns (r: Outcome<bool>, length: nat, ended: bool)
    requires sock.Valid() && req.headers == map[] && req.query == [] && req.queryParams == []
    modifies sock.Repr(), req
    ensures sock.Valid() && sock.Outgoing() == old(sock.Outgoing())
    ensures r.Throw? ==> r.error == IoError
    ensures r == Ok(false) ==> HeadSpec(old(sock.Incoming())) == None
    ensures r == Ok(true) ==>
      HeadSpec(old(sock.Incoming())) == Some((req.Value(), BodyState(length, ended, sock.Incoming())))
    ensures r == Ok(true) ==> |sock.Incoming()| < |old(sock.Incoming())|
  {
    hide Socket.Valid, Socket.Incoming, Socket.Outgoing, LineSpec, HeadersSpec, RequestLineSpec, FramingSpec;
    length, ended := 0, true;
    ghost var s := sock.Incoming();
    LineProgress(s);
    var line := ReadHttpLine(sock);
    if line.Throw? {
      return Throw(line.error), length, ended;
    }
    if !line.value.HasValue() {
      return Ok(false), length, ended;
    }
    var ok := req.ProcessReqLine(line.value.val);
    if !ok {
      return Ok(false), length, ended;
    }
    HeadersShrink(sock.Incoming(), map[]);
    var complete := ReadHeaders(sock, req);
    if complete.Throw? {
      return Throw(complete.error), length, ended;
    }
    if !complete.value {
      return Ok(false), length, ended;
    }
    var framing := ReadFraming(req.headers);
    if framing == None {
      return Ok(false), length, ended;
    }
    return Ok(true), framing.value.0, framing.value.1;
  }

  lemma {:induction false} HeadersShrink(s: bytes, m: HeaderMap)
    ensures |HeadersSpec(s, m).rest| <= |s|
    decreases |s|
  {
    hide LineSpec, HeaderLineSpec;
    LineProgress(s);
    var (line, rest) := LineSpec(s);
    if line.HasValue() && HeaderLineSpec(line.val).Some? {
      var h := HeaderLineSpec(line.val).value;
      HeadersShrink(rest, Put(m, h.name, h.value));
    }
  }

  // ------------------------------------------------------------ serving a request

  lemma {:induction false} RunAppend(st: BodyState, ops: seq<BodyOp>, op: BodyOp)
    requires RunSpec(st, ops).Ok? && StepSpec(RunSpec(st, ops).value.1, op).Ok?
    ensures var (replies, st1) := RunSpec(st, ops).value;
      var (reply, st2) := StepSpec(st1, op).value;
      RunSpec(st, ops + [op]) == Ok((replies + [reply], st2))
    decreases |ops|
  {
    hide StepSpec;
    if ops == [] {
      var reply := StepSpec(st, op).value.0;
      assert [] + [op] == [op] && [op][1..] == [];
      assert [reply] + [] == [] + [reply];
    } else {
      assert (ops + [op])[1..] == ops[1..] + [op] && (ops + [op])[0] == ops[0];
      var (first, st0) := StepSpec(st, ops[0]).value;
      var (others, st1) := RunSpec(st0, ops[1..]).value;
      var last := StepSpec(st1, op).value.0;
      RunAppend(st0, ops[1..], op);
      assert [first] + (others + [last]) == ([first] + others) + [last];
    }
  }

  /** One call of an endpoint on the body, of a kind and size of its choosing. */
  method ServeBodyCall(body: HttpBody) returns (r: Outcome<(BodyOp, Reply)>)
    requires body.sock.Valid()
    modifies body, body.sock.Repr()
    ensures body.sock.Valid() && body.sock.Outgoing() == old(body.sock.Outgoing())
    ensures r.Ok? ==> StepSpec(old(body.State()), r.value.0) == Ok((r.value.1, body.State()))
  {
    hide Socket.Valid, Socket.Incoming, Socket.Outgoing, Advance, ReadSpec, RawReadSpec;
    var size: nat := *;
    var fill: bytes := *;
    if * {
      var more :- body.HasIncoming();
      return Ok((HasIncoming, Has(more)));
    } else if * {
      var dest := new byte[|fill|](i requires 0 <= i < |fill| => fill[i]);
      assert dest[..] == fill;
      var n :- body.ReadRaw(dest, |fill|);
      return Ok((BodyOp.ReadRaw(fill), Raw(n, dest[..])));
    } else if * {
      var octets :- body.Read(size);
      return Ok((BodyOp.Read(size), Data(octets)));
    } else {
      var n :- body.Skip(size);
      return Ok((BodyOp.Skip(size), Count(n)));
    }
  }

  /** One call of an endpoint on the head of the response: the status, a header, or the length. */
  method ServeHeadCall(res: HttpOutput, ghost said: seq<Saying>) returns (r: Outcome<()>, ghost said1: seq<Saying>)
    requires res.Valid() && Says(res, said)
    modifies res`status, res`headers
    ensures r.Ok? ==> res.Valid() && Says(res, said1) && DataOf(said1) == DataOf(said)
  {
    hide Socket.Valid, Socket.Incoming, Socket.Outgoing, HttpOutput.Valid, HeadOf, DataOf, Put, ToChars;
    var a: bytes := *;
    var b: bytes := *;
    var n: int := *;
    ghost var one;
    r := Ok(());
    if * {
      res.SetStatus(a);
      one := SaidStatus(a);
    } else if * {
      res.SetHeader(a, b);
      one := SaidHeader(a, b);
    } else {
      r := res.SetContentLength(n);
      one := if r.Ok? then SaidLength(n) else SaidLength(0);
    }
    SaysOneMore(said, one);
    said1 := said + [one];
    assert DataOf(said) + [] == DataOf(said);
  }

  /** One write of an endpoint. */
  method ServeWrite(res: HttpOutput, ghost said: seq<Saying>) returns (r: Outcome<()>, ghost said1: seq<Saying>)
    requires res.Valid() && Writable(DataOf(said)) && Says(res, said)
    modifies res, res.sock.Repr()
    ensures res.sock.Valid() && res.sock.Incoming() == old(res.sock.Incoming())
    ensures res.base <= res.sock.Outgoing()
    ensures r.Ok? ==> res.Valid() && Writable(DataOf(said1)) && Says(res, said1)
  {
    hide Socket.Valid, Socket.Incoming, Socket.Outgoing, HttpOutput.Valid, HeadOf, DataOf;
    HttpOutputSocket(res);
    said1 := said;
    var data: bytes := *;
    if |data| > LONG_MAX {
      return Ok(()), said1;
    }
    r := res.Write(data);
    if r.Ok? {
      assert Writes(DataOf(said) + [data]) == Writes(DataOf(said)) + [Wrote(data)];
      SaysOneMore(said, SaidData(data));
      said1 := said + [SaidData(data)];
    }
  }

  lemma HttpOutputSocket(res: HttpOutput)
    requires res.Valid()
    ensures res.sock.Valid() && res.sock.Outgoing() == res.base + res.Response()
    ensures Filed(res.headers) && if res.headersWritten then res.HeadPrinted() else res.calls == []
  {
  }

  lemma ResponseStands(res: HttpOutput)
    requires res.sock.Valid() && res.sock.Outgoing() == res.base + res.Response()
    requires Filed(res.headers) && if res.headersWritten then res.HeadPrinted() else res.calls == []
    ensures res.Valid()
  {
  }

  lemma NothingSaid()
    ensures DataOf([]) == [] && HeadOf([]) == (OK_PHRASE, map[])
  {
  }

  lemma NoWrites(st: BodyState)
    ensures Writable([]) && DataOf([]) == [] && RunSpec(st, []) == Ok(([], st))
  {
  }

  /** `http_endpoint::serve`: any finite, adaptive sequence of calls on the body and the response. */
  method Serve(body: HttpBody, res: HttpOutput)
    returns (r: Outcome<()>, ghost ops: seq<BodyOp>, ghost replies: seq<Reply>, ghost said: seq<Saying>)
    requires res.Valid() && body.sock == res.sock && Says(res, [])
    modifies body, res, res.sock.Repr()
    ensures res.sock.Valid() && res.base <= res.sock.Outgoing()
    ensures r.Ok? ==> res.Valid() && Writable(DataOf(said)) && Says(res, said)
    ensures r.Ok? ==> RunSpec(old(body.State()), ops) == Ok((replies, body.State()))
  {
    hide Socket.Valid, Socket.Incoming, Socket.Outgoing, HttpOutput.Valid, HttpOutput.HeadPrinted, HttpOutput.Response;
    hide StepSpec, RunSpec, Writable, Filed, Says, DataOf;
    ops, replies, said := [], [], [];
    HttpOutputSocket(res);
    ghost var st := body.State();
    NoWrites(st);
    var turns: nat := *;
    while 0 < turns
      invariant res.Valid() && Writable(DataOf(said)) && Says(res, said)
      invariant res.sock.Valid() && RunSpec(st, ops) == Ok((replies, body.State()))
    {
      HttpOutputSocket(res);
      if * {
        var c;
        c, said := ServeHeadCall(res, said);
        if c.Throw? {
          return Throw(c.error), ops, replies, said;
        }
      } else if * {
        var c := ServeBodyCall(body);
        if c.Throw? {
          return Throw(c.error), ops, replies, said;
        }
        RunAppend(st, ops, c.value.0);
        ops, replies := ops + [c.value.0], replies + [c.value.1];
        ResponseStands(res);
      } else {
        var c;
        c, said := ServeWrite(res, said);
        if c.Throw? {
          return Throw(c.error), ops, replies, said;
        }
      }
      turns := turns - 1;
    }
    HttpOutputSocket(res);
    return Ok(()), ops, replies, said;
  }

  // ------------------------------------------------------------ the connection

  function Responses(log: seq<Exchange>): bytes {
    if log == [] then [] else Responses(log[..|log| - 1]) + log[|log| - 1].response
  }

  /** Whatever conversation goes on from s completes the log to one from s0. */
  ghost predicate Reaches(router: Trie, s0: bytes, log: seq<Exchange>, s: bytes) {
    forall more, finished ::
      Conversation(router, s, more, finished) ==> Conversation(router, s0, log + more, finished)
  }

  lemma ReachesStart(router: Trie, s: bytes)
    ensures Reaches(router, s, [], s) && Responses([]) == []
  {
    forall more, finished | Conversation(router, s, more, finished)
      ensures Conversation(router, s, [] + more, finished)
    {
      assert [] + more == more;
    }
  }

  lemma ReachesNext(router: Trie, s0: bytes, log: seq<Exchange>, s: bytes, x: Exchange)
    requires Reaches(router, s0, log, s) && HeadSpec(s).Some?
    requires Answers(router, HeadSpec(s).value.0, HeadSpec(s).value.1, x)
    ensures Conversation(router, s0, log + [x], false)
    ensures var rest := Continues(HeadSpec(s).value.0, HeadSpec(s).value.1, x);
      if rest.None? then Conversation(router, s0, log + [x], true)
      else Reaches(router, s0, log + [x], rest.value)
    ensures Responses(log + [x]) == Responses(log) + x.response
  {
    hide HeadSpec, Answers, Continues;
    assert (log + [x])[..|log|] == log;
    assert [x][1..] == [];
    var rest := Continues(HeadSpec(s).value.0, HeadSpec(s).value.1, x);
    assert Conversation(router, s, [x], false);
    if rest.None? {
      assert Conversation(router, s, [x], true);
    } else {
      forall more, finished | Conversation(router, rest.value, more, finished)
        ensures Conversation(router, s0, log + [x] + more, finished)
      {
        assert ([x] + more)[1..] == more;
        assert Conversation(router, s, [x] + more, finished);
        assert log + ([x] + more) == log + [x] + more;
      }
    }
  }

  lemma ReachesEnd(router: Trie, s0: bytes, log: seq<Exchange>, s: bytes)
    requires Reaches(router, s0, log, s)
    ensures Conversation(router, s0, log, false)
    ensures HeadSpec(s) == None ==> Conversation(router, s0, log, true)
  {
    assert log + [] == log;
    assert Conversation(router, s, [], false);
    assert HeadSpec(s) == None ==> Conversation(router, s, [], true);
  }

  /** The endpoint, or the 404 response, and the end of the response. */
  method Handle(endpoint: Option<Endpoint>, body: HttpBody, res: HttpOutput)
    returns (r: Outcome<()>, ghost ops: seq<BodyOp>, ghost replies: seq<Reply>, ghost said: seq<Saying>)
    requires res.Valid() && body.sock == res.sock && Says(res, [])
    modifies body, res, res.sock.Repr()
    ensures res.sock.Valid() && res.base <= res.sock.Outgoing()
    ensures r.Ok? ==> RunSpec(old(body.State()), ops) == Ok((replies, body.State()))
    ensures r.Ok? ==> res.sock.Outgoing() == res.base + res.Response()
    ensures r.Ok? ==> IsResponseTo(res.Response(), said) && Writable(DataOf(said))
    ensures endpoint == None ==> ops == [] && said == NO_ENDPOINT
  {
    hide Socket.Valid, Socket.Incoming, Socket.Outgoing, HttpOutput.Valid, HttpOutput.HeadPrinted, HttpOutput.Response;
    hide RunSpec, Writable, IsResponseTo, Says;
    HttpOutputSocket(res);
    NoWrites(body.State());
    ops, replies, said := [], [], [];
    if endpoint.Some? {
      r, ops, replies, said := Serve(body, res);
      if r.Throw? {
        return;
      }
    } else {
      said := NO_ENDPOINT;
      r := SayNotFound(res);
    }
    r := Finish(res, said);
  }

  method SayNotFound(res: HttpOutput) returns (r: Outcome<()>)
    requires res.Valid() && Says(res, [])
    modifies res
    ensures r.Ok? && res.Valid() && Says(res, NO_ENDPOINT) && DataOf(NO_ENDPOINT) == []
  {
    hide Socket.Valid, Socket.Incoming, Socket.Outgoing, HttpOutput.Valid;
    res.SetStatus(NOT_FOUND);
    r := res.SetContentLength(0);
    NotFoundHead();
  }

  /** `end`: the response is complete, and says what was said. */
  method Finish(res: HttpOutput, ghost said: seq<Saying>) returns (r: Outcome<()>)
    requires res.Valid() && Says(res, said)
    modifies res, res.sock.Repr()
    ensures res.sock.Valid() && res.sock.Incoming() == old(res.sock.Incoming())
    ensures res.base <= res.sock.Outgoing()
    ensures r.Ok? ==> res.sock.Outgoing() == res.base + res.Response() && IsResponseTo(res.Response(), said)
  {
    hide Socket.Valid, Socket.Incoming, Socket.Outgoing, HttpOutput.Valid, HttpOutput.HeadPrinted;
    hide HeadOf, DataOf, IsOrder, IsChunked, ResponseBytes, Filed;
    HttpOutputSocket(res);
    r := res.End();
    if r.Ok? {
      HttpOutputSocket(res);
      PrintedOrder(res);
    }
  }

  /** One turn of the loop, up to the end of the response. */
  method Respond(sock: Socket, router: HttpRouter, req: HttpRequest, body: HttpBody)
    returns (r: Outcome<()>, ghost x: Exchange)
    requires sock.Valid() && router.Valid() && router.Repr !! sock.Repr() && body.sock == sock
    modifies body, sock.Repr(), req`pathParams
    ensures sock.Valid() && req.Value() == old(req.Value()) && old(sock.Outgoing()) <= sock.Outgoing()
    ensures r.Ok? ==> Answers(router.model, req.Value(), old(body.State()), x) && req.pathParams == x.bound
    ensures r.Ok? ==> RunSpec(old(body.State()), x.ops) == Ok((x.replies, body.State()))
    ensures r.Ok? ==> sock.Outgoing() == old(sock.Outgoing()) + x.response
  {
    hide Socket.Valid, Socket.Incoming, Socket.Outgoing, HttpOutput.Valid, HttpOutput.Response, RunSpec, Split;
    hide RouterTries.Match, IsResponseTo, HttpRouter.Valid, Writable, DataOf, HeadOf;
    NothingSaid();
    x := Exchange(req.Value(), None, map[], [], [], [], []);
    var e, bound := router.Match(req.verb, req.path, map[]);
    if e.Throw? {
      return Throw(e.error), x;
    }
    req.pathParams := bound;
    var res := new HttpOutput(sock);
    ghost var ops, replies, said;
    r, ops, replies, said := Handle(e.value, body, res);
    x := Exchange(req.Value(), e.value, bound, ops, replies, said, res.Response());
  }

  /** One turn of the loop; `served` when a request was answered, and then x is that exchange. */
  method Turn(sock: Socket, router: HttpRouter) returns (r: Outcome<bool>, served: bool, ghost x: Exchange)
    requires sock.Valid() && router.Valid() && router.Repr !! sock.Repr()
    modifies sock.Repr()
    ensures sock.Valid() && old(sock.Outgoing()) <= sock.Outgoing()
    ensures r.Ok? && !served ==> !r.value && HeadSpec(old(sock.Incoming())) == None
    ensures r.Ok? && !served ==> sock.Outgoing() == old(sock.Outgoing())
    ensures served ==> HeadSpec(old(sock.Incoming())).Some?
    ensures served ==> var (q, st) := HeadSpec(old(sock.Incoming())).value;
      && Answers(router.model, q, st, x)
      && (r.Ok? ==> Continues(q, st, x) == if r.value then Some(sock.Incoming()) else None)
    ensures served ==> sock.Outgoing() == old(sock.Outgoing()) + x.response
    ensures r.Ok? && r.value ==> |sock.Incoming()| < |old(sock.Incoming())|
  {
    hide Socket.Valid, Socket.Incoming, Socket.Outgoing, HeadSpec, Answers, Continues, RunSpec, KeepAlive, Advance;
    hide HttpRouter.Valid, HttpRequest.Value, HttpRequest.Line;
    var req := new HttpRequest();
    x := Exchange(req.Value(), None, map[], [], [], [], []);
    var head, length, ended := ReadHead(sock, req);
    if head.Throw? {
      return Throw(head.error), false, x;
    }
    if !head.value {
      return Ok(false), false, x;
    }
    var body := new HttpBody(length, ended, sock);
    ghost var st := body.State();
    var answered;
    answered, x := Respond(sock, router, req, body);
    if answered.Throw? {
      return Throw(answered.error), false, x;
    }
    RunShrinks(st, x.ops);
    ContinuesAfter(req.Value(), st, x, body.State());
    r := DecideKeep(req, body);
    return r, true, x;
  }

  /** The end of a turn: nothing of the body is left, and the client wants to go on. */
  method DecideKeep(req: HttpRequest, body: HttpBody) returns (r: Outcome<bool>)
    requires body.sock.Valid()
    modifies body, body.sock.Repr()
    ensures body.sock.Valid() && body.sock.Outgoing() == old(body.sock.Outgoing())
    ensures r.Ok? ==> Advance(old(body.State())) == Ok(body.State())
    ensures r.Ok? ==> (r.value <==> body.incoming == 0 && KeepAlive(req.Value()))
  {
    hide Socket.Valid, Socket.Incoming, Socket.Outgoing, Advance;
    var more :- body.HasIncoming();
    var conn := ValueOr(Get(req.headers, CONNECTION), DefaultConnType(req.version));
    var pos := FindCaseInsensitive(conn, KEEP_ALIVE);
    return Ok(!more && pos != -1);
  }

  /**
   * `on_connection`: the log of what was done, and the responses in the same order.  After
   * an exception they are followed by what the turn that failed had written.
   */
  method OnConnection(sock: Socket, router: HttpRouter) returns (r: Outcome<()>, ghost log: seq<Exchange>)
    requires sock.Valid() && router.Valid() && router.Repr !! sock.Repr()
    modifies sock.Repr()
    ensures sock.Valid()
    ensures Conversation(router.model, old(sock.Incoming()), log, r.Ok?)
    ensures r.Ok? ==> sock.Outgoing() == old(sock.Outgoing()) + Responses(log)
    ensures old(sock.Outgoing()) + Responses(log) <= sock.Outgoing()
  {
    hide Socket.Valid, Socket.Incoming, Socket.Outgoing, HeadSpec, Answers, Continues, Conversation, Reaches, Responses;
    log := [];
    var keepConn := true;
    ReachesStart(router.model, sock.Incoming());
    Unit(sock.Outgoing());
    while keepConn
      invariant sock.Valid() && router.Valid() && router.Repr !! sock.Repr() && router.model == old(router.model)
      invariant sock.Outgoing() == old(sock.Outgoing()) + Responses(log)
      invariant if keepConn then Reaches(router.model, old(sock.Incoming()), log, sock.Incoming())
                else Conversation(router.model, old(sock.Incoming()), log, true)
      decreases keepConn, |sock.Incoming()|
    {
      ghost var s := sock.Incoming();
      ReachesEnd(router.model, old(sock.Incoming()), log, s);
      var turn, served;
      ghost var x;
      turn, served, x := Turn(sock, router);
      if served {
        ReachesNext(router.model, old(sock.Incoming()), log, s, x);
        Assoc(old(sock.Outgoing()), Responses(log), x.response);
        log := log + [x];
      }
      if turn.Throw? {
        return Throw(turn.error), log;
      }
      keepConn := turn.value;
    }
    return Ok(()), log;
  }

  lemma ContinuesAfter(req: Request, st: BodyState, x: Exchange, st1: BodyState)
    requires RunSpec(st, x.ops) == Ok((x.replies, st1))
    ensures Continues(req, st, x) ==
      match Advance(st1)
      case Throw(_) => None
      case Ok(st2) => if st2.incoming == 0 && KeepAlive(req) then Some(st2.stream) else None
    ensures Advance(st1).Ok? ==> |Advance(st1).value.stream| <= |st1.stream|
  {
    hide RunSpec, Advance, KeepAlive;
  }

  lemma {:induction false} ReadShrinks(st: BodyState, size: nat)
    ensures ReadSpec(st, size).Ok? ==> |ReadSpec(st, size).value.1.stream| <= |st.stream|
    decreases size
  {
    hide Advance;
    if 0 < size && Advance(st).Ok? {
      var st1 := Advance(st).value;
      var n := Min(size, st1.incoming);
      if 0 < n <= |st1.stream| {
        ReadShrinks(BodyState(st1.incoming - n, st1.ended, st1.stream[n..]), size - n);
      }
    }
  }

  lemma {:induction false} RunShrinks(st: BodyState, ops: seq<BodyOp>)
    ensures RunSpec(st, ops).Ok? ==> |RunSpec(st, ops).value.1.stream| <= |st.stream|
    decreases |ops|
  {
    if ops != [] {
      ReadShrinks(st, Size(ops[0]));
      if ops[0].ReadRaw? {
        RawReadIsRead(st, |ops[0].dest|, ops[0].dest);
      }
      hide Advance, ReadSpec, RawReadSpec;
      if StepSpec(st, ops[0]).Ok? {
        RunShrinks(StepSpec(st, ops[0]).value.1, ops[1..]);
      }
    }
  }

  lemma PrintedOrder(res: HttpOutput)
    requires res.headersWritten && res.HeadPrinted()
    ensures IsOrder(res.printedHeaders, res.printed) && (res.chunkedEncoding <==> IsChunked(res.printedHeaders))
    ensures res.Response() == ResponseBytes(res.printedStatus, res.printed, res.chunkedEncoding, res.calls)
  {
  }
}
