/** Request lines and header lines. */
module HttpRequests {
  import opened Bytes
  import opened HttpUtil
  import opened HttpLines

  datatype HttpMethod = GET | POST | HEAD | OPTIONS

  datatype HttpVersion = HTTP_1_0 | HTTP_1_1

  const QUESTION: byte := 63

  function MethodName(m: HttpMethod): bytes {
    match m
    case GET => Lit("GET")
    case POST => Lit("POST")
    case HEAD => Lit("HEAD")
    case OPTIONS => Lit("OPTIONS")
  }

  function VersionName(v: HttpVersion): bytes {
    match v
    case HTTP_1_0 => Lit("HTTP/1.0")
    case HTTP_1_1 => Lit("HTTP/1.1")
  }

  /** `method_map`. */
  function FindMethod(s: bytes): Option<HttpMethod> {
    if s == MethodName(GET) then Some(GET)
    else if s == MethodName(POST) then Some(POST)
    else if s == MethodName(HEAD) then Some(HEAD)
    else if s == MethodName(OPTIONS) then Some(OPTIONS)
    else None
  }

  /** `version_map`. */
  function FindVersion(s: bytes): Option<HttpVersion> {
    if s == VersionName(HTTP_1_0) then Some(HTTP_1_0)
    else if s == VersionName(HTTP_1_1) then Some(HTTP_1_1)
    else None
  }

  lemma NamesAreFound(m: HttpMethod, v: HttpVersion)
    ensures FindMethod(MethodName(m)) == Some(m) && FindVersion(VersionName(v)) == Some(v)
    ensures MethodName(m) != [] && SPACE !in MethodName(m) && LF !in MethodName(m)
    ensures VersionName(v) != [] && SPACE !in VersionName(v) && LF !in VersionName(v)
  {
    assert MethodName(GET)[0] == 71 && MethodName(POST)[0] == 80;
    assert MethodName(HEAD)[0] == 72 && MethodName(OPTIONS)[0] == 79;
    assert VersionName(HTTP_1_0)[7] == 48 && VersionName(HTTP_1_1)[7] == 49;
  }

  /** A request target up to its first question mark, and after it. */
  datatype Target = Target(path: bytes, query: bytes, params: seq<(bytes, bytes)>)

  function TargetSpec(uri: bytes): Target {
    var k := IndexOf(uri, QUESTION);
    if k == |uri| then Target(uri, [], [])
    else Target(uri[..k], uri[k + 1..], Params(uri[k + 1..], []))
  }

  /** A request target as it is meant: a path, and perhaps a query of some fields. */
  datatype SentTarget = SentTarget(path: bytes, query: Option<seq<Field>>) {
    ghost predicate WellFormed() {
      '?' as int !in path && (query.Some? ==> WellFormedFields(query.value))
    }

    function Uri(): bytes {
      if query.None? then path else path + (['?' as int] + PrintFields(query.value))
    }

    function Meant(): Target {
      if query.None? then Target(path, [], []) else Target(path, PrintFields(query.value), BoundBy(query.value, []))
    }
  }

  /** A target is cut at its first question mark: its path before, its query after it. */
  lemma TargetIsCut(path: bytes, query: bytes)
    requires '?' as int !in path
    ensures TargetSpec(path) == Target(path, [], [])
    ensures TargetSpec(path + (['?' as int] + query)) == Target(path, query, Params(query, []))
  {
    var uri := path + (['?' as int] + query);
    assert path[..|path|] == path;
    IndexOfUnique(path, QUESTION, |path|);
    assert uri[..|path|] == path && uri[|path| + 1..] == query;
    IndexOfUnique(uri, QUESTION, |path|);
  }

  lemma TargetIsRead(t: SentTarget)
    requires t.WellFormed()
    ensures TargetSpec(t.Uri()) == t.Meant()
  {
    hide TargetSpec, Params, PrintFields, BoundBy;
    if t.query.None? {
      TargetIsCut(t.path, []);
    } else {
      TargetIsCut(t.path, PrintFields(t.query.value));
      ParamsOfFields(t.query.value, []);
    }
  }

  /** A query printed from `key=value` pairs is read as those pairs, in order. */
  lemma PairsAreRead(path: bytes, ps: seq<(bytes, bytes)>)
    requires '?' as int !in path && forall i :: 0 <= i < |ps| ==> IsToken(ps[i].0) && IsToken(ps[i].1)
    ensures TargetSpec(path + (['?' as int] + PrintParams(ps))) == Target(path, PrintParams(ps), ps)
  {
    TargetIsCut(path, PrintParams(ps));
    ParamsRoundTrip(ps, []);
    hide TargetSpec, Params, PrintParams;
  }

  /** Every target is one that can be meant. */
  lemma EveryTargetIsMeant(uri: bytes) returns (t: SentTarget)
    ensures t.WellFormed() && t.Uri() == uri
  {
    var k := IndexOf(uri, '?' as int);
    if k == |uri| {
      t := SentTarget(uri, None);
    } else {
      var fs := EveryQueryHasFields(uri[k + 1..]);
      t := SentTarget(uri[..k], Some(fs));
      CutAt(uri, k);
    }
  }

  datatype RequestLine = RequestLine(verb: HttpMethod, target: Target, version: HttpVersion)

  function RequestLineSpec(line: bytes): Option<RequestLine> {
    var segments := Split(line, SPACE);
    if |segments| != 3 then None
    else
      match (FindMethod(segments[0]), FindVersion(segments[2]))
      case (Some(m), Some(v)) => Some(RequestLine(m, TargetSpec(segments[1]), v))
      case _ => None
  }

  function PrintRequestLine(m: HttpMethod, uri: bytes, v: HttpVersion): bytes {
    MethodName(m) + ([SPACE] + (uri + ([SPACE] + VersionName(v))))
  }

  /** The names are those of section 9.3 of RFC 9110 and of section 2.3 of RFC 9112, case-sensitive, and no others. */
  lemma NamesOfMethods(s: bytes)
    ensures FindMethod(s) == (
      if s == Lit("GET") then Some(GET) else if s == Lit("POST") then Some(POST)
      else if s == Lit("HEAD") then Some(HEAD) else if s == Lit("OPTIONS") then Some(OPTIONS) else None)
    ensures FindVersion(s) == (
      if s == Lit("HTTP/1.0") then Some(HTTP_1_0) else if s == Lit("HTTP/1.1") then Some(HTTP_1_1) else None)
    ensures FindMethod(s).Some? ==> MethodName(FindMethod(s).value) == s
    ensures FindVersion(s).Some? ==> VersionName(FindVersion(s).value) == s
  {
  }

  /** Exactly these lines are request lines: three pieces, the outer ones known names. */
  lemma RequestLineIff(line: bytes)
    ensures
      var parts := Split(line, ' ' as int);
      RequestLineSpec(line).Some? <==>
      |parts| == 3 && parts[0] in {Lit("GET"), Lit("POST"), Lit("HEAD"), Lit("OPTIONS")}
      && parts[2] in {Lit("HTTP/1.0"), Lit("HTTP/1.1")}
  {
    var parts := Split(line, SPACE);
    if |parts| == 3 {
      NamesOfMethods(parts[0]);
      NamesOfMethods(parts[2]);
    }
    hide Split, FindMethod, FindVersion, TargetSpec;
  }

  /** A printed request line is parsed back: its method, the target that was meant, its version. */
  lemma RequestLineRoundTrip(m: HttpMethod, t: SentTarget, v: HttpVersion)
    requires t.WellFormed() && t.Uri() != [] && SPACE !in t.Uri()
    ensures RequestLineSpec(PrintRequestLine(m, t.Uri(), v)) == Some(RequestLine(m, t.Meant(), v))
  {
    NamesAreFound(m, v);
    TargetIsRead(t);
    var uri := t.Uri();
    hide MethodName, VersionName, FindMethod, FindVersion, TargetSpec;
    var parts := [MethodName(m), uri, VersionName(v)];
    assert Join(parts[2..], SPACE) == VersionName(v);
    assert parts[1..][1..] == parts[2..];
    assert Join(parts[1..], SPACE) == uri + ([SPACE] + VersionName(v));
    assert Join(parts, SPACE) == PrintRequestLine(m, uri, v);
    SplitJoin(parts, SPACE);
  }

  /** The name and value of a header line. */
  function HeaderLineSpec(line: bytes): Option<Header> {
    var pos := IndexOf(line, COLON);
    if pos == |line| then None
    else
      var name := Trim(line[..pos]);
      var value := Trim(line[pos + 1..]);
      if name == [] || value == [] then None else Some(Header(name, value))
  }

  const COLON_SEPARATOR: bytes := [58, 32]

  function PrintHeader(h: Header): bytes {
    h.name + (COLON_SEPARATOR + h.value)
  }

  ghost predicate WellFormedHeader(h: Header) {
    && h.name != [] && Trimmed(h.name) && COLON !in h.name && LF !in h.name
    && h.value != [] && Trimmed(h.value) && LF !in h.value
  }

  /** A header line is parsed back whatever spaces are around its name and its value. */
  lemma HeaderPaddingDropped(h: Header, a: bytes, b: bytes, c: bytes, d: bytes)
    requires WellFormedHeader(h) && Spaces(a) && Spaces(b) && Spaces(c) && Spaces(d)
    ensures HeaderLineSpec((a + (h.name + b)) + ([':' as int] + (c + (h.value + d)))) == Some(h)
  {
    var name, value := a + (h.name + b), c + (h.value + d);
    TrimUndoesPadding(a, h.name, b);
    TrimUndoesPadding(c, h.value, d);
    TrimIsEmptyIff(name);
    TrimIsEmptyIff(value);
    hide Trim, HeaderLineSpec;
    assert ':' as int !in name;
    HeaderLineIff(name, value);
  }

  ghost predicate Spaces(s: bytes) {
    forall i :: 0 <= i < |s| ==> s[i] == ' ' as int
  }

  /** A line without a colon, or with nothing but spaces on one side of the first one, is no header line. */
  lemma HeaderLineIff(name: bytes, value: bytes)
    requires ':' as int !in name
    ensures HeaderLineSpec(name) == None
    ensures
      var h := HeaderLineSpec(name + ([':' as int] + value));
      && (h.Some? <==> !Spaces(name) && !Spaces(value))
      && (h.Some? ==> h.value == Header(Trim(name), Trim(value)))
  {
    assert name[..|name|] == name;
    IndexOfUnique(name, COLON, |name|);
    var line := name + ([':' as int] + value);
    assert line[..|name|] == name && line[|name| + 1..] == value;
    IndexOfUnique(line, COLON, |name|);
    TrimIsEmptyIff(name);
    TrimIsEmptyIff(value);
    hide Trim;
  }

  lemma TrimIsEmptyIff(s: bytes)
    ensures Trim(s) == [] <==> Spaces(s)
  {
    if Spaces(s) {
      assert s + ([] + []) == s;
      TrimUndoesPadding(s, [], []);
    }
    var left, right := TrimLeavesPadding(s);
  }

  /** A printed header line is parsed back, colons in its value included. */
  lemma HeaderLineRoundTrip(h: Header)
    requires WellFormedHeader(h)
    ensures HeaderLineSpec(PrintHeader(h)) == Some(h)
    ensures LF !in PrintHeader(h) && PrintHeader(h) != []
  {
    HeaderPaddingDropped(h, [], [], [SPACE], []);
    hide HeaderLineSpec;
    Unit(h.name);
    Unit(h.value);
    assert COLON_SEPARATOR == [':' as int] + [SPACE];
    Assoc([':' as int], [SPACE], h.value);
  }

  /** The header-reading loop: the map it builds, and where it stops. */
  datatype HeadersResult = HeadersResult(headers: HeaderMap, complete: bool, rest: bytes)

  function HeadersSpec(s: bytes, m: HeaderMap): HeadersResult
    decreases |s|
  {
    var (line, rest) := LineSpec(s);
    if !line.HasValue() then HeadersResult(m, line.IsLastLine(), rest)
    else
      match HeaderLineSpec(line.val)
      case None => HeadersResult(m, false, rest)
      case Some(h) =>
        LineProgress(s);
        HeadersSpec(rest, Put(m, h.name, h.value))
  }

  function HeadersOnWire(hs: seq<Header>, tail: bytes): bytes {
    if hs == [] then CRLF + tail
    else PrintHeader(hs[0]) + (CRLF + HeadersOnWire(hs[1..], tail))
  }

  ghost predicate WellFormedHeaders(hs: seq<Header>) {
    forall i :: 0 <= i < |hs| ==> WellFormedHeader(hs[i])
  }

  /** Printed headers rebuild the map that putting them in order builds, and reading stops at the blank line. */
  lemma {:induction false} HeadersRoundTrip(hs: seq<Header>, m: HeaderMap, tail: bytes)
    requires WellFormedHeaders(hs)
    ensures HeadersSpec(HeadersOnWire(hs, tail), m) == HeadersResult(PutAll(m, hs), true, tail)
    decreases |hs|
  {
    if hs == [] {
      assert CRLF + tail == [] + (CRLF + tail);
      LineRoundTrip([], tail);
    } else {
      var rest := HeadersOnWire(hs[1..], tail);
      HeaderLineRoundTrip(hs[0]);
      LineRoundTrip(PrintHeader(hs[0]), rest);
      HeadersRoundTrip(hs[1..], Put(m, hs[0].name, hs[0].value), tail);
      hide HeaderLineSpec, LineSpec, PrintHeader;
    }
  }

  /** A line that is no header line, or the end of the stream, ends the loop without its blank line. */
  lemma {:induction false} HeadersBroken(hs: seq<Header>, bad: bytes, tail: bytes, m: HeaderMap)
    requires WellFormedHeaders(hs) && bad != [] && LF !in bad && HeaderLineSpec(bad) == None
    ensures !HeadersSpec(LinesOnWire(hs, bad + (CRLF + tail)), m).complete
    ensures !HeadersSpec(LinesOnWire(hs, bad), m).complete && !HeadersSpec(LinesOnWire(hs, []), m).complete
    decreases |hs|
  {
    if hs == [] {
      LineRoundTrip(bad, tail);
      NoLineRoundTrip(bad);
      NoLineRoundTrip([]);
    } else {
      HeaderLineRoundTrip(hs[0]);
      LineRoundTrip(PrintHeader(hs[0]), LinesOnWire(hs[1..], bad + (CRLF + tail)));
      LineRoundTrip(PrintHeader(hs[0]), LinesOnWire(hs[1..], bad));
      LineRoundTrip(PrintHeader(hs[0]), LinesOnWire(hs[1..], []));
      HeadersBroken(hs[1..], bad, tail, Put(m, hs[0].name, hs[0].value));
      hide HeaderLineSpec, LineSpec, PrintHeader;
    }
  }

  /** Header lines without a blank line after them. */
  function LinesOnWire(hs: seq<Header>, tail: bytes): bytes {
    if hs == [] then tail else PrintHeader(hs[0]) + (CRLF + LinesOnWire(hs[1..], tail))
  }

  /** What a handler sees of a request. */
  datatype Request = Request(line: RequestLine, headers: HeaderMap)

  class HttpRequest {
    var verb: HttpMethod
    var version: HttpVersion
    var uri: bytes
    var path: bytes
    var pathParams: map<bytes, bytes>
    var query: bytes
    var queryParams: seq<(bytes, bytes)>
    var headers: HeaderMap

    constructor ()
      ensures headers == map[] && query == [] && queryParams == []
    {
      verb, version := GET, HTTP_1_1;
      uri, path, query, queryParams := [], [], [], [];
      pathParams, headers := map[], map[];
    }

    ghost function Line(): RequestLine
      reads this
    {
      RequestLine(verb, Target(path, query, queryParams), version)
    }

    ghost function Value(): Request
      reads this
    {
      Request(Line(), headers)
    }

    method ProcessUri(uri: bytes)
      modifies this
      ensures this.uri == uri && '?' as int !in path
      ensures if '?' as int in uri
        then uri == path + (['?' as int] + query) && queryParams == Params(query, [])
        else uri == path && query == old(query) && queryParams == old(queryParams)
      ensures verb == old(verb) && version == old(version) && headers == old(headers)
      ensures pathParams == old(pathParams)
    {
      hide Params;
      this.uri := uri;
      var q: nat := 0;
      while q < |uri| && uri[q] != QUESTION
        invariant q <= |uri| && forall i :: 0 <= i < q ==> uri[i] != QUESTION
      {
        q := q + 1;
      }
      path := uri[..q];
      CutAt(uri, q);
      if q != |uri| {
        query := uri[q + 1..];
        queryParams := RetrieveParams(query);
      }
    }

    /** True iff the line is a request line; then all of it is in the fields. */
    method ProcessReqLine(line: bytes) returns (ok: bool)
      modifies this
      ensures ok <==> RequestLineSpec(line).Some?
      ensures ok && old(query) == [] && old(queryParams) == [] ==> Line() == RequestLineSpec(line).value
      ensures headers == old(headers) && pathParams == old(pathParams)
    {
      hide Params, Split, FindMethod, FindVersion;
      var segments := SplitString(line, SPACE);
      if |segments| != 3 {
        return false;
      }
      var m := FindMethod(segments[0]);
      if m == None {
        return false;
      }
      verb := m.value;
      ProcessUri(segments[1]);
      TargetIsCut(path, query);
      var v := FindVersion(segments[2]);
      if v == None {
        return false;
      }
      version := v.value;
      return true;
    }

    /** True iff the line is a header line; then the map holds it, under its first spelling. */
    method ProcessHeaderLine(line: bytes) returns (ok: bool)
      modifies this`headers
      ensures ok <==> HeaderLineSpec(line).Some?
      ensures headers == if ok then var h := HeaderLineSpec(line).value; Put(old(headers), h.name, h.value)
                         else old(headers)
    {
      var pos := IndexOf(line, COLON);
      if pos == |line| {
        return false;
      }
      var name := TrimString(line[..pos]);
      var value := TrimString(line[pos + 1..]);
      if name == [] || value == [] {
        return false;
      }
      headers := Put(headers, name, value);
      return true;
    }
  }
}
