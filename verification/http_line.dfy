/** Lines of the incoming stream. */
module HttpLines {
  import opened Bytes
  import opened Sockets

  datatype HttpLine = HttpLine(val: bytes, received: bool) {
    predicate HasValue() {
      received && val != []
    }

    predicate IsLastLine() {
      received && val == []
    }
  }

  function StripCr(line: bytes): bytes {
    if line != [] && line[|line| - 1] == CR then line[..|line| - 1] else line
  }

  /** The line that a stream begins with, and the stream just after its line feed. */
  function LineSpec(s: bytes): (HttpLine, bytes) {
    var k := IndexOf(s, LF);
    if k < |s| then (HttpLine(StripCr(s[..k]), true), s[k + 1..])
    else (HttpLine(s, false), [])
  }

  /** A printed line is read back exactly, and reading stops just after its end. */
  lemma LineRoundTrip(line: bytes, rest: bytes)
    requires '\n' as int !in line
    ensures LineSpec(line + (['\r' as int, '\n' as int] + rest)) == (HttpLine(line, true), rest)
  {
    var s := line + (CRLF + rest);
    assert s[..|line| + 1] == line + [CR];
    IndexOfUnique(s, LF, |line| + 1);
    assert s[|line| + 2..] == rest;
    assert StripCr(line + [CR]) == line;
  }

  /** So is a line that ends in a line feed alone, if it has no carriage return there. */
  lemma BareLineRoundTrip(line: bytes, rest: bytes)
    requires '\n' as int !in line && (line != [] ==> line[|line| - 1] != '\r' as int)
    ensures LineSpec(line + (['\n' as int] + rest)) == (HttpLine(line, true), rest)
  {
    var s := line + ([LF] + rest);
    assert s[..|line|] == line;
    IndexOfUnique(s, LF, |line|);
    assert s[|line| + 1..] == rest;
  }

  /** Without a line feed there is no line. */
  lemma NoLineRoundTrip(s: bytes)
    requires '\n' as int !in s
    ensures LineSpec(s) == (HttpLine(s, false), []) && !LineSpec(s).0.HasValue() && !LineSpec(s).0.IsLastLine()
  {
    assert s[..|s|] == s;
    IndexOfUnique(s, LF, |s|);
  }

  /** Every line that is received is paid for with at least one octet of the stream. */
  lemma LineProgress(s: bytes)
    ensures LineSpec(s).0.received ==> |LineSpec(s).1| < |s|
    ensures |LineSpec(s).1| <= |s|
  {
  }

  /** The first n octets of s have been looked at; the last of them is its first line feed iff `ended`. */
  ghost predicate Scanned(s: bytes, n: nat, ended: bool)
    ensures Scanned(s, n, ended) ==> n <= |s| && (ended ==> 0 < n)
  {
    n <= |s| && if ended then 0 < n && IndexOf(s, LF) == n - 1 else LF !in s[..n]
  }

  lemma ScanStart(s: bytes)
    ensures Scanned(s, 0, false) && s[..0] == [] && s[0..] == s
  {
  }

  lemma ScanNext(s: bytes, n: nat)
    requires n < |s| && Scanned(s, n, false)
    ensures Scanned(s, n + 1, s[n] == LF)
    ensures s[..n + 1] == s[..n] + [s[n]]
  {
    if s[n] == LF {
      IndexOfUnique(s, LF, n);
    }
  }

  lemma ScanResult(s: bytes, line: bytes, ended: bool)
    requires Scanned(s, |line|, ended) && line == s[..|line|]
    requires ended || s[|line|..] == []
    ensures LineSpec(s) == (HttpLine(if ended then StripCr(line[..|line| - 1]) else line, ended), s[|line|..])
  {
    if ended {
      assert line[..|line| - 1] == s[..|line| - 1];
    } else {
      assert |s[|line|..]| == |s| - |line| && line == s;
      IndexOfUnique(s, LF, |s|);
    }
  }

  method ReadHttpLine(sock: Socket) returns (r: Outcome<HttpLine>)
    requires sock.Valid()
    modifies sock.Repr()
    ensures sock.Valid() && sock.Outgoing() == old(sock.Outgoing())
    ensures match r
      case Throw(e) => e == IoError
      case Ok(line) => (line, sock.Incoming()) == LineSpec(old(sock.Incoming()))
  {
    hide Socket.Valid, Socket.Incoming, Socket.Outgoing, Socket.Buffered, Scanned, LineSpec, StripCr;
    ghost var s := sock.Incoming();
    ScanStart(s);
    var line: bytes := [];
    var lineEnded := false;
    while !lineEnded
      invariant sock.Valid() && sock.Outgoing() == old(sock.Outgoing())
      invariant Scanned(s, |line|, lineEnded)
      invariant line == s[..|line|] && sock.Incoming() == s[|line|..]
      decreases !lineEnded, |sock.Incoming()|
    {
      var chunk :- sock.Peek();
      if chunk == [] {
        break;
      }
      ghost var start := |line|;
      assert chunk == s[start..][..|chunk|];
      var offset: nat := 0;
      while offset < |chunk| && !lineEnded
        invariant offset <= |chunk| && |line| == start + offset && line == s[..|line|]
        invariant 0 < offset || !lineEnded
        invariant sock.Valid() && sock.Outgoing() == old(sock.Outgoing())
        invariant sock.Incoming() == s[start..] && chunk == sock.Buffered()
        invariant Scanned(s, |line|, lineEnded)
      {
        var c := chunk[offset];
        ScanNext(s, |line|);
        lineEnded := c == LF;
        line := line + [c];
        offset := offset + 1;
      }
      sock.Seek(offset);
    }
    ScanResult(s, line, lineEnded);
    if lineEnded {
      line := line[..|line| - 1];
      line := StripCr(line);
    }
    return Ok(HttpLine(line, lineEnded));
  }
}
