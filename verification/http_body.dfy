/** The body decoder: a fixed length, or chunks (section 7.1 of RFC 9112). */
module HttpBodies {
  import opened Bytes
  import opened Sockets
  import opened HttpLines

  const HEX_BASE := 16

  // ------------------------------------------- the decoder as a function

  /** The decoder's two fields together with the stream it reads from. */
  datatype BodyState = BodyState(incoming: nat, ended: bool, stream: bytes)

  /** `has_incoming`: read the next chunk header when the current chunk is used up. */
  function Advance(st: BodyState): (r: Outcome<BodyState>)
    ensures r.Ok? ==> |r.value.stream| <= |st.stream| && (r.value.incoming == 0 ==> r.value.ended)
    ensures r.Ok? && st.incoming > 0 ==> r.value == st
    ensures r.Ok? ==> r.value.incoming <= if st.incoming > 0 then st.incoming else LONG_MAX
  {
    if st.incoming > 0 || st.ended then Ok(st)
    else
      var (first, s1) := LineSpec(st.stream);
      var (line, s2) := if first.IsLastLine() then LineSpec(s1) else (first, s1);
      if !line.HasValue() then Throw(NoChunk)
      else
        var size := LongFromChars(line.val, HEX_BASE);
        if !size.Parsed? || size.value < 0 then Throw(InvalidChunkSize)
        else if size.value == 0 then Ok(BodyState(0, true, LineSpec(s2).1))
        else Ok(BodyState(size.value, false, s2))
  }

  /** Where no line follows, or only blank lines, there is no chunk. */
  lemma ChunkIsMissing(s: bytes, tail: bytes)
    requires LF !in s
    ensures Advance(BodyState(0, false, s)) == Throw(NoChunk)
    ensures Advance(BodyState(0, false, CRLF + s)) == Throw(NoChunk)
    ensures Advance(BodyState(0, false, CRLF + (CRLF + tail))) == Throw(NoChunk)
  {
    NoLineRoundTrip(s);
    Unit(CRLF + s);
    LineRoundTrip([], s);
    Unit(CRLF + (CRLF + tail));
    LineRoundTrip([], CRLF + tail);
    Unit(CRLF + tail);
    LineRoundTrip([], tail);
    hide LineSpec;
  }

  /** The size of a chunk is in hexadecimal, in either case, whatever extension follows it. */
  lemma ChunkSizeIsRead(s: bytes, ds: seq<nat>, rest: bytes, tail: bytes)
    requires Spells(s, ds, 16) && s != [] && LF !in s + rest
    requires rest != [] ==> NoDigit(rest[0], 16)
    ensures
      var n := Horner(ds, 16);
      Advance(BodyState(0, false, (s + rest) + (CRLF + tail))) == (
        if n > LONG_MAX then Throw(InvalidChunkSize)
        else if n == 0 then Ok(BodyState(0, true, LineSpec(tail).1))
        else Ok(BodyState(n, false, tail)))
  {
    SpelledIsRead(s, ds, rest, 16);
    LineRoundTrip(s + rest, tail);
    hide LineSpec, LongFromChars, Horner, Spells;
  }

  /** A line that does not begin with a digit, or a negative number, is no chunk size. */
  lemma ChunkSizeIsRefused(line: bytes, tail: bytes)
    requires line != [] && LF !in line && NoDigit(line[0], 16)
    requires line[0] == '-' as int ==> exists n: nat :: 0 < n && line == ['-' as int] + ToChars(n, HEX_BASE)
    ensures Advance(BodyState(0, false, line + (CRLF + tail))) == Throw(InvalidChunkSize)
  {
    LineRoundTrip(line, tail);
    if line[0] == '-' as int {
      var n: nat :| 0 < n && line == ['-' as int] + ToChars(n, HEX_BASE);
      NegativeIsRead(n, HEX_BASE);
    } else {
      NothingIsRead(line, HEX_BASE);
    }
    hide LineSpec, LongFromChars, ToChars;
  }

  /** Octets that are announced and do not come are an error. */
  lemma BodyCutShort(incoming: nat, ended: bool, s: bytes, size: nat)
    requires incoming > |s| && size > |s|
    ensures ReadSpec(BodyState(incoming, ended, s), size) == Throw(SocketClosed)
  {
  }

  /** `read`: at most `size` octets, crossing chunk boundaries. */
  function ReadSpec(st: BodyState, size: nat): (r: Outcome<(bytes, BodyState)>)
    ensures r.Ok? ==> |r.value.0| <= size
    decreases size
  {
    if size == 0 then Ok(([], st))
    else
      var st1 :- Advance(st);
      if st1.incoming == 0 then Ok(([], st1))
      else
        var n := Min(size, st1.incoming);
        var (taken, rest) :- TakeSpec(st1.stream, n, true);
        var (more, st2) :- ReadSpec(BodyState(st1.incoming - n, st1.ended, rest), size - n);
        Ok((taken + more, st2))
  }

  // ------------------------------------------- what a well-formed body is

  /** One chunk: its header line, with any extension, and its data. */
  datatype Chunk = Chunk(header: bytes, data: bytes) {
    predicate WellFormed() {
      LF !in header && data != [] && LongFromChars(header, HEX_BASE) == Parsed(|data|)
    }
  }

  function ChunkData(cs: seq<Chunk>): bytes {
    if cs == [] then [] else cs[0].data + ChunkData(cs[1..])
  }

  /** The chunks, the last-chunk and the empty trailer section, with `tail` after them. */
  function ChunksOnWire(cs: seq<Chunk>, last: bytes, tail: bytes): bytes {
    if cs == [] then last + (CRLF + (CRLF + tail))
    else cs[0].header + (CRLF + (cs[0].data + (CRLF + ChunksOnWire(cs[1..], last, tail))))
  }

  ghost predicate WellFormedChunks(cs: seq<Chunk>, last: bytes) {
    && (forall i :: 0 <= i < |cs| ==> cs[i].WellFormed())
    && LF !in last && LongFromChars(last, HEX_BASE) == Parsed(0)
  }

  /**
   * What is left of a body: a number of octets, or the rest of the current chunk, the
   * line end that is still owed to it, and the chunks after it.
   */
  datatype Body =
    | Sized(octets: bytes)
    | Chunked(current: bytes, owed: bytes, chunks: seq<Chunk>, last: bytes)
  {
    ghost predicate WellFormed() {
      Chunked? ==> WellFormedChunks(chunks, last) && (owed == CRLF || (owed == [] && current == []))
    }

    /** What can be taken without reading a chunk header. */
    function Ready(): bytes {
      if Sized? then octets else current
    }

    /** What is to be delivered after that. */
    function Later(): bytes {
      if Sized? then [] else ChunkData(chunks)
    }

    /** All that is to be delivered. */
    function Content(): bytes {
      Ready() + Later()
    }

    /** What follows the ready octets on the wire when `tail` follows the body. */
    function After(tail: bytes): bytes {
      if Sized? then tail else owed + ChunksOnWire(chunks, last, tail)
    }

    function Wire(tail: bytes): bytes {
      Ready() + After(tail)
    }

    /** The decoder's state in front of this body. */
    function State(tail: bytes): BodyState {
      BodyState(|Ready()|, Sized?, Wire(tail))
    }

    /** The same body once the header of its next chunk has been read. */
    function Opened(): Body {
      if Sized? || current != [] then this
      else if chunks == [] then Sized([])
      else Chunked(chunks[0].data, CRLF, chunks[1..], last)
    }

    function Drop(n: nat): (b: Body)
      requires n <= |Ready()|
      ensures b.Sized? == Sized? && b.Ready() == Ready()[n..] && b.Later() == Later()
    {
      if Sized? then Sized(octets[n..]) else this.(current := current[n..])
    }

    /** The same body after a read of up to `size` octets. */
    function AfterRead(size: nat): Body
      decreases size
    {
      if size == 0 then this
      else
        var b := Opened();
        var n := Min(size, |b.Ready()|);
        if n == 0 then b else b.Drop(n).AfterRead(size - n)
    }
  }

  // ------------------------------------------- the decoder inverts the encoding

  /** One chunk header is read exactly, with or without the line end of the chunk before it. */
  lemma HeaderIsRead(owed: bytes, header: bytes, rest: bytes)
    requires owed == CRLF || owed == []
    requires LF !in header && header != []
    ensures var (first, s1) := LineSpec(owed + (header + (CRLF + rest)));
      (if first.IsLastLine() then LineSpec(s1) else (first, s1)) == (HttpLine(header, true), rest)
  {
    hide LineSpec;
    var s := header + (CRLF + rest);
    LineRoundTrip(header, rest);
    if owed == CRLF {
      assert owed + s == [] + (CRLF + s);
      LineRoundTrip([], s);
    } else {
      assert owed + s == s;
    }
  }

  lemma AdvanceOverHeader(st: BodyState, owed: bytes, header: bytes, rest: bytes)
    requires st.incoming == 0 && !st.ended
    requires owed == CRLF || owed == []
    requires LF !in header && LongFromChars(header, HEX_BASE).Parsed?
    requires LongFromChars(header, HEX_BASE).value >= 0
    requires st.stream == owed + (header + (CRLF + rest))
    ensures var n := LongFromChars(header, HEX_BASE).value;
      Advance(st) == Ok(if n == 0 then BodyState(0, true, LineSpec(rest).1) else BodyState(n, false, rest))
  {
    assert header != [];
    HeaderIsRead(owed, header, rest);
    hide LineSpec, LongFromChars;
  }

  lemma OpenedContent(b: Body)
    requires b.WellFormed()
    ensures b.Opened().WellFormed() && b.Opened().Content() == b.Content()
    ensures b.Opened().Ready() == [] ==> b.Opened() == Sized([]) && b.Content() == []
    ensures |b.Opened().Ready()| <= |b.Content()|
  {
    if b.Chunked? && b.current == [] && b.chunks != [] {
      assert b.chunks[0].WellFormed();
    }
  }

  /** `has_incoming` moves to the next chunk, or to just past the body when no content is left. */
  lemma AdvanceOpens(b: Body, tail: bytes)
    requires b.WellFormed()
    ensures Advance(b.State(tail)) == Ok(b.Opened().State(tail))
  {
    hide LineSpec, LongFromChars;
    if b.Chunked? && b.current == [] {
      hide Advance;
      assert [] + b.After(tail) == b.After(tail);
      if b.chunks == [] {
        AdvanceOverHeader(b.State(tail), b.owed, b.last, CRLF + tail);
        assert [] + (CRLF + tail) == CRLF + tail;
        LineRoundTrip([], tail);
        assert [] + tail == tail;
      } else {
        assert b.chunks[0].WellFormed();
        AdvanceOverHeader(b.State(tail), b.owed, b.chunks[0].header, b.Opened().Wire(tail));
      }
    }
  }

  lemma ReadStep(st: BodyState, st1: BodyState, size: nat, n: nat, taken: bytes, rest: bytes)
    requires 0 < size && Advance(st) == Ok(st1) && 0 < st1.incoming && n == Min(size, st1.incoming)
    requires TakeSpec(st1.stream, n, true) == Ok((taken, rest))
    requires ReadSpec(BodyState(st1.incoming - n, st1.ended, rest), size - n).Ok?
    ensures var (more, st2) := ReadSpec(BodyState(st1.incoming - n, st1.ended, rest), size - n).value;
      ReadSpec(st, size) == Ok((taken + more, st2))
  {
    hide Advance;
  }

  lemma DropTakes(b: Body, tail: bytes, n: nat)
    requires b.WellFormed() && n <= |b.Ready()|
    ensures b.Drop(n).WellFormed() && b.Drop(n).Content() == b.Content()[n..]
    ensures TakeSpec(b.State(tail).stream, n, true) == Ok((b.Content()[..n], b.Drop(n).State(tail).stream))
  {
    hide ChunksOnWire, ChunkData, WellFormedChunks;
    assert b.Drop(n).After(tail) == b.After(tail);
    hide Body.Later, Body.After;
    SplitFront(b.Ready(), b.Later(), n);
    SplitFront(b.Ready(), b.After(tail), n);
  }

  /** A read that has nothing to take: the size is used up, or the body is. */
  lemma ReadStops(b: Body, tail: bytes, size: nat)
    requires b.WellFormed() && (0 < size ==> b.Opened().Ready() == [])
    ensures ReadSpec(b.State(tail), size) == Ok(([], b.AfterRead(size).State(tail)))
    ensures b.AfterRead(size).WellFormed() && b.AfterRead(size).Content() == b.Content()
    ensures 0 < size ==> b.Content() == []
  {
    hide Advance, Body.Wire, Body.Later, Body.WellFormed;
    if 0 < size {
      OpenedContent(b);
      AdvanceOpens(b, tail);
    }
  }

  /** The first piece of a read, and what is left to the rest of it. */
  lemma ReadContinues(b: Body, tail: bytes, size: nat, n: nat)
    requires b.WellFormed() && 0 < n == Min(size, |b.Opened().Ready()|)
    requires ReadSpec(b.Opened().Drop(n).State(tail), size - n).Ok?
    ensures n <= |b.Content()|
    ensures var d := b.Opened().Drop(n);
      var (more, st) := ReadSpec(d.State(tail), size - n).value;
      && ReadSpec(b.State(tail), size) == Ok((b.Content()[..n] + more, st))
      && b.AfterRead(size) == d.AfterRead(size - n)
  {
    hide Advance, ReadSpec, Body.Wire, Body.Later, Body.WellFormed;
    OpenedContent(b);
    AdvanceOpens(b, tail);
    DropTakes(b.Opened(), tail, n);
    ReadStep(b.State(tail), b.Opened().State(tail), size, n, b.Content()[..n],
             b.Opened().Drop(n).State(tail).stream);
  }

  /** A read delivers exactly the next octets of the content, whatever the chunk boundaries. */
  lemma {:induction false} ReadDelivers(b: Body, tail: bytes, size: nat)
    requires b.WellFormed()
    ensures var n := Min(size, |b.Content()|);
      && ReadSpec(b.State(tail), size) == Ok((b.Content()[..n], b.AfterRead(size).State(tail)))
      && b.AfterRead(size).WellFormed() && b.AfterRead(size).Content() == b.Content()[n..]
    decreases size
  {
    hide ReadSpec, Body.State, Body.Content, Body.Ready, Body.AfterRead, Body.Opened, Body.WellFormed;
    var content := b.Content();
    var n := Min(size, |b.Opened().Ready()|);
    if n == 0 {
      ReadStops(b, tail, size);
      SliceStep(content, 0, 0);
    } else {
      OpenedContent(b);
      DropTakes(b.Opened(), tail, n);
      ReadDelivers(b.Opened().Drop(n), tail, size - n);
      ReadContinues(b, tail, size, n);
      SliceStep(content, n, Min(size - n, |content| - n));
    }
  }

  // ------------------------------------------- the pointer overload of `read`

  /** `taken` written over the front of the destination. */
  function Overlay(dest: bytes, taken: bytes): (d: bytes)
    requires |taken| <= |dest|
    ensures |d| == |dest| && d[..|taken|] == taken
    ensures forall i :: |taken| <= i < |dest| ==> d[i] == dest[i]
  {
    taken + dest[|taken|..]
  }

  /** `read(void*)`: the count, the destination, into whose start every piece is written, and the state. */
  function RawReadSpec(st: BodyState, size: nat, dest: bytes): (r: Outcome<(nat, bytes, BodyState)>)
    requires size <= |dest|
    ensures r.Ok? ==> r.value.0 <= size && |r.value.1| == |dest|
    decreases size
  {
    if size == 0 then Ok((0, dest, st))
    else
      var st1 :- Advance(st);
      if st1.incoming == 0 then Ok((0, dest, st1))
      else
        var n := Min(size, st1.incoming);
        var (taken, rest) :- TakeSpec(st1.stream, n, true);
        AddCount(n, RawReadSpec(BodyState(st1.incoming - n, st1.ended, rest), size - n, Overlay(dest, taken)))
  }

  /** A read that has reported n octets already. */
  function AddCount(n: nat, r: Outcome<(nat, bytes, BodyState)>): (r1: Outcome<(nat, bytes, BodyState)>)
    ensures r1.Ok? <==> r.Ok?
    ensures r1.Ok? ==> r1.value == (n + r.value.0, r.value.1, r.value.2)
  {
    match r
    case Throw(e) => Throw(e)
    case Ok((more, dest, st)) => Ok((n + more, dest, st))
  }

  /** What it reports, where it leaves the decoder, and how it fails are as for the string overload. */
  lemma {:induction false} RawReadIsRead(st: BodyState, size: nat, dest: bytes)
    requires size <= |dest|
    ensures match ReadSpec(st, size)
      case Throw(e) => RawReadSpec(st, size, dest) == Throw(e)
      case Ok((octets, st1)) =>
        var r := RawReadSpec(st, size, dest);
        r.Ok? && r.value.0 == |octets| && r.value.2 == st1
    decreases size
  {
    hide Advance;
    if 0 < size && Advance(st).Ok? {
      var st1 := Advance(st).value;
      var n := Min(size, st1.incoming);
      var t := TakeSpec(st1.stream, n, true);
      if 0 < n && t.Ok? {
        RawReadIsRead(BodyState(st1.incoming - n, st1.ended, t.value.1), size - n, Overlay(dest, t.value.0));
      }
    }
  }

  /** What the destination holds in the end, in terms of the body alone. */
  function RawContent(b: Body, size: nat, dest: bytes): (d: bytes)
    requires size <= |dest|
    ensures |d| == |dest|
    decreases size
  {
    var n := Min(size, |b.Opened().Ready()|);
    if n == 0 then dest
    else RawContent(b.Opened().Drop(n), size - n, Overlay(dest, b.Opened().Ready()[..n]))
  }

  lemma RawReadStep(st: BodyState, st1: BodyState, size: nat, n: nat, dest: bytes, taken: bytes, rest: bytes)
    requires 0 < size <= |dest| && Advance(st) == Ok(st1) && 0 < st1.incoming && n == Min(size, st1.incoming)
    requires TakeSpec(st1.stream, n, true) == Ok((taken, rest))
    ensures RawReadSpec(st, size, dest)
      == AddCount(n, RawReadSpec(BodyState(st1.incoming - n, st1.ended, rest), size - n, Overlay(dest, taken)))
  {
    hide Advance;
  }

  /** What the destination holds in the end. */
  lemma {:induction false} RawReadFills(b: Body, tail: bytes, size: nat, dest: bytes)
    requires b.WellFormed() && size <= |dest|
    ensures RawReadSpec(b.State(tail), size, dest).Ok?
    ensures RawReadSpec(b.State(tail), size, dest).value.1 == RawContent(b, size, dest)
    decreases size
  {
    hide Advance, RawReadSpec, Body.State, Body.Content, Body.Opened, Body.WellFormed, Overlay;
    var o := b.Opened();
    var n := Min(size, |o.Ready()|);
    RawReadFirst(b, tail, size, dest);
    if 0 < n {
      DropTakes(o, tail, n);
      RawReadFills(o.Drop(n), tail, size - n, Overlay(dest, o.Ready()[..n]));
    }
  }

  /** Nothing is written, or the first piece, and then the rest. */
  lemma RawReadFirst(b: Body, tail: bytes, size: nat, dest: bytes)
    requires b.WellFormed() && size <= |dest|
    ensures b.Opened().WellFormed()
    ensures var n := Min(size, |b.Opened().Ready()|);
      var r := RawReadSpec(b.State(tail), size, dest);
      if n == 0 then r.Ok? && r.value.1 == dest
      else
        r == AddCount(n, RawReadSpec(
          b.Opened().Drop(n).State(tail), size - n, Overlay(dest, b.Opened().Ready()[..n])))
  {
    hide *;
    OpenedContent(b);
    var o := b.Opened();
    var n := Min(size, |o.Ready()|);
    MinOf(size, |o.Ready()|);
    AdvanceOpens(b, tail);
    StateParts(o, tail);
    if n == 0 {
      RawReadNothing(b.State(tail), o.State(tail), size, dest);
    } else {
      DropTakes(o, tail, n);
      ReadyFirst(o, n);
      StateParts(o.Drop(n), tail);
      RawReadStep(b.State(tail), o.State(tail), size, n, dest, o.Ready()[..n], o.Drop(n).State(tail).stream);
    }
  }

  lemma StateParts(b: Body, tail: bytes)
    ensures b.State(tail) == BodyState(|b.Ready()|, b.Sized?, b.State(tail).stream)
  {
  }

  lemma ReadyFirst(b: Body, n: nat)
    requires n <= |b.Ready()|
    ensures n <= |b.Content()| && b.Content()[..n] == b.Ready()[..n] && |b.Drop(n).Ready()| == |b.Ready()| - n
    ensures b.Drop(n).Sized? == b.Sized?
  {
    hide Body.Ready, Body.Later;
  }

  lemma RawReadNothing(st: BodyState, st1: BodyState, size: nat, dest: bytes)
    requires size <= |dest| && Advance(st) == Ok(st1) && (size == 0 || st1.incoming == 0)
    ensures RawReadSpec(st, size, dest).Ok? && RawReadSpec(st, size, dest).value.1 == dest
  {
    hide Advance;
  }

  /**
   * The pointer overload on a well-formed body: it reports as many octets as are next,
   * leaves the decoder past them, and overlays the pieces at the start of the destination.
   */
  lemma RawReadLeaves(b: Body, tail: bytes, size: nat, dest: bytes)
    requires b.WellFormed() && size <= |dest|
    ensures RawReadSpec(b.State(tail), size, dest)
      == Ok((Min(size, |b.Content()|), RawContent(b, size, dest), b.AfterRead(size).State(tail)))
    ensures b.AfterRead(size).WellFormed() && b.AfterRead(size).Content() == b.Content()[Min(size, |b.Content()|)..]
  {
    hide RawReadSpec, RawContent, ReadSpec, Body.State, Body.Content, Body.AfterRead, Body.WellFormed;
    RawReadFills(b, tail, size, dest);
    RawReadIsRead(b.State(tail), size, dest);
    ReadDelivers(b, tail, size);
  }

  /** The first piece of a read is the front of the content, and the rest of it is what follows. */
  lemma FirstPiece(b: Body, size: nat, n: nat)
    requires b.WellFormed() && n == Min(size, |b.Opened().Ready()|)
    ensures n <= |b.Content()| && b.Opened().Ready()[..n] == b.Content()[..n]
    ensures b.Opened().Drop(n).WellFormed() && b.Opened().Drop(n).Content() == b.Content()[n..]
    ensures n == 0 < size ==> b.Content() == []
  {
    hide Body.WellFormed, Body.Later, Body.Opened;
    OpenedContent(b);
    DropTakes(b.Opened(), [], n);
    assert b.Content() == b.Opened().Ready() + b.Opened().Later();
  }

  lemma {:induction false} RawContentFrame(b: Body, size: nat, dest: bytes, i: nat)
    requires b.WellFormed() && size <= |dest| && Min(size, |b.Content()|) <= i < |dest|
    ensures RawContent(b, size, dest)[i] == dest[i]
    decreases size
  {
    hide Body.WellFormed, Body.Content, Body.Opened, Body.Drop, Body.Ready;
    var n := Min(size, |b.Opened().Ready()|);
    FirstPiece(b, size, n);
    if 0 < n {
      RawContentFrame(b.Opened().Drop(n), size - n, Overlay(dest, b.Opened().Ready()[..n]), i);
    }
  }

  /** A read that crosses a chunk boundary never writes the last octet it reports. */
  lemma RawContentGap(b: Body, size: nat, dest: bytes)
    requires b.WellFormed() && size <= |dest|
    requires |b.Opened().Ready()| < Min(size, |b.Content()|)
    ensures var n := Min(size, |b.Content()|);
      RawContent(b, size, dest)[n - 1] == dest[n - 1]
  {
    hide Body.WellFormed, Body.Content, Body.Opened, Body.Drop, Body.Ready;
    var n := |b.Opened().Ready()|;
    FirstPiece(b, size, n);
    if 0 < n {
      var i := Min(size, |b.Content()|) - 1;
      RawContentFrame(b.Opened().Drop(n), size - n, Overlay(dest, b.Opened().Ready()[..n]), i);
    }
  }

  lemma RawContentOnePiece(b: Body, size: nat, dest: bytes)
    requires b.WellFormed() && size <= |dest|
    requires 0 < Min(size, |b.Content()|) <= |b.Opened().Ready()|
    ensures var n := Min(size, |b.Content()|);
      RawContent(b, size, dest)[..n] == b.Content()[..n]
  {
    hide Body.WellFormed, Body.Content, Body.Opened, Body.Drop, Body.Ready;
    var n := Min(size, |b.Opened().Ready()|);
    FirstPiece(b, size, n);
    var d := b.Opened().Drop(n);
    var n1 := Min(size - n, |d.Opened().Ready()|);
    FirstPiece(d, size - n, n1);
    assert RawContent(b, size, dest) == RawContent(d, size - n, Overlay(dest, b.Content()[..n]));
  }

  lemma RawContentIff(b: Body, size: nat)
    requires b.WellFormed()
    ensures var n := Min(size, |b.Content()|);
      (forall dest: bytes | size <= |dest| :: RawContent(b, size, dest)[..n] == b.Content()[..n])
      <==> n <= |b.Opened().Ready()|
  {
    hide Body.WellFormed, Body.Content, Body.Opened, Body.Drop, Body.Ready, RawContent;
    var n := Min(size, |b.Content()|);
    if n <= |b.Opened().Ready()| {
      forall dest: bytes | size <= |dest| ensures RawContent(b, size, dest)[..n] == b.Content()[..n] {
        if 0 < n {
          RawContentOnePiece(b, size, dest);
        }
      }
    } else {
      var other: byte := if b.Content()[n - 1] == 0 then 1 else 0;
      var dest: bytes := seq(size, _ => other);
      RawContentGap(b, size, dest);
      assert RawContent(b, size, dest)[..n][n - 1] != b.Content()[..n][n - 1];
    }
  }

  /** The call reports n octets, and the first n of the destination are the next n of the content. */
  ghost predicate DeliversReported(b: Body, tail: bytes, size: nat, dest: bytes)
    requires size <= |dest|
  {
    match RawReadSpec(b.State(tail), size, dest)
    case Throw(_) => false
    case Ok((n, after, _)) => n <= |b.Content()| && after[..n] == b.Content()[..n]
  }

  /**
   * `read(void*)` delivers what it reports, into any destination, exactly when it stays
   * within one chunk; otherwise what it reports was never all written.
   */
  lemma RawReadCorrectIff(b: Body, tail: bytes, size: nat)
    requires b.WellFormed()
    ensures (forall dest: bytes | size <= |dest| :: DeliversReported(b, tail, size, dest))
      <==> Min(size, |b.Content()|) <= |b.Opened().Ready()|
  {
    hide Body.WellFormed, Body.Content, Body.Opened, Body.State, Body.AfterRead, Body.Ready, RawContent, RawReadSpec;
    var n := Min(size, |b.Content()|);
    RawContentIff(b, size);
    forall dest: bytes | size <= |dest|
      ensures DeliversReported(b, tail, size, dest) <==> RawContent(b, size, dest)[..n] == b.Content()[..n]
    {
      RawReadLeaves(b, tail, size, dest);
    }
  }

  // ------------------------------------------- whole runs of the decoder

  /** A call on the body; a raw read fills the whole of the given destination, if it can. */
  datatype BodyOp = HasIncoming | Read(size: nat) | Skip(size: nat) | ReadRaw(dest: bytes)

  datatype Reply = Has(more: bool) | Data(octets: bytes) | Count(n: nat) | Raw(n: nat, dest: bytes)

  /** One call on the decoder. */
  function StepSpec(st: BodyState, op: BodyOp): Outcome<(Reply, BodyState)> {
    match op
    case HasIncoming =>
      var st1 :- Advance(st);
      Ok((Has(st1.incoming > 0), st1))
    case Read(size) =>
      var (octets, st1) :- ReadSpec(st, size);
      Ok((Data(octets), st1))
    case Skip(size) =>
      var (octets, st1) :- ReadSpec(st, size);
      Ok((Count(|octets|), st1))
    case ReadRaw(dest) =>
      var (n, after, st1) :- RawReadSpec(st, |dest|, dest);
      Ok((Raw(n, after), st1))
  }

  /** How many octets a call is to take. */
  function Size(op: BodyOp): nat {
    match op
    case HasIncoming => 0
    case Read(size) => size
    case Skip(size) => size
    case ReadRaw(dest) => |dest|
  }

  function RunSpec(st: BodyState, ops: seq<BodyOp>): Outcome<(seq<Reply>, BodyState)>
    decreases |ops|
  {
    if ops == [] then Ok(([], st))
    else
      var (reply, st1) :- StepSpec(st, ops[0]);
      var (replies, st2) :- RunSpec(st1, ops[1..]);
      Ok(([reply] + replies, st2))
  }

  /** What each call takes off the front of the content that is left. */
  function Taken(content: bytes, op: BodyOp): (n: nat)
    ensures n <= |content|
  {
    Min(Size(op), |content|)
  }

  /** What a reader of plain content would be told: no chunks, no segments, but for a raw read. */
  function ExpectedReply(b: Body, op: BodyOp): Reply {
    var content := b.Content();
    var n := Taken(content, op);
    match op
    case HasIncoming => Has(content != [])
    case Read(_) => Data(content[..n])
    case Skip(_) => Count(n)
    case ReadRaw(dest) => Raw(n, RawContent(b, |dest|, dest))
  }

  function Expected(b: Body, ops: seq<BodyOp>): seq<Reply>
    decreases |ops|
  {
    if ops == [] then [] else [ExpectedReply(b, ops[0])] + Expected(AfterOp(b, ops[0]), ops[1..])
  }

  function Leftover(content: bytes, ops: seq<BodyOp>): bytes {
    if ops == [] then content else Leftover(content[Taken(content, ops[0])..], ops[1..])
  }

  function AfterOp(b: Body, op: BodyOp): Body {
    if op.HasIncoming? then b.Opened() else b.AfterRead(Size(op))
  }

  function AfterRun(b: Body, ops: seq<BodyOp>): Body
    decreases |ops|
  {
    if ops == [] then b else AfterRun(AfterOp(b, ops[0]), ops[1..])
  }

  /** One call is answered by the body as it is, and leaves the rest of it. */
  ghost predicate Delivered(b: Body, tail: bytes, op: BodyOp) {
    && StepSpec(b.State(tail), op) == Ok((ExpectedReply(b, op), AfterOp(b, op).State(tail)))
    && AfterOp(b, op).WellFormed()
    && AfterOp(b, op).Content() == b.Content()[Taken(b.Content(), op)..]
  }

  lemma HasIncomingDelivers(b: Body, tail: bytes)
    requires b.WellFormed()
    ensures Delivered(b, tail, HasIncoming)
  {
    hide Advance, ReadSpec, RawReadSpec, RawContent, Body.WellFormed, Body.Opened, Body.AfterRead;
    OpenedContent(b);
    AdvanceOpens(b, tail);
    var content := b.Content();
    assert content[0..] == content;
    OpenedState(b, tail);
    hide Body.State, Body.Content, Body.Ready;
  }

  lemma OpenedState(b: Body, tail: bytes)
    requires b.WellFormed()
    ensures b.Opened().State(tail).incoming > 0 <==> b.Content() != []
  {
    OpenedContent(b);
  }

  lemma ReadIsDelivered(b: Body, tail: bytes, size: nat)
    requires b.WellFormed()
    ensures Delivered(b, tail, BodyOp.Read(size))
  {
    ReadDelivers(b, tail, size);
    hide Advance, ReadSpec, RawReadSpec, RawContent, Body.State, Body.Content, Body.WellFormed, Body.AfterRead;
  }

  lemma SkipIsDelivered(b: Body, tail: bytes, size: nat)
    requires b.WellFormed()
    ensures Delivered(b, tail, BodyOp.Skip(size))
  {
    ReadDelivers(b, tail, size);
    hide Advance, ReadSpec, RawReadSpec, RawContent, Body.State, Body.Content, Body.WellFormed, Body.AfterRead;
  }

  lemma RawReadIsDelivered(b: Body, tail: bytes, dest: bytes)
    requires b.WellFormed()
    ensures Delivered(b, tail, BodyOp.ReadRaw(dest))
  {
    RawReadLeaves(b, tail, |dest|, dest);
    hide Advance, ReadSpec, RawReadSpec, RawContent, Body.State, Body.Content, Body.WellFormed, Body.AfterRead;
  }

  lemma StepDelivers(b: Body, tail: bytes, op: BodyOp)
    requires b.WellFormed()
    ensures Delivered(b, tail, op)
  {
    hide Delivered, Body.WellFormed;
    match op
    case HasIncoming => HasIncomingDelivers(b, tail);
    case Read(size) => ReadIsDelivered(b, tail, size);
    case Skip(size) => SkipIsDelivered(b, tail, size);
    case ReadRaw(dest) => RawReadIsDelivered(b, tail, dest);
  }

  /**
   * Every sequence of calls on a well-formed body is answered as expected, and whatever is
   * left of the body still ends where `tail` begins.
   */
  lemma {:induction false} RunDelivers(b: Body, tail: bytes, ops: seq<BodyOp>)
    requires b.WellFormed()
    ensures RunSpec(b.State(tail), ops) == Ok((Expected(b, ops), AfterRun(b, ops).State(tail)))
    ensures AfterRun(b, ops).WellFormed() && AfterRun(b, ops).Content() == Leftover(b.Content(), ops)
    decreases |ops|
  {
    hide StepSpec, ExpectedReply, Body.State, Body.Content, Body.WellFormed, AfterOp;
    if ops != [] {
      StepDelivers(b, tail, ops[0]);
      RunDelivers(AfterOp(b, ops[0]), tail, ops[1..]);
    }
  }

  /** Equal replies, but for what a raw read has left in its destination. */
  lemma AfterReadTurn(b: Body, size: nat)
    requires 0 < size
    ensures
      var n := Min(size, |b.Opened().Ready()|);
      b.AfterRead(size) == if n == 0 then b.Opened() else b.Opened().Drop(n).AfterRead(size - n)
  {
    hide Body.Opened, Body.Drop, Body.Ready;
  }

  lemma NothingLeft(tail: bytes)
    ensures Sized([]).State(tail) == BodyState(0, true, tail)
  {
    Unit(tail);
  }

  /** A read of more than there is takes the body to its end. */
  lemma {:induction false} AfterReadOfAll(b: Body, tail: bytes, size: nat)
    requires b.WellFormed() && size > |b.Content()|
    ensures b.AfterRead(size).State(tail) == BodyState(0, true, tail)
    decreases size
  {
    hide *;
    OpenedContent(b);
    AfterReadTurn(b, size);
    NothingLeft(tail);
    var n := Min(size, |b.Opened().Ready()|);
    MinOf(size, |b.Opened().Ready()|);
    if n > 0 {
      DropTakes(b.Opened(), tail, n);
      AfterReadOfAll(b.Opened().Drop(n), tail, size - n);
    }
  }

  lemma MinOf(a: int, b: int)
    ensures Min(a, b) <= a && Min(a, b) <= b && (Min(a, b) == a || Min(a, b) == b)
  {
  }

  predicate Alike(r1: Reply, r2: Reply) {
    r1 == r2 || (r1.Raw? && r2.Raw? && r1.n == r2.n)
  }

  lemma StepAlike(b1: Body, b2: Body, op: BodyOp)
    requires b1.WellFormed() && b2.WellFormed() && b1.Content() == b2.Content()
    ensures Alike(ExpectedReply(b1, op), ExpectedReply(b2, op))
    ensures !op.ReadRaw? ==> ExpectedReply(b1, op) == ExpectedReply(b2, op)
    ensures AfterOp(b1, op).WellFormed() && AfterOp(b2, op).WellFormed()
    ensures AfterOp(b1, op).Content() == AfterOp(b2, op).Content()
  {
    hide StepSpec, Body.State, Body.Content, Body.WellFormed, AfterOp, RawContent;
    StepDelivers(b1, [], op);
    StepDelivers(b2, [], op);
  }

  /**
   * What is expected depends on the content alone, not on how it was cut into chunks,
   * except for the octets in the destination of a raw read.
   */
  lemma {:induction false} ChunksDoNotMatter(b1: Body, b2: Body, ops: seq<BodyOp>)
    requires b1.WellFormed() && b2.WellFormed() && b1.Content() == b2.Content()
    ensures |Expected(b1, ops)| == |Expected(b2, ops)| == |ops|
    ensures forall i :: 0 <= i < |ops| ==> Alike(Expected(b1, ops)[i], Expected(b2, ops)[i])
    ensures forall i :: 0 <= i < |ops| && !ops[i].ReadRaw? ==> Expected(b1, ops)[i] == Expected(b2, ops)[i]
    decreases |ops|
  {
    hide ExpectedReply, Alike, Body.Content, Body.WellFormed, AfterOp;
    if ops != [] {
      StepAlike(b1, b2, ops[0]);
      var c1, c2 := AfterOp(b1, ops[0]), AfterOp(b2, ops[0]);
      ChunksDoNotMatter(c1, c2, ops[1..]);
      var later1, later2 := Expected(c1, ops[1..]), Expected(c2, ops[1..]);
      assert Expected(b1, ops) == [ExpectedReply(b1, ops[0])] + later1;
      assert Expected(b2, ops) == [ExpectedReply(b2, ops[0])] + later2;
      hide Expected;
    }
  }

  /** Once all content is taken, `has_incoming` is false and the stream is just past the body. */
  lemma RunEnds(b: Body, tail: bytes, ops: seq<BodyOp>)
    requires b.WellFormed()
    ensures RunSpec(b.State(tail), ops).Ok?
    ensures var r := Advance(RunSpec(b.State(tail), ops).value.1);
      var left := Leftover(b.Content(), ops);
      && r.Ok? && (r.value.incoming == 0 <==> left == [])
      && (left == [] ==> r.value == BodyState(0, true, tail))
  {
    var b1 := AfterRun(b, ops);
    RunDelivers(b, tail, ops);
    hide RunSpec, Leftover, AfterRun;
    FullyReadIsPast(b1, tail);
  }

  lemma FullyReadIsPast(b: Body, tail: bytes)
    requires b.WellFormed()
    ensures var r := Advance(b.State(tail));
      && r.Ok? && (r.value.incoming == 0 <==> b.Content() == [])
      && (b.Content() == [] ==> r.value == BodyState(0, true, tail))
  {
    AdvanceOpens(b, tail);
    OpenedContent(b);
    hide Advance, Body.WellFormed, Body.Opened, Body.Later;
    assert b.Content() == [] ==> b.Opened().Ready() == [];
    assert [] + tail == tail;
  }

  // ------------------------------------------- the decoder as an object

  lemma RawReadDone(n: nat, st: BodyState, dest: bytes)
    ensures AddCount(n, RawReadSpec(st, 0, dest)) == Ok((n, dest, st))
  {
  }

  /** One turn of the loop in `read`: st is the state on entry, st1 the one after `has_incoming`. */
  lemma ReadTurn(octets: bytes, st: BodyState, left: nat)
    requires 0 < left
    ensures match Advance(st)
      case Throw(e) => PrependTo(octets, ReadSpec(st, left)) == Throw(e)
      case Ok(st1) =>
        if st1.incoming == 0 then PrependTo(octets, ReadSpec(st, left)) == Ok((octets, st1))
        else
          var n := Min(left, st1.incoming);
          match TakeSpec(st1.stream, n, true)
          case Throw(e) => PrependTo(octets, ReadSpec(st, left)) == Throw(e)
          case Ok((taken, rest)) =>
            PrependTo(octets, ReadSpec(st, left))
            == PrependTo(octets + taken, ReadSpec(BodyState(st1.incoming - n, st1.ended, rest), left - n))
  {
    hide Advance;
    assert octets + [] == octets;
    if Advance(st).Ok? && 0 < Advance(st).value.incoming {
      var st1 := Advance(st).value;
      var n := Min(left, st1.incoming);
      var t := TakeSpec(st1.stream, n, true);
      if t.Ok? {
        var r := ReadSpec(BodyState(st1.incoming - n, st1.ended, t.value.1), left - n);
        if r.Ok? {
          assert octets + (t.value.0 + r.value.0) == (octets + t.value.0) + r.value.0;
        }
      }
    }
  }

  lemma ReadIdle(octets: bytes, st: BodyState, size: nat)
    ensures PrependTo([], ReadSpec(st, size)) == ReadSpec(st, size)
    ensures PrependTo(octets, ReadSpec(st, 0)) == Ok((octets, st))
  {
    hide Advance;
    assert octets + [] == octets;
    var r := ReadSpec(st, size);
    assert r.Ok? ==> [] + r.value.0 == r.value.0;
  }

  lemma RawReadTurn(st: BodyState, left: nat, dest: bytes)
    requires 0 < left <= |dest|
    ensures match Advance(st)
      case Throw(e) => RawReadSpec(st, left, dest) == Throw(e)
      case Ok(st1) =>
        if st1.incoming == 0 then RawReadSpec(st, left, dest) == Ok((0, dest, st1))
        else
          var n := Min(left, st1.incoming);
          match TakeSpec(st1.stream, n, true)
          case Throw(e) => RawReadSpec(st, left, dest) == Throw(e)
          case Ok((taken, rest)) =>
            RawReadSpec(st, left, dest)
            == AddCount(n, RawReadSpec(BodyState(st1.incoming - n, st1.ended, rest), left - n, Overlay(dest, taken)))
  {
    hide Advance;
  }

  class HttpBody {
    var incoming: nat
    var ended: bool
    const sock: Socket

    ghost function State(): BodyState
      reads this, sock.Repr()
      requires sock.Valid()
    {
      BodyState(incoming, ended, sock.Incoming())
    }

    constructor (incoming: nat, ended: bool, sock: Socket)
      requires sock.Valid()
      ensures this.sock == sock && State() == BodyState(incoming, ended, sock.Incoming())
    {
      this.incoming, this.ended, this.sock := incoming, ended, sock;
    }

    method HasIncoming() returns (r: Outcome<bool>)
      requires sock.Valid()
      modifies this, sock.Repr()
      ensures sock.Valid() && sock.Outgoing() == old(sock.Outgoing())
      ensures match r
        case Throw(e) => e == IoError || Throw(e) == Advance(old(State()))
        case Ok(more) => Advance(old(State())) == Ok(State()) && more == (incoming > 0)
    {
      hide Socket.Valid, Socket.Incoming, Socket.Outgoing, LineSpec, LongFromChars;
      if incoming > 0 || ended {
        return Ok(incoming > 0);
      }
      var line :- ReadHttpLine(sock);
      if line.IsLastLine() {
        line :- ReadHttpLine(sock);
      }
      if !line.HasValue() {
        return Throw(NoChunk);
      }
      var size := LongFromChars(line.val, HEX_BASE);
      if !size.Parsed? || size.value < 0 {
        return Throw(InvalidChunkSize);
      }
      incoming := size.value;
      if incoming == 0 {
        ended := true;
        var trailer :- ReadHttpLine(sock);
      }
      return Ok(incoming > 0);
    }

    /** The `std::string` overload: `octets` is what is appended to the destination. */
    method Read(size: nat) returns (r: Outcome<bytes>)
      requires sock.Valid()
      modifies this, sock.Repr()
      ensures sock.Valid() && sock.Outgoing() == old(sock.Outgoing())
      ensures match r
        case Throw(e) => e == IoError || Throw(e) == ReadSpec(old(State()), size)
        case Ok(octets) => ReadSpec(old(State()), size) == Ok((octets, State()))
    {
      hide Socket.Valid, Socket.Incoming, Socket.Outgoing, Advance, ReadSpec, PrependTo;
      ReadIdle([], State(), size);
      var octets: bytes := [];
      while |octets| < size
        invariant |octets| <= size
        invariant sock.Valid() && sock.Outgoing() == old(sock.Outgoing())
        invariant ReadSpec(old(State()), size) == PrependTo(octets, ReadSpec(State(), size - |octets|))
        decreases size - |octets|
      {
        ReadTurn(octets, State(), size - |octets|);
        var more :- HasIncoming();
        if !more {
          return Ok(octets);
        }
        var sizeToRead := Min(size - |octets|, incoming);
        var taken :- sock.Read(sizeToRead, true);
        incoming := incoming - sizeToRead;
        octets := octets + taken;
      }
      ReadIdle(octets, State(), 0);
      return Ok(octets);
    }

    /** The pointer overload: every piece is written to the start of the destination. */
    method ReadRaw(dest: array<byte>, size: nat) returns (r: Outcome<nat>)
      requires sock.Valid() && size <= dest.Length && dest !in sock.Repr()
      modifies this, sock.Repr(), dest
      ensures sock.Valid() && sock.Outgoing() == old(sock.Outgoing())
      ensures match r
        case Throw(e) => e == IoError || Throw(e) == RawReadSpec(old(State()), size, old(dest[..]))
        case Ok(total) => RawReadSpec(old(State()), size, old(dest[..])) == Ok((total, dest[..], State()))
    {
      hide Socket.Valid, Socket.Incoming, Socket.Outgoing, Advance, RawReadSpec;
      var total: nat := 0;
      while total < size
        invariant total <= size
        invariant sock.Valid() && sock.Outgoing() == old(sock.Outgoing())
        invariant RawReadSpec(old(State()), size, old(dest[..]))
          == AddCount(total, RawReadSpec(State(), size - total, dest[..]))
        decreases size - total
      {
        RawReadTurn(State(), size - total, dest[..]);
        var more :- HasIncoming();
        if !more {
          return Ok(total);
        }
        ghost var before := dest[..];
        var sizeToRead := Min(size - total, incoming);
        var taken :- sock.Read(sizeToRead, true);
        forall i | 0 <= i < |taken| {
          dest[i] := taken[i];
        }
        assert dest[..] == Overlay(before, taken);
        incoming := incoming - sizeToRead;
        total := total + sizeToRead;
      }
      RawReadDone(total, State(), dest[..]);
      return Ok(total);
    }

    /** As `Read`, with the octets dropped and counted. */
    method Skip(size: nat) returns (r: Outcome<nat>)
      requires sock.Valid()
      modifies this, sock.Repr()
      ensures sock.Valid() && sock.Outgoing() == old(sock.Outgoing())
      ensures match r
        case Throw(e) => e == IoError || Throw(e) == ReadSpec(old(State()), size)
        case Ok(n) => ReadSpec(old(State()), size).Ok?
                      && n == |ReadSpec(old(State()), size).value.0|
                      && State() == ReadSpec(old(State()), size).value.1
    {
      hide Socket.Valid, Socket.Incoming, Socket.Outgoing, Advance, ReadSpec, PrependTo;
      ReadIdle([], State(), size);
      var total := 0;
      ghost var skipped: bytes := [];
      while total < size
        invariant total == |skipped| <= size
        invariant sock.Valid() && sock.Outgoing() == old(sock.Outgoing())
        invariant ReadSpec(old(State()), size) == PrependTo(skipped, ReadSpec(State(), size - total))
        decreases size - total
      {
        ReadTurn(skipped, State(), size - total);
        var more :- HasIncoming();
        if !more {
          return Ok(total);
        }
        var sizeToSkip := Min(size - total, incoming);
        ghost var s := sock.Incoming();
        var n :- sock.Skip(sizeToSkip, true);
        incoming := incoming - sizeToSkip;
        total := total + sizeToSkip;
        skipped := skipped + s[..n];
      }
      ReadIdle(skipped, State(), 0);
      return Ok(total);
    }
  }
}
