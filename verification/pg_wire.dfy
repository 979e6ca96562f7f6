/** Length-prefixed messages of the PostgreSQL protocol, version 3. */
module PgWire {
  import opened Bytes
  import opened Sockets

  const WORD32: int := 0x1_0000_0000

  /** One message: its kind and what follows the length field. */
  datatype Msg = Msg(kind: byte, body: bytes) {
    /** The length field counts itself and has 32 bits. */
    predicate Fits() {
      |body| + 4 < WORD32
    }

    /** `response_header::set_type`, `set_size`, and the body. */
    function OnWire(tail: bytes): bytes {
      [kind] + (U32Be(|body| + 4) + (body + tail))
    }
  }

  function MessagesOnWire(ms: seq<Msg>, tail: bytes): bytes {
    if ms == [] then tail else ms[0].OnWire(MessagesOnWire(ms[1..], tail))
  }

  ghost predicate AllFit(ms: seq<Msg>) {
    forall i :: 0 <= i < |ms| ==> ms[i].Fits()
  }

  lemma {:induction false} MessagesAppend(ms: seq<Msg>, more: seq<Msg>, tail: bytes)
    ensures MessagesOnWire(ms + more, tail) == MessagesOnWire(ms, MessagesOnWire(more, tail))
  {
    if ms == [] {
      assert ms + more == more;
    } else {
      assert (ms + more)[1..] == ms[1..] + more;
      MessagesAppend(ms[1..], more, tail);
    }
  }

  lemma {:induction false} MessagesTail(ms: seq<Msg>, tail: bytes)
    ensures MessagesOnWire(ms, []) + tail == MessagesOnWire(ms, tail)
  {
    if ms != [] {
      MessagesTail(ms[1..], tail);
      var m, rest := ms[0], MessagesOnWire(ms[1..], []);
      Assoc([m.kind], U32Be(|m.body| + 4) + (m.body + rest), tail);
      Assoc(U32Be(|m.body| + 4), m.body + rest, tail);
      Assoc(m.body, rest, tail);
    } else {
      Unit(tail);
    }
  }

  // ------------------------------------------------------------ reading

  const HEADER_SIZE: nat := 5

  /** A header: the kind, the size of the body, and what follows. */
  datatype Info = Info(kind: byte, size: nat, rest: bytes)

  /** The length field less 4, in 32-bit unsigned arithmetic. */
  function HeaderSpec(s: bytes): (r: Outcome<Info>)
    ensures r.Ok? ==> |r.value.rest| + 5 == |s|
  {
    if |s| < HEADER_SIZE then Throw(SocketClosed)
    else Ok(Info(s[0], (U32(s[1..]) - 4) % WORD32, s[HEADER_SIZE..]))
  }

  const NOTICE: byte := 78

  /** `get_response_info`: the next header that is not a notice's. */
  function NextInfo(s: bytes): (r: Outcome<Info>)
    ensures r.Ok? ==> |r.value.rest| + 5 <= |s|
    decreases |s|
  {
    var info :- HeaderSpec(s);
    if info.kind != NOTICE then Ok(info)
    else
      var (_, rest) :- TakeSpec(info.rest, info.size, true);
      NextInfo(rest)
  }

  /** The header of a message that fits is read back: its kind, and exactly its size. */
  lemma HeaderRoundTrip(m: Msg, tail: bytes)
    requires m.Fits()
    ensures HeaderSpec(m.OnWire(tail)) == Ok(Info(m.kind, |m.body|, m.body + tail))
  {
    hide U32, U32Be;
    var s := m.OnWire(tail);
    var rest := m.body + tail;
    assert s[1..] == U32Be(|m.body| + 4) + rest;
    assert s[5..] == rest;
    U32RoundTrip(|m.body| + 4, rest);
  }

  /** The length field counts itself and the body exactly when that needs no more than 32 bits. */
  lemma LengthFieldExactIff(m: Msg, tail: bytes)
    ensures U32(m.OnWire(tail)[1..]) == 4 + |m.body| <==> m.Fits()
  {
    hide U32, U32Be;
    var rest := m.body + tail;
    assert m.OnWire(tail)[1..] == U32Be(|m.body| + 4) + rest;
    U32RoundTrip(|m.body| + 4, rest);
  }

  /** A length below 4, which no message has, is read as almost 2^32 octets. */
  lemma HeaderIsRead(kind: byte, n: int, rest: bytes)
    requires 0 <= n < WORD32
    ensures HeaderSpec([kind] + (U32Be(n) + rest)) == Ok(Info(kind, if n < 4 then n + (WORD32 - 4) else n - 4, rest))
  {
    hide U32, U32Be;
    var s := [kind] + (U32Be(n) + rest);
    assert s[1..] == U32Be(n) + rest && s[5..] == rest;
    U32RoundTrip(n, rest);
  }

  lemma TakeBody(m: Msg, tail: bytes)
    ensures TakeSpec(m.body + tail, |m.body|, true) == Ok((m.body, tail))
  {
    assert (m.body + tail)[..|m.body|] == m.body && (m.body + tail)[|m.body|..] == tail;
  }

  /** A notice is skipped whole; any other message is the next one. */
  lemma NextMessage(m: Msg, tail: bytes)
    requires m.Fits()
    ensures NextInfo(m.OnWire(tail)) ==
      if m.kind == NOTICE then NextInfo(tail) else Ok(Info(m.kind, |m.body|, m.body + tail))
  {
    HeaderRoundTrip(m, tail);
    TakeBody(m, tail);
    hide HeaderSpec, TakeSpec, Msg.OnWire;
  }

  /** Cutting a byte sequence into messages; none if it is not a whole number of them. */
  function Deframe(s: bytes): Option<seq<Msg>>
    decreases |s|
  {
    if s == [] then Some([])
    else
      match HeaderSpec(s)
      case Throw(_) => None
      case Ok(info) =>
        if |info.rest| < info.size then None
        else
          match Deframe(info.rest[info.size..])
          case None => None
          case Some(ms) => Some([Msg(info.kind, info.rest[..info.size])] + ms)
  }

  /** Messages that fit are recovered from their bytes, and so those bytes determine them. */
  lemma {:induction false} DeframeRoundTrip(ms: seq<Msg>)
    requires AllFit(ms)
    ensures Deframe(MessagesOnWire(ms, [])) == Some(ms)
  {
    if ms != [] {
      var rest := MessagesOnWire(ms[1..], []);
      HeaderRoundTrip(ms[0], rest);
      TakeBody(ms[0], rest);
      DeframeRoundTrip(ms[1..]);
      hide HeaderSpec;
      assert [ms[0]] + ms[1..] == ms;
    }
  }
}
