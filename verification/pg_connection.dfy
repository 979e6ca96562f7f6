/** The client of one PostgreSQL connection: framing out, message loops in. */
module PgConnections {
  import opened Bytes
  import opened Sockets
  import opened PgWire
  import opened PgValues
  import opened PgResults
  import opened PgProtocol
  import opened PgReaders

  const QUERY: byte := 81
  const PARSE: byte := 80
  const BIND: byte := 66
  const EXECUTE: byte := 69
  const FLUSH: byte := 72
  const CLOSE: byte := 67
  const SYNC: byte := 83
  const PORTAL: byte := 80

  const NULL1: bytes := [0]
  const NULL2: bytes := [0, 0]

  // ------------------------------------------------------------ what is sent

  /** Section 55.7 of the PostgreSQL 16 documentation, Query. */
  function QueryMsg(q: bytes): Msg {
    Msg(QUERY, q + NULL1)
  }

  /** Parse: an unnamed statement, the query, no parameter types. */
  function ParseMsg(q: bytes): Msg {
    Msg(PARSE, NULL1 + ((q + NULL1) + NULL2))
  }

  /** Bind: unnamed portal and statement, text formats, the parameters, text results. */
  function BindMsg(params: bytes): Msg {
    Msg(BIND, NULL1 + (NULL1 + (NULL2 + (params + NULL2))))
  }

  /** Execute: the unnamed portal and the row limit. */
  function ExecuteMsg(maxRows: int): Msg {
    Msg(EXECUTE, NULL1 + U32Be(maxRows))
  }

  const FLUSH_MSG: Msg := Msg(FLUSH, [])
  const CLOSE_MSG: Msg := Msg(CLOSE, [PORTAL, 0])
  const SYNC_MSG: Msg := Msg(SYNC, [])

  /** `response_header` after `set_type` and `set_size`. */
  function Header(kind: byte, size: int): bytes {
    [kind] + U32Be(size + 4)
  }

  /** A header that announces the body, then the body, is the message. */
  lemma HeaderThenBody(m: Msg, s: bytes, size: int)
    requires size == |m.body|
    ensures (s + Header(m.kind, size)) + m.body == s + m.OnWire([])
  {
    Unit(m.body);
    Assoc([m.kind], U32Be(size + 4), m.body);
    Assoc(s, Header(m.kind, size), m.body);
  }

  lemma ThreePieces(s: bytes, a: bytes, b: bytes, c: bytes)
    ensures ((s + a) + b) + c == s + (a + (b + c))
  {
  }

  /** Two messages in a row. */
  lemma TwoMessages(s: bytes, m: Msg, n: Msg)
    ensures (s + m.OnWire([])) + n.OnWire([]) == s + MessagesOnWire([m, n], [])
    ensures MessagesOnWire([m], []) == m.OnWire([])
  {
    assert [m, n][1..] == [n] && [n][1..] == [] && [m][1..] == [];
    MessagesTail([m], n.OnWire([]));
    Assoc(s, m.OnWire([]), n.OnWire([]));
  }

  /** After one header: skip it and go on if it is a notice's. */
  function AfterHeader(info: Info): Outcome<Info> {
    if info.kind != NOTICE then Ok(info)
    else
      var (_, rest) :- TakeSpec(info.rest, info.size, true);
      NextInfo(rest)
  }

  lemma NextInfoTurn(s: bytes)
    ensures NextInfo(s) == match HeaderSpec(s) case Throw(e) => Throw(e) case Ok(info) => AfterHeader(info)
  {
  }

  lemma NoticeSkipped(info: Info)
    requires info.kind == NOTICE
    ensures match TakeSpec(info.rest, info.size, true)
      case Throw(e) => AfterHeader(info) == Throw(e)
      case Ok((_, rest)) => AfterHeader(info) == NextInfo(rest) && |rest| <= |info.rest|
    ensures info.size == 0 ==> AfterHeader(info) == NextInfo(info.rest)
  {
  }

  class PgConnection {
    const sock: Socket
    var queryReady: bool

    constructor (sock: Socket)
      ensures this.sock == sock && !queryReady
    {
      this.sock, queryReady := sock, false;
    }

    // ---------------------------------------------------------------- messages out

    method SendQuery(q: bytes) returns (r: Outcome<()>)
      requires sock.Valid()
      modifies sock.Repr()
      ensures sock.Valid() && sock.Incoming() == old(sock.Incoming())
      ensures r.Throw? ==> r.error == IoError
      ensures sock.schedule == old(sock.schedule)
      ensures r.Ok? ==> sock.Outgoing() == old(sock.Outgoing()) + QueryMsg(q).OnWire([]) && sock.sent == sock.Outgoing()
    {
      hide Socket.Valid, Socket.Incoming, Socket.Outgoing, Header, Msg.OnWire;
      var queryLen := |q| + 1;
      var w :- sock.Write(Header(QUERY, queryLen));
      w :- sock.Write(q + NULL1);
      HeaderThenBody(QueryMsg(q), old(sock.Outgoing()), queryLen);
      w :- sock.Flush();
      return Ok(());
    }

    method SendParse(q: bytes) returns (r: Outcome<()>)
      requires sock.Valid()
      modifies sock.Repr()
      ensures sock.Valid() && sock.Incoming() == old(sock.Incoming())
      ensures r.Throw? ==> r.error == IoError
      ensures sock.schedule == old(sock.schedule)
      ensures r.Ok? ==> sock.Outgoing() == old(sock.Outgoing()) + ParseMsg(q).OnWire([])
    {
      hide Socket.Valid, Socket.Incoming, Socket.Outgoing, Header, Msg.OnWire;
      var size := |q| + 4;
      var w :- sock.Write(Header(PARSE, size));
      ghost var sent := sock.Outgoing();
      w :- sock.Write(NULL1);
      w :- sock.Write(q + NULL1);
      w :- sock.Write(NULL2);
      ThreePieces(sent, NULL1, q + NULL1, NULL2);
      HeaderThenBody(ParseMsg(q), old(sock.Outgoing()), size);
      return Ok(());
    }

    method SendBind(params: bytes) returns (r: Outcome<()>)
      requires sock.Valid()
      modifies sock.Repr()
      ensures sock.Valid() && sock.Incoming() == old(sock.Incoming())
      ensures r.Throw? ==> r.error == IoError
      ensures sock.schedule == old(sock.schedule)
      ensures r.Ok? ==> sock.Outgoing() == old(sock.Outgoing()) + BindMsg(params).OnWire([])
    {
      hide Socket.Valid, Socket.Incoming, Socket.Outgoing, Header, Msg.OnWire;
      var size := |params| + 3 * 2;
      var w :- sock.Write(Header(BIND, size));
      ghost var sent := sock.Outgoing();
      w :- sock.Write(NULL1);
      w :- sock.Write(NULL1);
      ghost var named := sock.Outgoing();
      w :- sock.Write(NULL2);
      w :- sock.Write(params);
      w :- sock.Write(NULL2);
      ThreePieces(named, NULL2, params, NULL2);
      ThreePieces(sent, NULL1, NULL1, NULL2 + (params + NULL2));
      HeaderThenBody(BindMsg(params), old(sock.Outgoing()), size);
      return Ok(());
    }

    /** The Execute and Flush messages. */
    method SendExecute(maxRows: int) returns (r: Outcome<()>)
      requires sock.Valid()
      modifies sock.Repr()
      ensures sock.Valid() && sock.Incoming() == old(sock.Incoming())
      ensures r.Throw? ==> r.error == IoError
      ensures sock.schedule == old(sock.schedule)
      ensures r.Ok? ==> sock.Outgoing() == old(sock.Outgoing()) + MessagesOnWire([ExecuteMsg(maxRows), FLUSH_MSG], [])
      ensures r.Ok? ==> sock.sent == sock.Outgoing()
    {
      hide Socket.Valid, Socket.Incoming, Socket.Outgoing, Header, Msg.OnWire, U32Be, MessagesOnWire;
      var size := 4 + 1;
      var w :- sock.Write(Header(EXECUTE, size));
      ghost var sent := sock.Outgoing();
      w :- sock.Write(NULL1);
      w :- sock.Write(U32Be(maxRows));
      Assoc(sent, NULL1, U32Be(maxRows));
      HeaderThenBody(ExecuteMsg(maxRows), old(sock.Outgoing()), size);
      sent := sock.Outgoing();
      w :- sock.Write(Header(FLUSH, 0));
      Unit(sock.Outgoing());
      HeaderThenBody(FLUSH_MSG, sent, 0);
      TwoMessages(old(sock.Outgoing()), ExecuteMsg(maxRows), FLUSH_MSG);
      w :- sock.Flush();
      return Ok(());
    }

    // ---------------------------------------------------------------- messages in

    /** `get_response_info`, past any notices. */
    method GetResponseInfo() returns (r: Outcome<(byte, nat)>)
      requires sock.Valid()
      modifies sock.Repr()
      ensures sock.Valid() && sock.Outgoing() == old(sock.Outgoing()) && sock.sent == old(sock.sent)
      ensures r == Throw(IoError) ||
        match NextInfo(old(sock.Incoming()))
        case Throw(e) => r == Throw(e)
        case Ok(info) => r == Ok((info.kind, info.size)) && sock.Incoming() == info.rest
      ensures Later(old(sock.schedule), sock.schedule) && (r.Ok? ==> sock.Fresh())
    {
      hide Socket.Valid, Socket.Incoming, Socket.Outgoing, Socket.Fresh, NextInfo, HeaderSpec, TakeSpec, Later;
      ghost var s := sock.Incoming();
      NextInfoTurn(s);
      var info := ReadHeader();
      if info.Throw? {
        return Throw(info.error);
      }
      var kind: byte := info.value.0;
      var size: nat := info.value.1;
      while kind == NOTICE
        invariant sock.Valid() && sock.Outgoing() == old(sock.Outgoing()) && sock.sent == old(sock.sent)
        invariant NextInfo(s) == AfterHeader(Info(kind, size, sock.Incoming()))
        invariant Later(old(sock.schedule), sock.schedule) && sock.Fresh()
        decreases |sock.Incoming()|
      {
        ghost var notice := Info(kind, size, sock.Incoming());
        ghost var before := sock.schedule;
        NoticeSkipped(notice);
        if size > 0 {
          var skipped := sock.Skip(size, true);
          LaterStill(old(sock.schedule), before, sock.schedule);
          if skipped.Throw? {
            return Throw(skipped.error);
          }
        }
        NextInfoTurn(sock.Incoming());
        before := sock.schedule;
        info := ReadHeader();
        LaterStill(old(sock.schedule), before, sock.schedule);
        if info.Throw? {
          return Throw(info.error);
        }
        kind, size := info.value.0, info.value.1;
      }
      return Ok((kind, size));
    }

    method ReadHeader() returns (r: Outcome<(byte, nat)>)
      requires sock.Valid()
      modifies sock.Repr()
      ensures sock.Valid() && sock.Outgoing() == old(sock.Outgoing()) && sock.sent == old(sock.sent)
      ensures r == Throw(IoError) ||
        match HeaderSpec(old(sock.Incoming()))
        case Throw(e) => r == Throw(e)
        case Ok(info) => r == Ok((info.kind, info.size)) && sock.Incoming() == info.rest
      ensures Later(old(sock.schedule), sock.schedule) && (r.Ok? ==> sock.Fresh())
    {
      hide Socket.Valid, Socket.Incoming, Socket.Outgoing, Socket.Fresh, U32, Later;
      var header := sock.Read(HEADER_SIZE, true);
      if header.Throw? {
        return Throw(header.error);
      }
      HeaderPrefix(old(sock.Incoming()));
      return Ok((header.value[0], (U32(header.value[1..]) - 4) % WORD32));
    }

    /** The branches of both message loops that end a result. */
    method AbsorbCompletion(kind: byte, size: nat, current: PgResult) returns (r: Outcome<()>)
      requires sock.Valid() && IsCompletion(kind)
      modifies sock.Repr(), current
      ensures sock.Valid() && sock.Outgoing() == old(sock.Outgoing()) && sock.sent == old(sock.sent)
      ensures r.Ok? ==> |sock.Incoming()| <= |old(sock.Incoming())| && current.kind != PENDING
      ensures Later(old(sock.schedule), sock.schedule)
      ensures r == Throw(IoError) ||
        match TakeSpec(old(sock.Incoming()), size, true)
        case Throw(e) => r == Throw(e)
        case Ok((body, rest)) =>
          var absorbed := Absorb(old(current.Value()), Msg(kind, body));
          if absorbed.Throw? then r == Throw(absorbed.error)
          else r.Ok? && current.Value() == absorbed.value && sock.Incoming() == rest
    {
      hide Socket.Valid, Socket.Incoming, Socket.Outgoing, ParseRow, ParseColumns, Later;
      if IsFailed(kind) {
        var skipped := sock.Skip(size, true);
        if skipped.Throw? {
          return Throw(skipped.error);
        }
        current.SetError();
        return Ok(());
      }
      var tag := sock.Read(size, true);
      if tag.Throw? {
        return Throw(tag.error);
      }
      if tag.value == [] {
        return Throw(OutOfBounds);
      }
      current.SetCommandTag(tag.value[..|tag.value| - 1]);
      return Ok(());
    }

    /** `populate_result`, run to its end: without a receive, when the whole body is buffered. */
    method PopulateResult(kind: byte, size: nat, current: PgResult) returns (r: Outcome<()>)
      requires sock.Valid() && IsData(kind)
      modifies sock.Repr(), current
      ensures sock.Valid() && sock.Outgoing() == old(sock.Outgoing()) && sock.sent == old(sock.sent)
      ensures Later(old(sock.schedule), sock.schedule)
      ensures (r == Throw(IoError) && size > |old(sock.Buffered())|) ||
        match TakeSpec(old(sock.Incoming()), size, true)
        case Throw(e) => r == Throw(e)
        case Ok((body, rest)) =>
          var populated := Populate(old(current.Value()), kind, body);
          if populated.Throw? then r == Throw(populated.error)
          else r.Ok? && current.Value() == populated.value && sock.Incoming() == rest
    {
      hide Socket.Valid, Socket.Incoming, Socket.Outgoing, TakeSpec, ParseRow, ParseColumns, Later;
      var body := sock.Read(size, true);
      if body.Throw? {
        return Throw(body.error);
      }
      if kind == ROW_DESCRIPTION {
        var columns := ReadColumns(body.value);
        if columns.Throw? {
          return Throw(columns.error);
        }
        current.AddColumns(columns.value);
      } else {
        var row := ReadRow(body.value);
        if row.Throw? {
          return Throw(row.error);
        }
        current.AddRow(row.value);
      }
      return Ok(());
    }

    /**
     * The call of `populate_result` in both message loops: up to its first suspension,
     * where its task is destroyed.  The loops do not ask whether it was complete.
     */
    method PopulateDetached(kind: byte, size: nat, current: PgResult) returns (r: Outcome<()>, complete: bool)
      requires sock.Valid() && IsData(kind)
      modifies sock.Repr(), current
      ensures sock.Valid() && sock.Outgoing() == old(sock.Outgoing()) && sock.sent == old(sock.sent)
      ensures complete <==> size <= |old(sock.Buffered())|
      ensures if complete then Later(old(sock.schedule), sock.schedule) else sock.schedule == old(sock.schedule)
      ensures r.Ok? ==> current.kind == old(current.kind) && (!complete ==> sock.Buffered() == [])
      ensures match DetachedSpec(old(current.Value()), kind, old(sock.Incoming()), size, |old(sock.Buffered())|)
        case Throw(e) => r == Throw(e)
        case Ok((value, rest)) => r.Ok? && current.Value() == value && sock.Incoming() == rest
    {
      hide Socket.Valid, Socket.Incoming, Socket.Outgoing, ParseRow, ParseColumns, Later;
      complete := sock.HasBuffered(size);
      if complete {
        TakeWhole(sock.Incoming(), size);
        r := PopulateResult(kind, size, current);
      } else {
        var lost := sock.ReadBuffered(size);
        r := Ok(());
      }
    }

    /**
     * One message that a loop absorbs, after its header.  A data message is seen; after an
     * incomplete call a receive is left in flight.
     */
    method AbsorbNext(kind: byte, size: nat, current: PgResult) returns (r: Outcome<()>, ghost seen: seq<DataRead>)
      requires sock.Valid() && sock.Fresh() && (IsData(kind) || IsCompletion(kind))
      modifies sock.Repr(), current
      ensures sock.Valid() && sock.Outgoing() == old(sock.Outgoing()) && sock.sent == old(sock.sent)
      ensures r.Ok? ==> |sock.Incoming()| <= |old(sock.Incoming())|
      ensures r.Ok? ==> if IsData(kind) then current.kind == old(current.kind) else current.kind != PENDING
      ensures
        var bodies := BodyAt(Info(kind, size, old(sock.Incoming())));
        Observed(seen, bodies, old(sock.schedule), sock.schedule) && |seen| == |bodies|
      ensures r == Throw(IoError) || !AllWhole(seen) ||
        match TakeSpec(old(sock.Incoming()), size, true)
        case Throw(e) => r == Throw(e)
        case Ok((body, rest)) =>
          var absorbed := Absorb(old(current.Value()), Msg(kind, body));
          if absorbed.Throw? then r == Throw(absorbed.error)
          else r.Ok? && current.Value() == absorbed.value && sock.Incoming() == rest
    {
      hide Socket.Valid, Socket.Incoming, Socket.Outgoing, Populate, AllWhole, Observed;
      ghost var start := sock.schedule;
      if IsData(kind) {
        ghost var read := DataRead(DataBody(|sock.Incoming()|, size), |sock.Buffered()|);
        seen := [read];
        TakeWhole(sock.Incoming(), size);
        var complete;
        r, complete := PopulateDetached(kind, size, current);
        if r.Ok? && !complete {
          sock.StrayReceive();
        }
        OneObserved(read, start, sock.schedule);
      } else {
        seen := [];
        r := AbsorbCompletion(kind, size, current);
        NothingObserved([], start, sock.schedule);
      }
    }

    // ---------------------------------------------------------------- operations

    /**
     * `query`: one message out, and the results that the stream determines, as long as no
     * receive ends just before or inside the body of a data message of the answer.  That is
     * the case exactly if every data message seen is whole in the buffer when it is read.
     */
    method Query(q: bytes) returns (r: Outcome<seq<ResultValue>>, ghost seen: seq<DataRead>)
      requires sock.Valid()
      modifies this, sock.Repr()
      ensures sock.Valid()
      ensures !old(queryReady) ==>
        && r == Throw(NotReady) && !queryReady
        && sock.Incoming() == old(sock.Incoming()) && sock.Outgoing() == old(sock.Outgoing())
      ensures old(queryReady) && r != Throw(IoError) ==>
        && sock.Outgoing() == sock.sent == old(sock.Outgoing()) + QueryMsg(q).OnWire([])
        && (queryReady <==> r.Ok?)
      ensures old(queryReady) && r != Throw(IoError) && AllWhole(seen) ==>
        match QueryLoop(old(sock.Incoming()), [], EMPTY_RESULT)
        case Throw(e) => r == Throw(e)
        case Ok((results, rest)) => r == Ok(results) && sock.Incoming() == rest
      ensures Observed(seen, QueryBodies(old(sock.Incoming())), old(sock.schedule), sock.schedule)
      ensures r.Ok? && AllWhole(seen) ==> |seen| == |QueryBodies(old(sock.Incoming()))|
    {
      seen := [];
      NotYetLater(sock.schedule);
      NothingObserved(QueryBodies(sock.Incoming()), sock.schedule, sock.schedule);
      hide Socket.Valid, Socket.Incoming, Socket.Outgoing, QueryLoop, QueryMsg, Msg.OnWire, AllWhole;
      hide Observed, QueryBodies;
      if !queryReady {
        return Throw(NotReady), seen;
      }
      var w := SendQuery(q);
      if w.Throw? {
        return Throw(w.error), seen;
      }
      queryReady := false;
      r, seen := QueryAnswers();
    }

    /** The message loop of `query`. */
    method QueryAnswers() returns (r: Outcome<seq<ResultValue>>, ghost seen: seq<DataRead>)
      requires sock.Valid() && !queryReady
      modifies this, sock.Repr()
      ensures sock.Valid() && sock.Outgoing() == old(sock.Outgoing()) && sock.sent == old(sock.sent)
      ensures queryReady <==> r.Ok?
      ensures r == Throw(IoError) || !AllWhole(seen) ||
        match QueryLoop(old(sock.Incoming()), [], EMPTY_RESULT)
        case Throw(e) => r == Throw(e)
        case Ok((results, rest)) => r == Ok(results) && sock.Incoming() == rest
      ensures Observed(seen, QueryBodies(old(sock.Incoming())), old(sock.schedule), sock.schedule)
      ensures r.Ok? && AllWhole(seen) ==> |seen| == |QueryBodies(old(sock.Incoming()))|
    {
      hide Socket.Valid, Socket.Incoming, Socket.Outgoing, QueryTurn, QueryLoop, AllWhole, Observed, QueryBodies;
      hide NextBody, Later;
      seen := [];
      ghost var s, start := sock.Incoming(), sock.schedule;
      ghost var bodies := QueryBodies(s);
      NotYetLater(start);
      NothingObserved(bodies, start, start);
      var done: seq<ResultValue> := [];
      var current := new PgResult();
      while !queryReady
        invariant fresh(current)
        invariant sock.Valid() && sock.Outgoing() == old(sock.Outgoing()) && sock.sent == old(sock.sent)
        invariant AllWhole(seen) ==>
          QueryLoop(s, [], EMPTY_RESULT) ==
          if queryReady then Ok((done, sock.Incoming())) else QueryLoop(sock.Incoming(), done, current.Value())
        invariant Observed(seen, bodies, start, sock.schedule)
        invariant AllWhole(seen) ==>
          && |seen| <= |bodies|
          && bodies[|seen|..] == if queryReady then [] else QueryBodies(sock.Incoming())
        decreases !queryReady, |sock.Incoming()|
      {
        QueryLoopTurn(sock.Incoming(), done, current.Value());
        QueryBodiesTurn(sock.Incoming(), done, current.Value());
        ghost var before, next := sock.schedule, NextBody(sock.Incoming());
        var ready;
        ghost var more;
        ready, done, current, more := QueryAnswer(done, current);
        ObservedJoin(seen, more, bodies, next, start, before, sock.schedule);
        if AllWhole(seen + more) && ready.Ok? {
          BodiesLeft(bodies, |seen|, next, if ready.value then [] else QueryBodies(sock.Incoming()));
        }
        seen := seen + more;
        if ready.Throw? {
          return Throw(ready.error), seen;
        }
        queryReady := ready.value;
      }
      return Ok(done), seen;
    }

    /** One turn of that loop: whether it was the last, and the results and the message seen. */
    method QueryAnswer(done: seq<ResultValue>, current: PgResult)
      returns (ready: Outcome<bool>, done1: seq<ResultValue>, current1: PgResult, ghost seen: seq<DataRead>)
      requires sock.Valid()
      modifies current, sock.Repr()
      ensures sock.Valid() && sock.Outgoing() == old(sock.Outgoing()) && sock.sent == old(sock.sent)
      ensures current1 == current || fresh(current1)
      ensures ready.Ok? ==> |sock.Incoming()| < |old(sock.Incoming())|
      ensures Observed(seen, NextBody(old(sock.Incoming())), old(sock.schedule), sock.schedule)
      ensures ready.Ok? ==> |seen| == |NextBody(old(sock.Incoming()))|
      ensures ready == Throw(IoError) || !AllWhole(seen) ||
        match QueryTurn(old(sock.Incoming()), done, old(current.Value()))
        case Throw(e) => ready == Throw(e)
        case Ok(turn) =>
          && ready == Ok(turn.Done?) && sock.Incoming() == turn.rest
          && if turn.Done? then done1 == turn.value else (done1, current1.Value()) == turn.state
    {
      hide Socket.Valid, Socket.Incoming, Socket.Outgoing, Socket.Fresh;
      hide NextInfo, TakeSpec, Absorb, AllWhole, Observed, Later;
      done1, current1, seen := done, current, [];
      ghost var start, bodies := sock.schedule, NextBody(sock.Incoming());
      var info := GetResponseInfo();
      NothingObserved(bodies, start, sock.schedule);
      if info.Throw? {
        return Throw(info.error), done1, current1, seen;
      }
      var kind: byte := info.value.0;
      var size: nat := info.value.1;
      if IsData(kind) || IsCompletion(kind) {
        ghost var before := sock.schedule;
        var next;
        next, seen := AbsorbNext(kind, size, current);
        ObservedAfter(seen, bodies, start, before, sock.schedule);
        if next.Throw? {
          return Throw(next.error), done1, current1, seen;
        }
        if IsCompletion(kind) {
          done1 := done + [current.Value()];
          current1 := new PgResult();
        }
      } else if kind == READY_FOR_QUERY {
        TakeShrinks(sock.Incoming(), size);
        ghost var before := sock.schedule;
        var skipped := sock.Skip(size, true);
        LaterStill(start, before, sock.schedule);
        NothingObserved(bodies, start, sock.schedule);
        if skipped.Throw? {
          return Throw(skipped.error), done1, current1, seen;
        }
        return Ok(true), done1, current1, seen;
      }
      return Ok(false), done1, current1, seen;
    }

    /**
     * `prepare_query`, given the octets of the parameter buffer: Parse and Bind are
     * written, and the connection stops being ready.
     */
    method PrepareQuery(q: bytes, params: bytes) returns (r: Outcome<()>)
      requires sock.Valid()
      modifies this, sock.Repr()
      ensures sock.Valid() && sock.Incoming() == old(sock.Incoming())
      ensures !old(queryReady) ==> r == Throw(NotReady) && !queryReady && sock.Outgoing() == old(sock.Outgoing())
      ensures old(queryReady) && r != Throw(IoError) ==>
        && r == Ok(()) && !queryReady
        && sock.Outgoing() == old(sock.Outgoing()) + MessagesOnWire([ParseMsg(q), BindMsg(params)], [])
    {
      hide Socket.Valid, Socket.Incoming, Socket.Outgoing, MessagesOnWire, Msg.OnWire;
      if !queryReady {
        return Throw(NotReady);
      }
      var w := SendParse(q);
      if w.Throw? {
        return w;
      }
      w := SendBind(params);
      if w.Throw? {
        return w;
      }
      TwoMessages(old(sock.Outgoing()), ParseMsg(q), BindMsg(params));
      queryReady := false;
      return Ok(());
    }

    /**
     * `execute`: one window of the portal.  A suspended portal leaves the connection as
     * ready as it was; any other end closes the portal and makes it ready.  The answer is
     * the one that the stream determines, under the same condition.
     */
    method Execute(maxRows: int) returns (r: Outcome<ResultValue>, ghost seen: seq<DataRead>)
      requires sock.Valid()
      modifies this, sock.Repr()
      ensures sock.Valid()
      ensures r.Ok? ==> queryReady == (r.value.kind != SUSPENDED || old(queryReady))
      ensures r.Ok? ==> |sock.Incoming()| < |old(sock.Incoming())|
      ensures r.Throw? ==> queryReady == old(queryReady)
      ensures r != Throw(IoError) && AllWhole(seen) ==>
        match ExecuteSpec(old(sock.Incoming()))
        case Throw(e) => r == Throw(e)
        case Ok((answer, ready, rest)) =>
          r == Ok(answer) && sock.Incoming() == rest && (!ready <==> answer.kind == SUSPENDED)
      ensures Observed(seen, ExecuteBodies(old(sock.Incoming())), old(sock.schedule), sock.schedule)
      ensures r.Ok? && AllWhole(seen) ==> |seen| == |ExecuteBodies(old(sock.Incoming()))|
      ensures r.Ok? ==>
        var ms := ExecuteMessages(maxRows, r.value.kind == SUSPENDED);
        sock.Outgoing() == sock.sent == old(sock.Outgoing()) + MessagesOnWire(ms, [])
    {
      hide Socket.Valid, Socket.Incoming, Socket.Outgoing, ExecuteLoop, SyncLoop, MessagesOnWire, ExecuteMsg, AllWhole;
      hide Observed, ExecuteBodies, Later;
      seen := [];
      ghost var start, bodies := sock.schedule, ExecuteBodies(sock.Incoming());
      NotYetLater(start);
      NothingObserved(bodies, start, start);
      var w := SendExecute(maxRows);
      if w.Throw? {
        return Throw(w.error), seen;
      }
      NothingMore(maxRows);
      r, seen := ExecuteAnswers();
      if r.Throw? || r.value.kind == SUSPENDED {
        return;
      }
      ghost var sent, before := sock.Outgoing(), sock.schedule;
      w := CloseSync();
      ObservedStill(seen, bodies, start, before, sock.schedule);
      if w.Throw? {
        return Throw(w.error), seen;
      }
      FourMessages(old(sock.Outgoing()), ExecuteMsg(maxRows));
    }

    /** The message loop of `execute`. */
    method ExecuteAnswers() returns (r: Outcome<ResultValue>, ghost seen: seq<DataRead>)
      requires sock.Valid()
      modifies sock.Repr()
      ensures sock.Valid() && sock.Outgoing() == old(sock.Outgoing()) && sock.sent == old(sock.sent)
      ensures r.Ok? ==> r.value.kind != PENDING && |sock.Incoming()| < |old(sock.Incoming())|
      ensures r == Throw(IoError) || !AllWhole(seen) ||
        match ExecuteLoop(old(sock.Incoming()), EMPTY_RESULT)
        case Throw(e) => r == Throw(e)
        case Ok((answer, rest)) => r == Ok(answer) && sock.Incoming() == rest
      ensures Observed(seen, ExecuteBodies(old(sock.Incoming())), old(sock.schedule), sock.schedule)
      ensures r.Ok? && AllWhole(seen) ==> |seen| == |ExecuteBodies(old(sock.Incoming()))|
    {
      hide Socket.Valid, Socket.Incoming, Socket.Outgoing, ExecuteTurn, ExecuteLoop, AllWhole;
      hide Observed, ExecuteBodies, NextBody, Later;
      seen := [];
      ghost var s, start := sock.Incoming(), sock.schedule;
      ghost var bodies := ExecuteBodies(s);
      NotYetLater(start);
      NothingObserved(bodies, start, start);
      var current := new PgResult();
      while current.kind == PENDING
        invariant fresh(current)
        invariant sock.Valid() && sock.Outgoing() == old(sock.Outgoing()) && sock.sent == old(sock.sent)
        invariant |sock.Incoming()| <= |s| && (current.kind == PENDING || |sock.Incoming()| < |s|)
        invariant AllWhole(seen) ==>
          ExecuteLoop(s, EMPTY_RESULT) ==
          if current.kind == PENDING then ExecuteLoop(sock.Incoming(), current.Value())
          else Ok((current.Value(), sock.Incoming()))
        invariant Observed(seen, bodies, start, sock.schedule)
        invariant AllWhole(seen) ==>
          && |seen| <= |bodies|
          && bodies[|seen|..] == if current.kind == PENDING then ExecuteBodies(sock.Incoming()) else []
        decreases current.kind == PENDING, |sock.Incoming()|
      {
        ExecuteLoopTurn(sock.Incoming(), current.Value());
        ExecuteBodiesTurn(sock.Incoming(), current.Value());
        ghost var before, next := sock.schedule, NextBody(sock.Incoming());
        var turned;
        ghost var more;
        turned, more := ExecuteAnswer(current);
        ObservedJoin(seen, more, bodies, next, start, before, sock.schedule);
        if AllWhole(seen + more) && turned.Ok? {
          BodiesLeft(bodies, |seen|, next, if current.kind == PENDING then ExecuteBodies(sock.Incoming()) else []);
        }
        seen := seen + more;
        if turned.Throw? {
          return Throw(turned.error), seen;
        }
      }
      return Ok(current.Value()), seen;
    }

    /** One turn of that loop. */
    method ExecuteAnswer(current: PgResult) returns (r: Outcome<()>, ghost seen: seq<DataRead>)
      requires sock.Valid() && current.kind == PENDING
      modifies current, sock.Repr()
      ensures sock.Valid() && sock.Outgoing() == old(sock.Outgoing()) && sock.sent == old(sock.sent)
      ensures r.Ok? ==> |sock.Incoming()| < |old(sock.Incoming())|
      ensures Observed(seen, NextBody(old(sock.Incoming())), old(sock.schedule), sock.schedule)
      ensures r.Ok? ==> |seen| == |NextBody(old(sock.Incoming()))|
      ensures r == Throw(IoError) || !AllWhole(seen) ||
        match ExecuteTurn(old(sock.Incoming()), old(current.Value()))
        case Throw(e) => r == Throw(e)
        case Ok(turn) =>
          && r.Ok? && sock.Incoming() == turn.rest && (turn.Done? <==> current.kind != PENDING)
          && current.Value() == if turn.Done? then turn.value else turn.state
    {
      hide Socket.Valid, Socket.Incoming, Socket.Outgoing, Socket.Fresh;
      hide NextInfo, TakeSpec, Absorb, AllWhole, Observed, Later;
      seen := [];
      ghost var start, bodies := sock.schedule, NextBody(sock.Incoming());
      var info := GetResponseInfo();
      NothingObserved(bodies, start, sock.schedule);
      if info.Throw? {
        return Throw(info.error), seen;
      }
      var kind: byte := info.value.0;
      var size: nat := info.value.1;
      if IsData(kind) || IsCompletion(kind) {
        ghost var before := sock.schedule;
        r, seen := AbsorbNext(kind, size, current);
        ObservedAfter(seen, bodies, start, before, sock.schedule);
        return;
      } else if kind == PORTAL_SUSPENDED {
        current.SetSuspended();
      }
      return Ok(()), seen;
    }

    /** `close_sync`. */
    method CloseSync() returns (r: Outcome<()>)
      requires sock.Valid()
      modifies this, sock.Repr()
      ensures sock.Valid()
      ensures r.Throw? ==> queryReady == old(queryReady)
      ensures r.Ok? ==> |sock.Incoming()| <= |old(sock.Incoming())|
      ensures Later(old(sock.schedule), sock.schedule)
      ensures r != Throw(IoError) ==>
        && sock.Outgoing() == sock.sent == old(sock.Outgoing()) + MessagesOnWire([CLOSE_MSG, SYNC_MSG], [])
        && match SyncLoop(old(sock.Incoming()))
           case Throw(e) => r == Throw(e) && queryReady == old(queryReady)
           case Ok(rest) => r == Ok(()) && sock.Incoming() == rest && queryReady
    {
      hide Socket.Valid, Socket.Incoming, Socket.Outgoing, Socket.Fresh;
      hide NextInfo, TakeSpec, SyncLoop, MessagesOnWire, Later;
      ghost var s, start := sock.Incoming(), sock.schedule;
      NotYetLater(start);
      CloseSyncBytes();
      var w := sock.Write(CLOSE_SYNC_BYTES);
      if w.Throw? {
        return w;
      }
      w := sock.Flush();
      if w.Throw? {
        return w;
      }
      var kind: byte := 0;
      ghost var sent := sock.Outgoing();
      while kind != READY_FOR_QUERY
        invariant sock.Valid() && sock.Outgoing() == sock.sent == sent && queryReady == old(queryReady)
        invariant |sock.Incoming()| <= |s| && Later(start, sock.schedule)
        invariant SyncLoop(s) == if kind == READY_FOR_QUERY then Ok(sock.Incoming()) else SyncLoop(sock.Incoming())
        decreases kind != READY_FOR_QUERY, |sock.Incoming()|
      {
        SyncLoopTurn(sock.Incoming());
        ghost var before := sock.schedule;
        var info := GetResponseInfo();
        LaterStill(start, before, sock.schedule);
        if info.Throw? {
          return Throw(info.error);
        }
        kind := info.value.0;
        var size: nat := info.value.1;
        EmptyBody(sock.Incoming());
        if size > 0 {
          before := sock.schedule;
          var skipped := sock.Skip(size, true);
          LaterStill(start, before, sock.schedule);
          if skipped.Throw? {
            return Throw(skipped.error);
          }
        }
      }
      queryReady := true;
      return Ok(());
    }
  }

  const CLOSE_SYNC_BYTES: bytes := [67, 0, 0, 0, 6, 80, 0, 83, 0, 0, 0, 4]

  /** The constant of `close_sync` is the Close and Sync messages. */
  lemma CloseSyncBytes()
    ensures CLOSE_SYNC_BYTES == MessagesOnWire([CLOSE_MSG, SYNC_MSG], [])
  {
    TwoMessages([], CLOSE_MSG, SYNC_MSG);
    assert CLOSE_MSG.OnWire([]) == [67, 0, 0, 0, 6, 80, 0];
    assert SYNC_MSG.OnWire([]) == [83, 0, 0, 0, 4];
  }

  function ExecuteMessages(maxRows: int, suspended: bool): seq<Msg> {
    [ExecuteMsg(maxRows), FLUSH_MSG] + if suspended then [] else [CLOSE_MSG, SYNC_MSG]
  }

  lemma NothingMore(maxRows: int)
    ensures ExecuteMessages(maxRows, true) == [ExecuteMsg(maxRows), FLUSH_MSG]
  {
    assert [ExecuteMsg(maxRows), FLUSH_MSG] + [] == [ExecuteMsg(maxRows), FLUSH_MSG];
  }

  lemma FourMessages(s: bytes, m: Msg)
    ensures (s + MessagesOnWire([m, FLUSH_MSG], [])) + MessagesOnWire([CLOSE_MSG, SYNC_MSG], [])
      == s + MessagesOnWire([m, FLUSH_MSG] + [CLOSE_MSG, SYNC_MSG], [])
  {
    hide MessagesOnWire;
    var back := MessagesOnWire([CLOSE_MSG, SYNC_MSG], []);
    MessagesAppend([m, FLUSH_MSG], [CLOSE_MSG, SYNC_MSG], []);
    MessagesTail([m, FLUSH_MSG], back);
    Assoc(s, MessagesOnWire([m, FLUSH_MSG], []), back);
  }

  lemma EmptyBody(s: bytes)
    ensures TakeSpec(s, 0, true) == Ok(([], s))
  {
  }

  lemma TakeShrinks(s: bytes, size: nat)
    ensures TakeSpec(s, size, true).Ok? ==> |TakeSpec(s, size, true).value.1| <= |s|
  {
  }

  lemma TakeWhole(s: bytes, size: nat)
    ensures size <= |s| ==> TakeSpec(s, size, true) == Ok((s[..size], s[size..]))
  {
  }

  lemma HeaderPrefix(s: bytes)
    requires |s| >= HEADER_SIZE
    ensures s[..HEADER_SIZE][0] == s[0] && U32(s[..HEADER_SIZE][1..]) == U32(s[1..])
  {
  }

  // ------------------------------------------------------------ whole sessions

  /** A call on an initialised connection. */
  datatype Call =
    | CallQuery(q: bytes)
    | CallPrepare(q: bytes, stored: seq<Option<SqlValue>>)
    | CallExecute(maxRows: int)
    | CallCloseSync

  /** How a call ended: refused as not ready, or not; executions may leave the portal suspended. */
  datatype Ending = Refused | Completed | PortalSuspended

  /** The messages that a call with this ending emits. */
  function CallMessages(call: Call, ending: Ending): seq<Msg> {
    match call
    case CallQuery(q) => if ending == Refused then [] else [QueryMsg(q)]
    case CallPrepare(q, stored) => if ending == Refused then [] else [ParseMsg(q), BindMsg(StoredBuffer(stored))]
    case CallExecute(maxRows) => ExecuteMessages(maxRows, ending == PortalSuspended)
    case CallCloseSync => [CLOSE_MSG, SYNC_MSG]
  }

  /** The buffer of parameters in which these values are stored. */
  function StoredBuffer(stored: seq<Option<SqlValue>>): bytes {
    U16Be(|stored|) + CellsOnWire(ToRow(stored), [])
  }

  method StoreAll(stored: seq<Option<SqlValue>>) returns (p: PgParams)
    ensures fresh(p) && p.buffer == StoredBuffer(stored)
  {
    hide CellsOnWire, U16Be;
    p := new PgParams();
    for i := 0 to |stored|
      invariant fresh(p) && p.Valid() && p.stored == stored[..i]
    {
      p.Store(stored[i]);
    }
    assert stored[..|stored|] == stored;
  }

  // ------------------------------------------------------------ what a server makes of it

  /** What a call with this ending asks of the server. */
  function Requests(call: Call, ending: Ending): seq<Request> {
    match call
    case CallQuery(q) => if ending == Refused then [] else [SimpleQuery(q)]
    case CallPrepare(q, stored) =>
      if ending == Refused then []
      else [ParseRequest([], q, []), BindRequest([], [], [], ToRow(stored), [])]
    case CallExecute(maxRows) =>
      [ExecuteRequest([], Signed(maxRows % 4294967296)), FlushRequest]
      + if ending == PortalSuspended then [] else [CloseRequest('P' as int, []), SyncRequest]
    case CallCloseSync => [CloseRequest('P' as int, []), SyncRequest]
  }

  /** The text has no NUL, and there are no more parameters than can be counted. */
  ghost predicate Sayable(call: Call) {
    match call
    case CallQuery(q) => 0 !in q
    case CallPrepare(q, stored) => 0 !in q && |stored| < 0x1_0000 && CellsFit(ToRow(stored))
    case _ => true
  }

  /** A row limit of 32 bits is meant as it is; it is truncated otherwise. */
  lemma RowLimit(n: int)
    ensures Signed(n % 4294967296) == n <==> -2147483648 <= n < 2147483648
  {
  }

  lemma QueryIsRead(q: bytes)
    requires 0 !in q
    ensures ReadRequest(QueryMsg(q).kind, QueryMsg(q).body) == Some(SimpleQuery(q))
  {
    StringIsRead(q, []);
    hide ReadLastString;
  }

  lemma ParseIsRead(q: bytes)
    requires 0 !in q
    ensures ReadRequest(ParseMsg(q).kind, ParseMsg(q).body) == Some(ParseRequest([], q, []))
  {
    ParseBody(q);
    ParseFieldsAreRead([], q);
    hide ReadParse, ParseMsg;
  }

  lemma ParseBody(q: bytes)
    ensures ParseMsg(q) == Msg('P' as int, [] + ([0] + (q + ([0] + [0, 0]))))
  {
    Assoc(q, NULL1, NULL2);
    Unit([0] + (q + ([0] + [0, 0])));
  }

  lemma BindIsRead(row: Row)
    requires |row| < 0x1_0000 && CellsFit(row)
    ensures
      var m := BindMsg(U16Be(|row|) + CellsOnWire(row, []));
      ReadRequest(m.kind, m.body) == Some(BindRequest([], [], [], row, []))
  {
    hide ReadString, ReadList, ReadValues, U16Be, CellsOnWire;
    var params := U16Be(|row|) + CellsOnWire(row, []);
    var values := params + NULL2;
    Unit([0] + (NULL2 + values));
    Unit([0] + ([0] + (NULL2 + values)));
    StringIsRead([], [0] + (NULL2 + values));
    StringIsRead([], NULL2 + values);
    NoNumbers(values, 2);
    ValuesAreRead(row, NULL2);
    assert [0, 0] + [] == NULL2;
    NoNumbers([], 2);
  }

  lemma ExecuteIsRead(maxRows: int)
    ensures
      var m := ExecuteMsg(maxRows);
      ReadRequest(m.kind, m.body) == Some(ExecuteRequest([], Signed(maxRows % 4294967296)))
  {
    hide ReadString, Word32, U32Be, Signed;
    Unit([0] + U32Be(maxRows));
    StringIsRead([], U32Be(maxRows));
    WordIsRead(maxRows, []);
    Unit(U32Be(maxRows));
  }

  lemma OthersAreRead()
    ensures ReadRequest(FLUSH_MSG.kind, FLUSH_MSG.body) == Some(FlushRequest)
    ensures ReadRequest(SYNC_MSG.kind, SYNC_MSG.body) == Some(SyncRequest)
    ensures ReadRequest(CLOSE_MSG.kind, CLOSE_MSG.body) == Some(CloseRequest('P' as int, []))
  {
    StringIsRead([], []);
    assert CLOSE_MSG.body[1..] == [] + [0];
    hide ReadLastString;
  }

  lemma CallIsRead(call: Call, ending: Ending)
    requires Sayable(call)
    ensures AllRead(CallMessages(call, ending), Requests(call, ending))
  {
    hide ReadRequest, CellsFit, QueryMsg, ParseMsg, BindMsg, ExecuteMsg, U16Be, CellsOnWire, Signed;
    OthersAreRead();
    match call {
      case CallQuery(q) => QueryIsRead(q);
      case CallPrepare(q, stored) =>
        ParseIsRead(q);
        BindIsRead(ToRow(stored));
      case CallExecute(maxRows) => ExecuteIsRead(maxRows);
      case CallCloseSync =>
    }
  }

  /** What the calls of a session ask of the server, one after the other. */
  function SessionRequests(calls: seq<Call>, endings: seq<Ending>): seq<Request>
    requires |calls| == |endings|
  {
    if calls == [] then []
    else
      var n := |calls| - 1;
      SessionRequests(calls[..n], endings[..n]) + Requests(calls[n], endings[n])
  }

  lemma {:induction false} CallsAreRead(calls: seq<Call>, endings: seq<Ending>)
    requires |calls| == |endings| && forall i :: 0 <= i < |calls| ==> Sayable(calls[i])
    ensures AllRead(SessionMessages(calls, endings), SessionRequests(calls, endings))
  {
    hide AllRead, Sayable, CallMessages, Requests;
    if calls == [] {
      NothingRead();
    } else {
      var n := |calls| - 1;
      CallsAreRead(calls[..n], endings[..n]);
      CallIsRead(calls[n], endings[n]);
      AllReadAppend(SessionMessages(calls[..n], endings[..n]), SessionRequests(calls[..n], endings[..n]),
                    CallMessages(calls[n], endings[n]), Requests(calls[n], endings[n]));
    }
  }

  lemma NothingRead()
    ensures AllRead([], [])
  {
  }

  /** The readiness that a call with this ending leaves. */
  function ReadyThen(ready: bool, call: Call, ending: Ending): bool {
    if ending == Completed then !call.CallPrepare? else ready
  }

  /** Exactly the queries and preparations on a connection that is not ready are refused. */
  predicate EndsAs(ready: bool, call: Call, ending: Ending) {
    && (ending == Refused <==> (call.CallQuery? || call.CallPrepare?) && !ready)
    && (ending == PortalSuspended ==> call.CallExecute?)
  }

  /** One call: what it emits is exactly its messages. */
  method MakeCall(conn: PgConnection, call: Call) returns (r: Outcome<()>, ending: Ending)
    requires conn.sock.Valid()
    modifies conn, conn.sock.Repr()
    ensures conn.sock.Valid()
    ensures r.Ok? ==> conn.sock.Outgoing() == old(conn.sock.Outgoing()) + MessagesOnWire(CallMessages(call, ending), [])
    ensures r.Ok? ==> EndsAs(old(conn.queryReady), call, ending)
    ensures r.Ok? ==> conn.queryReady == ReadyThen(old(conn.queryReady), call, ending)
  {
    hide Socket.Valid, Socket.Incoming, Socket.Outgoing, MessagesOnWire, QueryLoop, ExecuteSpec;
    hide QueryMsg, ParseMsg, BindMsg, ExecuteMsg, ExecuteMessages, Msg.OnWire, StoredBuffer;
    r, ending := Ok(()), Completed;
    NoMessages(conn.sock.Outgoing());
    match call {
      case CallQuery(q) =>
        TwoMessages([], QueryMsg(q), QueryMsg(q));
        var ready := conn.queryReady;
        var results;
        ghost var seen;
        results, seen := conn.Query(q);
        if results.Throw? {
          if ready { return Throw(results.error), ending; }
          ending := Refused;
        }
      case CallPrepare(q, stored) =>
        var ready := conn.queryReady;
        var params := StoreAll(stored);
        var prepared := conn.PrepareQuery(q, params.buffer);
        if prepared.Throw? {
          if ready { return Throw(prepared.error), ending; }
          ending := Refused;
        }
      case CallExecute(maxRows) =>
        var answer;
        ghost var seen;
        answer, seen := conn.Execute(maxRows);
        if answer.Throw? { return Throw(answer.error), ending; }
        ending := if answer.value.kind == SUSPENDED then PortalSuspended else Completed;
      case CallCloseSync =>
        var closed := conn.CloseSync();
        if closed.Throw? { return closed, ending; }
    }
  }

  lemma NoMessages(s: bytes)
    ensures s + MessagesOnWire([], []) == s
  {
    Unit(s);
  }

  /** The messages of the calls, one after the other. */
  function SessionMessages(calls: seq<Call>, endings: seq<Ending>): seq<Msg>
    requires |calls| == |endings|
  {
    if calls == [] then []
    else
      var n := |calls| - 1;
      SessionMessages(calls[..n], endings[..n]) + CallMessages(calls[n], endings[n])
  }

  /** The readiness after calls with these endings. */
  function ReadyAfter(ready: bool, calls: seq<Call>, endings: seq<Ending>): bool
    requires |calls| == |endings|
  {
    if calls == [] then ready
    else
      var n := |calls| - 1;
      ReadyThen(ReadyAfter(ready, calls[..n], endings[..n]), calls[n], endings[n])
  }

  /** Each call ends as the readiness that those before it left makes it end. */
  ghost predicate SessionEnds(ready: bool, calls: seq<Call>, endings: seq<Ending>) {
    && |calls| == |endings|
    && forall i :: 0 <= i < |calls| ==> EndsAs(ReadyAfter(ready, calls[..i], endings[..i]), calls[i], endings[i])
  }

  /**
   * Since the last call that completed: the connection is ready exactly if that call was not
   * a preparation; so a prepared query must be executed to its end, or closed.
   */
  lemma {:induction false} ReadySince(ready: bool, calls: seq<Call>, endings: seq<Ending>, k: nat)
    requires |calls| == |endings| && k < |calls| && endings[k] == Completed
    requires forall i :: k < i < |calls| ==> endings[i] != Completed
    ensures ReadyAfter(ready, calls, endings) <==> !calls[k].CallPrepare?
  {
    var n := |calls| - 1;
    if k < n {
      ReadySince(ready, calls[..n], endings[..n], k);
    }
  }

  lemma EndsStep(ready: bool, calls: seq<Call>, endings: seq<Ending>, i: nat, ending: Ending)
    requires i < |calls| && SessionEnds(ready, calls[..i], endings)
    requires EndsAs(ReadyAfter(ready, calls[..i], endings), calls[i], ending)
    ensures SessionEnds(ready, calls[..i + 1], endings + [ending])
    ensures ReadyAfter(ready, calls[..i + 1], endings + [ending])
      == ReadyThen(ReadyAfter(ready, calls[..i], endings), calls[i], ending)
  {
    hide EndsAs, ReadyThen;
    var made, ends := calls[..i + 1], endings + [ending];
    assert made[..i] == calls[..i] && ends[..i] == endings;
    forall j | 0 <= j < |made| ensures EndsAs(ReadyAfter(ready, made[..j], ends[..j]), made[j], ends[j]) {
      if j < i {
        assert made[..j] == calls[..i][..j] && ends[..j] == endings[..j];
        assert EndsAs(ReadyAfter(ready, calls[..i][..j], endings[..j]), calls[..i][j], endings[j]);
      }
    }
  }

  lemma SessionStep(calls: seq<Call>, endings: seq<Ending>, i: nat, ending: Ending, s: bytes)
    requires i < |calls| && |endings| == i
    ensures SessionMessages(calls[..i + 1], endings + [ending]) ==
      SessionMessages(calls[..i], endings) + CallMessages(calls[i], ending)
    ensures
      var front, back := SessionMessages(calls[..i], endings), CallMessages(calls[i], ending);
      (s + MessagesOnWire(front, [])) + MessagesOnWire(back, [])
      == s + MessagesOnWire(SessionMessages(calls[..i + 1], endings + [ending]), [])
  {
    hide CallMessages, MessagesOnWire;
    assert calls[..i + 1][..i] == calls[..i] && (endings + [ending])[..i] == endings;
    var front, back := SessionMessages(calls[..i], endings), CallMessages(calls[i], ending);
    MessagesAppend(front, back, []);
    MessagesTail(front, MessagesOnWire(back, []));
    Assoc(s, MessagesOnWire(front, []), MessagesOnWire(back, []));
  }

  /**
   * Frontend framing: whatever the calls, in whatever order, what a session emits is the
   * calls' messages one after the other, and when they fit it is cut back into them.  The
   * readiness at the start decides which calls are refused; from the octets of the others a
   * server reads what was asked for, in order.
   */
  method Session(conn: PgConnection, calls: seq<Call>) returns (r: Outcome<()>, endings: seq<Ending>)
    requires conn.sock.Valid()
    modifies conn, conn.sock.Repr()
    ensures conn.sock.Valid()
    ensures r.Ok? ==>
      SessionEnds(old(conn.queryReady), calls, endings)
      && conn.queryReady == ReadyAfter(old(conn.queryReady), calls, endings)
    ensures r.Ok? ==>
      conn.sock.Outgoing() == old(conn.sock.Outgoing()) + MessagesOnWire(SessionMessages(calls, endings), [])
    ensures r.Ok? && AllFit(SessionMessages(calls, endings)) ==>
      var octets := conn.sock.Outgoing()[|old(conn.sock.Outgoing())|..];
      && Deframe(octets) == Some(SessionMessages(calls, endings))
      && ((forall i :: 0 <= i < |calls| ==> Sayable(calls[i])) ==>
            ReadSession(octets) == Some(SessionRequests(calls, endings)))
  {
    hide Socket.Valid, Socket.Incoming, Socket.Outgoing, MessagesOnWire, CallMessages, Deframe, AllFit;
    hide EndsAs, ReadyThen, Sayable, Requests, ReadSession, AllRead;
    ghost var s, ready := conn.sock.Outgoing(), conn.queryReady;
    NoMessages(s);
    r, endings := Ok(()), [];
    for i := 0 to |calls|
      invariant conn.sock.Valid() && |endings| == i
      invariant SessionEnds(ready, calls[..i], endings)
      invariant conn.queryReady == ReadyAfter(ready, calls[..i], endings)
      invariant conn.sock.Outgoing() == s + MessagesOnWire(SessionMessages(calls[..i], endings), [])
    {
      var made, ending := MakeCall(conn, calls[i]);
      if made.Throw? {
        return made, endings;
      }
      SessionStep(calls, endings, i, ending, s);
      EndsStep(ready, calls, endings, i, ending);
      endings := endings + [ending];
    }
    assert calls[..|calls|] == calls;
    ghost var ms := SessionMessages(calls, endings);
    assert conn.sock.Outgoing()[|s|..] == MessagesOnWire(ms, []);
    if AllFit(ms) {
      DeframeRoundTrip(ms);
      if forall i :: 0 <= i < |calls| ==> Sayable(calls[i]) {
        CallsAreRead(calls, endings);
        SessionIsRead(ms, SessionRequests(calls, endings));
      }
    }
  }

  /**
   * Fetching a portal window by window, as long as it is suspended.  The connection is
   * not ready before the last window, and is ready after it; the windows are those that
   * the stream determines, under the condition of `Query` for all of them.
   */
  method FetchAll(conn: PgConnection, maxRows: int) returns (r: Outcome<seq<ResultValue>>, ghost seen: seq<DataRead>)
    requires conn.sock.Valid() && !conn.queryReady
    modifies conn, conn.sock.Repr()
    ensures conn.sock.Valid() && (conn.queryReady <==> r.Ok?)
    ensures r == Throw(IoError) || !AllWhole(seen) ||
      match ExecuteAll(old(conn.sock.Incoming()))
      case Throw(e) => r == Throw(e)
      case Ok((results, rest)) => r == Ok(results) && conn.sock.Incoming() == rest
    ensures Observed(seen, PortalBodies(old(conn.sock.Incoming())), old(conn.sock.schedule), conn.sock.schedule)
    ensures r.Ok? && AllWhole(seen) ==> |seen| == |PortalBodies(old(conn.sock.Incoming()))|
  {
    hide Socket.Valid, Socket.Incoming, Socket.Outgoing, ExecuteSpec, ExecuteAll, MessagesOnWire, ExecuteMessages;
    hide AllWhole, Observed, ExecuteBodies, PortalBodies;
    seen := [];
    ghost var s, start := conn.sock.Incoming(), conn.sock.schedule;
    ghost var bodies := PortalBodies(s);
    NotYetLater(start);
    NothingObserved(bodies, start, start);
    var results: seq<ResultValue> := [];
    AddNoResults(results, s);
    while true
      invariant conn.sock.Valid() && !conn.queryReady
      invariant AllWhole(seen) ==> ExecuteAll(s) == PrependTo(results, ExecuteAll(conn.sock.Incoming()))
      invariant Observed(seen, bodies, start, conn.sock.schedule)
      invariant AllWhole(seen) ==> |seen| <= |bodies| && bodies[|seen|..] == PortalBodies(conn.sock.Incoming())
      decreases |conn.sock.Incoming()|
    {
      ExecuteAllTurn(results, conn.sock.Incoming());
      var answer;
      ghost var more;
      PortalBodiesTurn(conn.sock.Incoming());
      ghost var before, next := conn.sock.schedule, ExecuteBodies(conn.sock.Incoming());
      answer, more := conn.Execute(maxRows);
      ObservedJoin(seen, more, bodies, next, start, before, conn.sock.schedule);
      if AllWhole(seen + more) && answer.Ok? {
        ghost var open := answer.value.kind == SUSPENDED;
        BodiesLeft(bodies, |seen|, next, if open then PortalBodies(conn.sock.Incoming()) else []);
      }
      seen := seen + more;
      if answer.Throw? {
        return Throw(answer.error), seen;
      }
      results := results + [answer.value];
      if answer.value.kind != SUSPENDED {
        return Ok(results), seen;
      }
    }
  }

  /**
   * A simple query against a backend that answers with handled messages, notices among
   * them: one result for each completion, and exactly that answer is consumed, if no
   * receive ends just before or inside the body of a data message.  So it is for an answer
   * without data messages, and for one that arrives in one receive.  When the loop comes
   * to its end, all data messages were whole exactly under that condition, and they were
   * not if one of them is longer than the buffer.
   */
  method QueryDelivers(conn: PgConnection, q: bytes, ghost ms: seq<Msg>, ghost ready: Msg, ghost tail: bytes)
    returns (r: Outcome<seq<ResultValue>>, ghost seen: seq<DataRead>)
    requires conn.sock.Valid() && conn.queryReady
    requires forall i :: 0 <= i < |ms| ==> QueryHandled(ms[i])
    requires ready.kind == READY_FOR_QUERY && ready.Fits()
    requires conn.sock.Incoming() == MessagesOnWire(ms + [ready], tail)
    modifies conn, conn.sock.Repr()
    ensures conn.sock.Valid()
    ensures Observed(seen, BodiesOnWire(ms + [ready], tail), old(conn.sock.schedule), conn.sock.schedule)
    ensures
      var end, cuts := old(conn.sock.schedule.end), conn.sock.schedule.cuts;
      && ((forall m :: m in ms ==> !IsData(m.kind)) || AtOnce(old(conn.sock.Incoming()), tail, end, cuts)
          ==> AllUndivided(BodiesOnWire(ms + [ready], tail), end, cuts))
      && (r != Throw(IoError) && AllUndivided(BodiesOnWire(ms + [ready], tail), end, cuts)
          ==> r == Ok(Demux(ms)) && conn.sock.Incoming() == tail && conn.queryReady)
      && (r.Ok? ==> (AllWhole(seen) <==> AllUndivided(BodiesOnWire(ms + [ready], tail), end, cuts)))
    ensures r.Ok? && (exists i :: 0 <= i < |ms| && IsData(ms[i].kind) && |ms[i].body| > 8192)
      ==> !AllWhole(seen)
  {
    QueryDemultiplexes(ms, ready, tail);
    QueryBodiesAre(ms, ready, tail);
    hide *;
    ghost var start := conn.sock.schedule;
    ghost var bodies := BodiesOnWire(ms + [ready], tail);
    r, seen := conn.Query(q);
    ghost var cuts := conn.sock.schedule.cuts;
    ObservedIsWhole(seen, bodies, start, conn.sock.schedule);
    if forall m :: m in ms ==> !IsData(m.kind) {
      WithoutData(ms, ready, tail, start.end, cuts);
    }
    if AtOnce(MessagesOnWire(ms + [ready], tail), tail, start.end, cuts) {
      AtOnceIsUndivided(ms + [ready], tail, start.end, cuts);
    }
    if r.Ok? {
      WholeIffUndivided(seen, bodies, start, conn.sock.schedule);
      if i :| 0 <= i < |ms| && IsData(ms[i].kind) && |ms[i].body| > 8192 {
        assert (ms + [ready])[i] == ms[i];
        LongMessageIsLost(seen, ms + [ready], tail, i, start, conn.sock.schedule);
      }
    }
  }

  /**
   * The windows of a portal, fetched one by one, under the same condition, which is met if
   * each window arrives in one receive.
   */
  method WindowsDelivered(
    conn: PgConnection, maxRows: int, ghost windows: seq<seq<Msg>>, ghost last: LastAnswer, ghost tail: bytes)
    returns (r: Outcome<seq<ResultValue>>, ghost seen: seq<DataRead>)
    requires conn.sock.Valid() && !conn.queryReady && WindowsHandled(windows) && last.Handled()
    requires conn.sock.Incoming() == WindowsOnWire(windows, last.OnWire(tail))
    modifies conn, conn.sock.Repr()
    ensures conn.sock.Valid()
    ensures Observed(seen, WindowBodies(windows, last, tail), old(conn.sock.schedule), conn.sock.schedule)
    ensures
      var end, cuts := old(conn.sock.schedule.end), conn.sock.schedule.cuts;
      && (EachAtOnce(windows, last, tail, end, cuts) ==> AllUndivided(WindowBodies(windows, last, tail), end, cuts))
      && (r != Throw(IoError) && AllUndivided(WindowBodies(windows, last, tail), end, cuts) ==>
            && r == Ok(WindowResults(windows) + [PortalResult(EMPTY_RESULT, last.ms, last.completion)])
            && AllRows(r.value) == RowsOf(Joined(windows) + last.ms)
            && conn.sock.Incoming() == tail && conn.queryReady)
      && (r.Ok? ==> (AllWhole(seen) <==> AllUndivided(WindowBodies(windows, last, tail), end, cuts)))
  {
    ExecuteReadsWindows(windows, last, tail);
    WindowRowsJoin(windows, last);
    PortalBodiesAre(windows, last, tail);
    hide *;
    ghost var start := conn.sock.schedule;
    r, seen := FetchAll(conn, maxRows);
    ghost var bodies, cuts := WindowBodies(windows, last, tail), conn.sock.schedule.cuts;
    ObservedIsWhole(seen, bodies, start, conn.sock.schedule);
    if EachAtOnce(windows, last, tail, start.end, cuts) {
      EachAtOnceIsUndivided(windows, last, tail, start.end, cuts);
    }
    if r.Ok? {
      WholeIffUndivided(seen, bodies, start, conn.sock.schedule);
    }
  }

  lemma AddNoResults(front: seq<ResultValue>, s: bytes)
    requires front == []
    ensures PrependTo(front, ExecuteAll(s)) == ExecuteAll(s)
  {
    hide ExecuteAll;
    assert ExecuteAll(s).Ok? ==> [] + ExecuteAll(s).value.0 == ExecuteAll(s).value.0;
  }

  lemma ExecuteAllTurn(front: seq<ResultValue>, s: bytes)
    ensures match ExecuteSpec(s)
      case Throw(e) => PrependTo(front, ExecuteAll(s)) == Throw(e)
      case Ok((answer, ready, rest)) =>
        PrependTo(front, ExecuteAll(s)) ==
        if ready then Ok((front + [answer], rest)) else PrependTo(front + [answer], ExecuteAll(rest))
  {
    hide ExecuteSpec;
    if ExecuteSpec(s).Ok? && !ExecuteSpec(s).value.1 {
      var (answer, ready, rest) := ExecuteSpec(s).value;
      var more := ExecuteAll(rest);
      if more.Ok? {
        assert front + ([answer] + more.value.0) == (front + [answer]) + more.value.0;
      }
    }
  }
}
