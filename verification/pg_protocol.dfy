/** What the message loops of the client make of a backend stream. */
module PgProtocol {
  import opened Bytes
  import opened Sockets
  import opened PgWire
  import opened PgValues
  import opened PgResults

  const COMMAND_COMPLETE: byte := 67
  const DATA_ROW: byte := 68
  const ROW_DESCRIPTION: byte := 84
  const EMPTY_QUERY: byte := 73
  const ERROR_RESPONSE: byte := 69
  const READY_FOR_QUERY: byte := 90
  const PARSE_COMPLETE: byte := 49
  const BIND_COMPLETE: byte := 50
  const PORTAL_SUSPENDED: byte := 115

  // ------------------------------------------------------------ one message

  /** `populate_result`, given the whole message body. */
  function Populate(r: ResultValue, kind: byte, body: bytes): Outcome<ResultValue> {
    if kind == ROW_DESCRIPTION then
      var columns :- ParseColumns(body);
      Ok(r.(columns := r.columns + columns))
    else
      var row :- ParseRow(body);
      Ok(r.(rows := r.rows + [row]))
  }

  /**
   * `populate_result` as the message loops call it, without `co_await`.  The call runs up
   * to its first suspension and is destroyed there: with the whole body buffered it is
   * complete; otherwise the buffered octets are gone, and nothing has been added.
   */
  function DetachedSpec(r: ResultValue, kind: byte, s: bytes, size: nat, buffered: nat)
    : (d: Outcome<(ResultValue, bytes)>)
    requires buffered <= |s|
    ensures d.Ok? ==> |d.value.1| <= |s|
  {
    if size <= buffered then
      var populated :- Populate(r, kind, s[..size]);
      Ok((populated, s[size..]))
    else Ok((r, s[buffered..]))
  }

  /**
   * For every DataRow and RowDescription message: its row or columns are added, and the
   * stream is left at the next message, exactly if its whole body is buffered.
   */
  lemma DetachedDeliversIff(r: ResultValue, m: Msg, tail: bytes, buffered: nat)
    requires IsData(m.kind) && Populate(r, m.kind, m.body).Ok? && buffered <= |m.body + tail|
    ensures DetachedSpec(r, m.kind, m.body + tail, |m.body|, buffered) == Ok((Populate(r, m.kind, m.body).value, tail))
      <==> |m.body| <= buffered
  {
    hide Populate;
    var s := m.body + tail;
    assert s[..|m.body|] == m.body && s[|m.body|..] == tail;
    assert buffered < |m.body| ==> |s[buffered..]| > |tail|;
  }

  /** A row that is longer than the input buffer is lost, however it is cut into segments. */
  lemma LongRowIsLost(r: ResultValue, m: Msg, tail: bytes, buffered: nat)
    requires m.kind == DATA_ROW && Populate(r, m.kind, m.body).Ok?
    requires |m.body| > 8192 >= buffered
    ensures DetachedSpec(r, m.kind, m.body + tail, |m.body|, buffered).value.0 == r
      != Populate(r, m.kind, m.body).value
  {
    hide ParseRow;
    assert |r.rows + [ParseRow(m.body).value]| > |r.rows|;
  }

  /** One short row, cut after three octets: it is lost, and its value is taken for a header. */
  lemma SplitRowIsLost(tail: bytes)
    requires |tail| >= 1
    ensures var m := Msg(DATA_ROW, [0, 1, 0, 0, 0, 1, 97]);
      && Populate(EMPTY_RESULT, m.kind, m.body) == Ok(EMPTY_RESULT.(rows := [[Some([97])]]))
      && DetachedSpec(EMPTY_RESULT, m.kind, m.body + tail, |m.body|, 3) == Ok((EMPTY_RESULT, [0, 0, 1, 97] + tail))
      && HeaderSpec([0, 0, 1, 97] + tail).Ok? && HeaderSpec([0, 0, 1, 97] + tail).value.kind == 0
  {
    var body: bytes := [0, 1, 0, 0, 0, 1, 97];
    OneCell();
    hide ParseRow;
    assert EMPTY_RESULT.rows + [[Some([97])]] == [[Some([97])]];
    assert (body + tail)[3..] == [0, 0, 1, 97] + tail;
  }

  lemma OneCell()
    ensures ParseRow([0, 1, 0, 0, 0, 1, 97]) == Ok([Some([97])])
  {
    var row: Row := [Some([97])];
    var none: Row := row[1..];
    assert none == [] && CellsOnWire(none, []) == [];
    assert CellsOnWire(row, []) == U32Be(1) + ([97] + []);
    assert U16Be(1) + (U32Be(1) + [97]) == [0, 1, 0, 0, 0, 1, 97];
    assert [97] + [] == [97];
    RowRoundTripIff(row);
    hide ParseRow, CellsOnWire;
  }

  /** The command tag without its final NUL; an empty one cannot be shortened in C++. */
  function TagOf(body: bytes): Outcome<bytes> {
    if body == [] then Throw(OutOfBounds) else Ok(body[..|body| - 1])
  }

  predicate IsData(kind: byte) {
    kind == ROW_DESCRIPTION || kind == DATA_ROW
  }

  predicate IsFailed(kind: byte) {
    kind == EMPTY_QUERY || kind == ERROR_RESPONSE
  }

  predicate IsCompletion(kind: byte) {
    kind == COMMAND_COMPLETE || IsFailed(kind)
  }

  /** What one handled message does to the result in progress. */
  function Absorb(r: ResultValue, m: Msg): Outcome<ResultValue> {
    if m.kind == COMMAND_COMPLETE then
      var tag :- TagOf(m.body);
      Ok(r.(tag := tag, kind := SUCCESS))
    else if IsFailed(m.kind) then Ok(r.(kind := ERROR))
    else if m.kind == PORTAL_SUSPENDED then Ok(r.(kind := SUSPENDED))
    else if IsData(m.kind) then Populate(r, m.kind, m.body)
    else Ok(r)
  }

  /** Only these kinds have their body read or skipped by the loop of `query`. */
  predicate QueryConsumes(kind: byte) {
    IsCompletion(kind) || IsData(kind) || kind == READY_FOR_QUERY
  }

  /** One turn of a message loop: it goes on from the rest of the stream, or it is done. */
  datatype Turn<S, R> = Again(state: S, rest: bytes) | Done(value: R, rest: bytes)

  /** One turn of the loop of `query`; the state is the results completed so far and the one in progress. */
  function QueryTurn(s: bytes, done: seq<ResultValue>, current: ResultValue)
    : (r: Outcome<Turn<(seq<ResultValue>, ResultValue), seq<ResultValue>>>)
    ensures r.Ok? ==> |r.value.rest| < |s|
  {
    var info :- NextInfo(s);
    if !QueryConsumes(info.kind) then Ok(Again((done, current), info.rest))
    else
      var (body, rest) :- TakeSpec(info.rest, info.size, true);
      if info.kind == READY_FOR_QUERY then Ok(Done(done, rest))
      else
        var next :- Absorb(current, Msg(info.kind, body));
        Ok(Again(if IsCompletion(info.kind) then (done + [next], EMPTY_RESULT) else (done, next), rest))
  }

  /** The loop of `query`. */
  function QueryLoop(s: bytes, done: seq<ResultValue>, current: ResultValue): Outcome<(seq<ResultValue>, bytes)>
    decreases |s|
  {
    var turn :- QueryTurn(s, done, current);
    match turn
    case Again((d, c), rest) => QueryLoop(rest, d, c)
    case Done(results, rest) => Ok((results, rest))
  }

  /** Only these kinds have their body read or skipped by the loop of `execute`. */
  predicate ExecuteConsumes(kind: byte) {
    IsCompletion(kind) || IsData(kind)
  }

  /** One turn of the loop of `execute`: it ends with the first result that is not pending. */
  function ExecuteTurn(s: bytes, current: ResultValue): (r: Outcome<Turn<ResultValue, ResultValue>>)
    ensures r.Ok? ==> |r.value.rest| < |s|
  {
    var info :- NextInfo(s);
    if info.kind == PORTAL_SUSPENDED then Ok(Done(current.(kind := SUSPENDED), info.rest))
    else if !ExecuteConsumes(info.kind) then Ok(Again(current, info.rest))
    else
      var (body, rest) :- TakeSpec(info.rest, info.size, true);
      var next :- Absorb(current, Msg(info.kind, body));
      Ok(if IsCompletion(info.kind) then Done(next, rest) else Again(next, rest))
  }

  function ExecuteLoop(s: bytes, current: ResultValue): (r: Outcome<(ResultValue, bytes)>)
    ensures r.Ok? ==> |r.value.1| < |s|
    decreases |s|
  {
    var turn :- ExecuteTurn(s, current);
    match turn
    case Again(next, rest) => ExecuteLoop(rest, next)
    case Done(answer, rest) => Ok((answer, rest))
  }

  /** One turn of the loop of `close_sync`: every message is skipped, up to ReadyForQuery. */
  function SyncTurn(s: bytes): (r: Outcome<Turn<(), ()>>)
    ensures r.Ok? ==> |r.value.rest| < |s|
  {
    var info :- NextInfo(s);
    var (_, rest) :- TakeSpec(info.rest, info.size, true);
    Ok(if info.kind == READY_FOR_QUERY then Done((), rest) else Again((), rest))
  }

  function SyncLoop(s: bytes): Outcome<bytes>
    decreases |s|
  {
    var turn :- SyncTurn(s);
    match turn
    case Again(_, rest) => SyncLoop(rest)
    case Done(_, rest) => Ok(rest)
  }

  // ------------------------------------------------------------ where the bodies lie

  /** The body of a data message: how much of the stream is left where it begins, and its size. */
  datatype DataBody = DataBody(left: nat, size: nat) {
    /** No receive ended just before the body or inside it. */
    ghost predicate Undivided(end: nat, cuts: set<nat>) {
      forall c :: c in cuts ==> !(end <= c + left < end + size)
    }

    /** It lies within what has been received, undivided, and so it will stay. */
    ghost predicate Passed(schedule: Schedule) {
      Undivided(schedule.end, schedule.cuts) && schedule.end + size <= schedule.received + left
    }
  }

  ghost predicate AllUndivided(bodies: seq<DataBody>, end: nat, cuts: set<nat>) {
    forall i :: 0 <= i < |bodies| ==> bodies[i].Undivided(end, cuts)
  }

  function BodyAt(info: Info): seq<DataBody> {
    if IsData(info.kind) then [DataBody(|info.rest|, info.size)] else []
  }

  /** The body that the next header announces, if it is a data message's. */
  function NextBody(s: bytes): (bodies: seq<DataBody>)
    ensures |bodies| <= 1
  {
    match NextInfo(s) case Throw(_) => [] case Ok(info) => BodyAt(info)
  }

  /** Where the loop of `query` goes on after a header; nowhere when it ends. */
  function AfterQueryHeader(info: Info): (r: Option<bytes>)
    ensures r.Some? ==> |r.value| <= |info.rest|
  {
    if !QueryConsumes(info.kind) then Some(info.rest)
    else if info.kind == READY_FOR_QUERY then None
    else match TakeSpec(info.rest, info.size, true) case Throw(_) => None case Ok((_, rest)) => Some(rest)
  }

  /** The bodies of the data messages up to ReadyForQuery, in a stream whose messages are read whole. */
  function QueryBodies(s: bytes): seq<DataBody>
    decreases |s|
  {
    match NextInfo(s)
    case Throw(_) => []
    case Ok(info) =>
      match AfterQueryHeader(info)
      case None => BodyAt(info)
      case Some(rest) => BodyAt(info) + QueryBodies(rest)
  }

  /** Where the loop of `execute` goes on after a header. */
  function AfterExecuteHeader(info: Info): (r: Option<bytes>)
    ensures r.Some? ==> |r.value| <= |info.rest|
  {
    if info.kind == PORTAL_SUSPENDED || IsCompletion(info.kind) then None
    else if !ExecuteConsumes(info.kind) then Some(info.rest)
    else match TakeSpec(info.rest, info.size, true) case Throw(_) => None case Ok((_, rest)) => Some(rest)
  }

  /** The bodies of the data messages of one window. */
  function ExecuteBodies(s: bytes): seq<DataBody>
    decreases |s|
  {
    match NextInfo(s)
    case Throw(_) => []
    case Ok(info) =>
      match AfterExecuteHeader(info)
      case None => BodyAt(info)
      case Some(rest) => BodyAt(info) + ExecuteBodies(rest)
  }

  /** The bodies of the data messages of all the windows up to the end of the portal. */
  function PortalBodies(s: bytes): seq<DataBody>
    decreases |s|
  {
    match ExecuteSpec(s)
    case Throw(_) => ExecuteBodies(s)
    case Ok((_, ready, rest)) => if ready then ExecuteBodies(s) else ExecuteBodies(s) + PortalBodies(rest)
  }

  lemma QueryBodiesTurn(s: bytes, done: seq<ResultValue>, current: ResultValue)
    ensures NextBody(s) <= QueryBodies(s)
    ensures
      var turn := QueryTurn(s, done, current);
      turn.Ok? ==> QueryBodies(s) == NextBody(s) + if turn.value.Done? then [] else QueryBodies(turn.value.rest)
  {
    hide NextInfo, TakeSpec, Absorb;
  }

  lemma ExecuteBodiesTurn(s: bytes, current: ResultValue)
    ensures NextBody(s) <= ExecuteBodies(s)
    ensures
      var turn := ExecuteTurn(s, current);
      turn.Ok? ==> ExecuteBodies(s) == NextBody(s) + if turn.value.Done? then [] else ExecuteBodies(turn.value.rest)
  {
    hide NextInfo, TakeSpec, Absorb;
  }

  lemma PortalBodiesTurn(s: bytes)
    ensures ExecuteBodies(s) <= PortalBodies(s)
    ensures match ExecuteSpec(s)
      case Throw(_) => true
      case Ok((_, ready, rest)) => PortalBodies(s) == ExecuteBodies(s) + if ready then [] else PortalBodies(rest)
  {
    hide ExecuteSpec, ExecuteBodies;
  }

  /** After the first of the bodies that were left. */
  lemma BodiesLeft(bodies: seq<DataBody>, n: nat, first: seq<DataBody>, rest: seq<DataBody>)
    requires n <= |bodies| && bodies[n..] == first + rest
    ensures n + |first| <= |bodies| && bodies[n + |first|..] == rest
  {
    assert |bodies[n..]| == |bodies| - n;
    assert bodies[n + |first|..] == bodies[n..][|first|..];
  }

  /** A data message when its body is read: where it lies, and how much of it is buffered. */
  datatype DataRead = DataRead(body: DataBody, buffered: nat) {
    predicate Whole() {
      body.size <= buffered
    }
  }

  ghost predicate AllWhole(seen: seq<DataRead>) {
    forall i :: 0 <= i < |seen| ==> seen[i].Whole()
  }

  function BodiesOf(seen: seq<DataRead>): (bodies: seq<DataBody>)
    ensures |bodies| == |seen| && forall i :: 0 <= i < |seen| ==> bodies[i] == seen[i].body
  {
    seq(|seen|, i requires 0 <= i < |seen| => seen[i].body)
  }

  /** Up to the first that is not whole, what was seen are the bodies that lie ahead, one by one. */
  ghost predicate Follows(seen: seq<DataRead>, bodies: seq<DataBody>) {
    forall i :: 0 <= i < |seen| && AllWhole(seen[..i]) ==>
      i < |bodies| && seen[i].body == bodies[i] && seen[i].buffered <= SOCKET_BUFFER_SIZE
  }

  lemma WholeJoin(seen: seq<DataRead>, more: seq<DataRead>)
    ensures AllWhole(seen + more) <==> AllWhole(seen) && AllWhole(more)
  {
    hide DataRead.Whole;
    assert forall i :: 0 <= i < |seen| ==> (seen + more)[i] == seen[i];
    assert forall i :: 0 <= i < |more| ==> (seen + more)[|seen| + i] == more[i];
  }

  /**
   * The data messages that were seen while the schedule went from a to b.  They are those
   * that lie ahead.  Either all were whole, and no receive ended before or inside them, or
   * some were not, and then a receive did end before or inside one of those ahead.
   */
  ghost predicate Observed(seen: seq<DataRead>, bodies: seq<DataBody>, a: Schedule, b: Schedule) {
    && Follows(seen, bodies) && a.cuts <= b.cuts
    && if AllWhole(seen)
       then Later(a, b) && |seen| <= |bodies| && forall i :: 0 <= i < |seen| ==> bodies[i].Passed(b)
       else !AllUndivided(bodies, a.end, b.cuts)
  }

  /** One data message, when what was received last was needed to get to its body. */
  lemma OneObserved(read: DataRead, a: Schedule, b: Schedule)
    requires a.received in a.cuts && a.end + read.buffered == a.received + read.body.left
    requires forall c :: c in a.cuts ==> c == a.received || c + read.body.left < a.end
    requires read.buffered <= SOCKET_BUFFER_SIZE && a.cuts <= b.cuts && (read.Whole() ==> Later(a, b))
    ensures Observed([read], [read.body], a, b)
    ensures AllWhole([read]) <==> read.Whole()
  {
    assert AllWhole([read]) <==> [read][0].Whole();
    assert AllUndivided([read.body], a.end, b.cuts) ==> [read.body][0].Undivided(a.end, b.cuts);
  }

  lemma NothingObserved(bodies: seq<DataBody>, a: Schedule, b: Schedule)
    requires Later(a, b)
    ensures Observed([], bodies, a, b) && AllWhole([])
  {
  }

  lemma FollowsJoin(seen: seq<DataRead>, more: seq<DataRead>, bodies: seq<DataBody>, next: seq<DataBody>)
    requires Follows(seen, bodies) && Follows(more, next)
    requires AllWhole(seen) ==> |seen| <= |bodies| && next <= bodies[|seen|..]
    ensures Follows(seen + more, bodies)
  {
    hide AllWhole;
    var both := seen + more;
    forall i | 0 <= i < |both| && AllWhole(both[..i])
      ensures i < |bodies| && both[i].body == bodies[i] && both[i].buffered <= SOCKET_BUFFER_SIZE
    {
      if i < |seen| {
        assert both[..i] == seen[..i];
      } else {
        var j := i - |seen|;
        assert both[..i] == seen + more[..j];
        WholeJoin(seen, more[..j]);
        assert next[j] == bodies[|seen|..][j];
      }
    }
  }

  lemma UndividedEarlier(bodies: seq<DataBody>, from: nat, next: seq<DataBody>, end: nat, b: set<nat>, c: set<nat>)
    requires AllUndivided(bodies, end, c) && b <= c
    ensures AllUndivided(bodies, end, b)
    ensures from <= |bodies| && next <= bodies[from..] ==> AllUndivided(next, end, c)
  {
    if from <= |bodies| && next <= bodies[from..] {
      assert forall i :: 0 <= i < |next| ==> next[i] == bodies[from..][i] == bodies[from + i];
    }
  }

  /** What was seen first, then more: the bodies ahead of these come next among those ahead of all. */
  lemma ObservedJoin(seen: seq<DataRead>, more: seq<DataRead>, bodies: seq<DataBody>, next: seq<DataBody>,
                     a: Schedule, b: Schedule, c: Schedule)
    requires Observed(seen, bodies, a, b) && Observed(more, next, b, c)
    requires AllWhole(seen) ==> next <= bodies[|seen|..]
    ensures Observed(seen + more, bodies, a, c)
    ensures AllWhole(seen + more) <==> AllWhole(seen) && AllWhole(more)
  {
    hide Follows, AllWhole, AllUndivided;
    FollowsJoin(seen, more, bodies, next);
    WholeJoin(seen, more);
    if AllUndivided(bodies, a.end, c.cuts) {
      UndividedEarlier(bodies, |seen|, next, a.end, b.cuts, c.cuts);
    }
    if AllWhole(seen) && AllWhole(more) {
      forall i | 0 <= i < |seen + more| ensures bodies[i].Passed(c) {
        if i >= |seen| {
          assert next[i - |seen|] == bodies[|seen|..][i - |seen|];
        }
      }
    }
  }

  lemma ObservedStill(seen: seq<DataRead>, bodies: seq<DataBody>, a: Schedule, b: Schedule, c: Schedule)
    requires Observed(seen, bodies, a, b) && Later(b, c)
    ensures Observed(seen, bodies, a, c)
  {
    NothingObserved([], b, c);
    ObservedJoin(seen, [], bodies, [], a, b, c);
    assert seen + [] == seen;
  }

  /** The bodies next ahead are seen; those ahead of them are not reached. */
  lemma ObservedAfter(seen: seq<DataRead>, bodies: seq<DataBody>, a: Schedule, b: Schedule, c: Schedule)
    requires Later(a, b) && Observed(seen, bodies, b, c)
    ensures Observed(seen, bodies, a, c)
  {
    NothingObserved(bodies, a, b);
    assert bodies[0..] == bodies;
    ObservedJoin([], seen, bodies, bodies, a, b, c);
    assert [] + seen == seen;
  }

  lemma ObservedIsWhole(seen: seq<DataRead>, bodies: seq<DataBody>, a: Schedule, b: Schedule)
    requires Observed(seen, bodies, a, b)
    ensures AllUndivided(bodies, a.end, b.cuts) ==> AllWhole(seen)
  {
    hide Follows, AllWhole, AllUndivided;
  }

  /** Once all bodies ahead have been seen: all were whole exactly if no receive divided them. */
  lemma WholeIffUndivided(seen: seq<DataRead>, bodies: seq<DataBody>, a: Schedule, b: Schedule)
    requires Observed(seen, bodies, a, b) && (AllWhole(seen) ==> |seen| == |bodies|)
    ensures AllWhole(seen) <==> AllUndivided(bodies, a.end, b.cuts)
  {
    hide Follows, AllWhole;
  }

  /** Without data messages ahead there is nothing that could be lost. */
  lemma NoBodiesAreWhole(seen: seq<DataRead>)
    requires Follows(seen, [])
    ensures seen == [] && AllWhole(seen)
  {
    if seen != [] {
      assert AllWhole(seen[..0]);
    }
  }

  /** A body that is longer than the buffer is not whole when it is reached. */
  lemma LongBodyIsNotWhole(seen: seq<DataRead>, bodies: seq<DataBody>, i: nat)
    requires Follows(seen, bodies) && i < |seen| && i < |bodies| && bodies[i].size > SOCKET_BUFFER_SIZE
    ensures !AllWhole(seen)
  {
    if AllWhole(seen) {
      assert AllWhole(seen[..i]);
    }
  }

  lemma QueryLoopTurn(s: bytes, done: seq<ResultValue>, current: ResultValue)
    ensures match QueryTurn(s, done, current)
      case Throw(e) => QueryLoop(s, done, current) == Throw(e)
      case Ok(turn) =>
        QueryLoop(s, done, current) ==
        if turn.Done? then Ok((turn.value, turn.rest)) else QueryLoop(turn.rest, turn.state.0, turn.state.1)
  {
    hide QueryTurn;
  }

  lemma ExecuteLoopTurn(s: bytes, current: ResultValue)
    ensures match ExecuteTurn(s, current)
      case Throw(e) => ExecuteLoop(s, current) == Throw(e)
      case Ok(turn) =>
        ExecuteLoop(s, current) ==
        if turn.Done? then Ok((turn.value, turn.rest)) else ExecuteLoop(turn.rest, turn.state)
  {
    hide ExecuteTurn;
  }

  lemma SyncLoopTurn(s: bytes)
    ensures match SyncTurn(s)
      case Throw(e) => SyncLoop(s) == Throw(e)
      case Ok(turn) => SyncLoop(s) == if turn.Done? then Ok(turn.rest) else SyncLoop(turn.rest)
  {
    hide SyncTurn;
  }

  /** `execute`: its result, whether the connection is ready again, and the rest of the stream. */
  function ExecuteSpec(s: bytes): (r: Outcome<(ResultValue, bool, bytes)>)
    ensures r.Ok? && !r.value.1 ==> |r.value.2| < |s|
  {
    var (answer, rest) :- ExecuteLoop(s, EMPTY_RESULT);
    if answer.kind == SUSPENDED then Ok((answer, false, rest))
    else
      var after :- SyncLoop(rest);
      Ok((answer, true, after))
  }

  /** A message of a kind that the loops do not know is not skipped: its body is read as messages. */
  lemma UnknownKindIsNotSkipped(m: Msg, tail: bytes, done: seq<ResultValue>, current: ResultValue)
    requires m.Fits()
    ensures m.kind !in {'N' as int, 'C' as int, 'T' as int, 'D' as int, 'I' as int, 'E' as int, 'Z' as int} ==>
      QueryLoop(m.OnWire(tail), done, current) == QueryLoop(m.body + tail, done, current)
    ensures m.kind !in {'N' as int, 'C' as int, 'T' as int, 'D' as int, 'I' as int, 'E' as int, 's' as int} ==>
      ExecuteLoop(m.OnWire(tail), current) == ExecuteLoop(m.body + tail, current)
  {
    hide NextInfo, TakeSpec, Absorb, Msg.OnWire, QueryLoop, ExecuteLoop;
    NextMessage(m, tail);
    QueryLoopTurn(m.OnWire(tail), done, current);
    ExecuteLoopTurn(m.OnWire(tail), current);
  }

  /** The kinds are those of section 55.7 of the documentation. */
  lemma KindsOfMessages()
    ensures COMMAND_COMPLETE == 'C' as int && DATA_ROW == 'D' as int && ROW_DESCRIPTION == 'T' as int
    ensures EMPTY_QUERY == 'I' as int && ERROR_RESPONSE == 'E' as int && READY_FOR_QUERY == 'Z' as int
    ensures PARSE_COMPLETE == '1' as int && BIND_COMPLETE == '2' as int && PORTAL_SUSPENDED == 's' as int
    ensures NOTICE == 'N' as int
  {
  }

  // ------------------------------------------------------------ simple queries

  /** A message that the loop of `query` handles, with a body it can read. */
  ghost predicate QueryHandled(m: Msg) {
    && m.Fits()
    && (m.kind == NOTICE || IsCompletion(m.kind) || IsData(m.kind))
    && Absorb(EMPTY_RESULT, m).Ok?
  }

  function WithoutNotices(ms: seq<Msg>): seq<Msg> {
    if ms == [] then []
    else (if ms[0].kind == NOTICE then [] else [ms[0]]) + WithoutNotices(ms[1..])
  }

  /** The messages up to and with each completion; what follows the last one is no group. */
  function Groups(ms: seq<Msg>, open: seq<Msg>): seq<seq<Msg>> {
    if ms == [] then []
    else if IsCompletion(ms[0].kind) then [open + [ms[0]]] + Groups(ms[1..], [])
    else Groups(ms[1..], open + [ms[0]])
  }

  function RowsIn(m: Msg): seq<Row> {
    if m.kind != DATA_ROW then [] else match ParseRow(m.body) case Ok(row) => [row] case Throw(_) => []
  }

  function ColumnsIn(m: Msg): seq<Column> {
    if m.kind != ROW_DESCRIPTION then [] else match ParseColumns(m.body) case Ok(cs) => cs case Throw(_) => []
  }

  /** The rows of the DataRow messages, in order. */
  function RowsOf(ms: seq<Msg>): seq<Row> {
    if ms == [] then [] else RowsIn(ms[0]) + RowsOf(ms[1..])
  }

  function ColumnsOf(ms: seq<Msg>): seq<Column> {
    if ms == [] then [] else ColumnsIn(ms[0]) + ColumnsOf(ms[1..])
  }

  /** The result that a group of messages stands for. */
  function ResultOf(group: seq<Msg>): ResultValue
    requires group != []
  {
    var last := group[|group| - 1];
    ResultValue(
      if last.kind == COMMAND_COMPLETE && last.body != [] then last.body[..|last.body| - 1] else [],
      ColumnsOf(group), RowsOf(group),
      if last.kind == COMMAND_COMPLETE then SUCCESS else ERROR)
  }

  function ResultsOf(groups: seq<seq<Msg>>): seq<ResultValue>
    requires forall i :: 0 <= i < |groups| ==> groups[i] != []
  {
    if groups == [] then [] else [ResultOf(groups[0])] + ResultsOf(groups[1..])
  }

  lemma {:induction false} GroupsAreNonEmpty(ms: seq<Msg>, open: seq<Msg>)
    ensures forall i :: 0 <= i < |Groups(ms, open)| ==> Groups(ms, open)[i] != []
    ensures forall i :: 0 <= i < |Groups(ms, open)| ==>
      IsCompletion(Groups(ms, open)[i][|Groups(ms, open)[i]| - 1].kind)
    decreases |ms|
  {
    if ms != [] {
      GroupsAreNonEmpty(ms[1..], if IsCompletion(ms[0].kind) then [] else open + [ms[0]]);
    }
  }

  /** The results of the groups, when the messages of an unfinished group came before. */
  function ResultsFrom(ms: seq<Msg>, open: seq<Msg>): seq<ResultValue> {
    GroupsAreNonEmpty(WithoutNotices(ms), open);
    ResultsOf(Groups(WithoutNotices(ms), open))
  }

  /** One result for each completion message, notices or not. */
  function Demux(ms: seq<Msg>): seq<ResultValue> {
    ResultsFrom(ms, [])
  }

  lemma DropHead(m: Msg, rest: seq<Msg>)
    ensures ([m] + rest)[1..] == rest
  {
  }

  lemma ResultsStep(ms: seq<Msg>, open: seq<Msg>)
    requires ms != []
    ensures ResultsFrom(ms, open) ==
      if ms[0].kind == NOTICE then ResultsFrom(ms[1..], open)
      else if IsCompletion(ms[0].kind) then [ResultOf(open + [ms[0]])] + ResultsFrom(ms[1..], [])
      else ResultsFrom(ms[1..], open + [ms[0]])
  {
    hide ResultOf;
    var m, w := ms[0], WithoutNotices(ms[1..]);
    if m.kind == NOTICE {
      assert [] + w == w;
    } else {
      DropHead(m, w);
      if IsCompletion(m.kind) {
        var groups := Groups(w, []);
        GroupsAreNonEmpty(w, []);
        assert ([open + [m]] + groups)[1..] == groups;
      }
    }
  }

  /** The result in progress after the messages of an unfinished group. */
  function OpenResult(open: seq<Msg>): ResultValue {
    ResultValue([], ColumnsOf(open), RowsOf(open), PENDING)
  }

  lemma {:induction false} RowsAppend(ms: seq<Msg>, m: Msg)
    ensures RowsOf(ms + [m]) == RowsOf(ms) + RowsIn(m)
    ensures ColumnsOf(ms + [m]) == ColumnsOf(ms) + ColumnsIn(m)
    decreases |ms|
  {
    hide RowsIn, ColumnsIn;
    if ms == [] {
      assert [] + [m] == [m] && [m][1..] == [];
      assert RowsIn(m) + [] == RowsIn(m) && ColumnsIn(m) + [] == ColumnsIn(m);
    } else {
      assert (ms + [m])[0] == ms[0] && (ms + [m])[1..] == ms[1..] + [m];
      RowsAppend(ms[1..], m);
    }
  }

  lemma AbsorbOpen(open: seq<Msg>, m: Msg)
    requires QueryHandled(m) && m.kind != NOTICE
    ensures IsCompletion(m.kind) ==> Absorb(OpenResult(open), m) == Ok(ResultOf(open + [m]))
    ensures IsData(m.kind) ==> Absorb(OpenResult(open), m) == Ok(OpenResult(open + [m]))
  {
    RowsAppend(open, m);
    hide ParseRow, ParseColumns, RowsOf, ColumnsOf;
    assert (open + [m])[|open + [m]| - 1] == m;
    assert RowsOf(open) + [] == RowsOf(open) && ColumnsOf(open) + [] == ColumnsOf(open);
  }

  /** One turn of the loop of `query` on a message it handles. */
  lemma QueryOnMessage(m: Msg, tail: bytes, done: seq<ResultValue>, current: ResultValue)
    requires m.Fits() && (m.kind == NOTICE || QueryConsumes(m.kind))
    ensures QueryLoop(m.OnWire(tail), done, current) ==
      if m.kind == NOTICE then QueryLoop(tail, done, current)
      else if m.kind == READY_FOR_QUERY then Ok((done, tail))
      else
        var absorbed := Absorb(current, m);
        if absorbed.Throw? then Throw(absorbed.error)
        else if IsCompletion(m.kind) then QueryLoop(tail, done + [absorbed.value], EMPTY_RESULT)
        else QueryLoop(tail, done, absorbed.value)
  {
    hide NextInfo, TakeSpec, Absorb, Msg.OnWire;
    NextMessage(m, tail);
    TakeBody(m, tail);
  }

  lemma {:induction false} QueryFrom(ms: seq<Msg>, ready: Msg, tail: bytes, done: seq<ResultValue>, open: seq<Msg>)
    requires forall i :: 0 <= i < |ms| ==> QueryHandled(ms[i])
    requires ready.kind == READY_FOR_QUERY && ready.Fits()
    ensures QueryLoop(MessagesOnWire(ms + [ready], tail), done, OpenResult(open))
      == Ok((done + ResultsFrom(ms, open), tail))
    decreases |ms|
  {
    hide QueryLoop, Msg.OnWire, ResultOf, OpenResult;
    if ms == [] {
      assert [] + [ready] == [ready] && [ready][1..] == [];
      QueryOnMessage(ready, tail, done, OpenResult(open));
      assert done + [] == done;
    } else {
      var m, rest := ms[0], ms[1..];
      assert (ms + [ready])[0] == m && (ms + [ready])[1..] == rest + [ready];
      assert QueryHandled(m);
      QueryOnMessage(m, MessagesOnWire(rest + [ready], tail), done, OpenResult(open));
      ResultsStep(ms, open);
      hide ResultsFrom, Absorb, QueryHandled;
      if m.kind == NOTICE {
        QueryFrom(rest, ready, tail, done, open);
      } else {
        AbsorbOpen(open, m);
        if IsCompletion(m.kind) {
          var completed := ResultOf(open + [m]);
          QueryFrom(rest, ready, tail, done + [completed], []);
          assert OpenResult([]) == EMPTY_RESULT by { FreshResult(); }
          assert done + ([completed] + ResultsFrom(rest, [])) == (done + [completed]) + ResultsFrom(rest, []);
        } else {
          QueryFrom(rest, ready, tail, done, open + [m]);
        }
      }
    }
  }

  lemma FreshResult()
    ensures OpenResult([]) == EMPTY_RESULT
  {
  }

  /**
   * Simple-query demultiplexing: a stream of handled messages up to ReadyForQuery, with
   * notices anywhere, is consumed exactly, and gives one result for each completion
   * message, holding the rows and columns since the completion before it, in order.
   */
  lemma QueryDemultiplexes(ms: seq<Msg>, ready: Msg, tail: bytes)
    requires forall i :: 0 <= i < |ms| ==> QueryHandled(ms[i])
    requires ready.kind == READY_FOR_QUERY && ready.Fits()
    ensures QueryLoop(MessagesOnWire(ms + [ready], tail), [], EMPTY_RESULT) == Ok((Demux(ms), tail))
  {
    QueryFrom(ms, ready, tail, [], []);
    hide ResultsFrom, QueryLoop, MessagesOnWire;
    assert [] + Demux(ms) == Demux(ms);
  }

  lemma {:induction false} NoticesRemoved(ms: seq<Msg>)
    ensures WithoutNotices(WithoutNotices(ms)) == WithoutNotices(ms)
  {
    if ms != [] {
      NoticesRemoved(ms[1..]);
      var w := WithoutNotices(ms[1..]);
      assert [] + w == w;
      DropHead(ms[0], w);
    }
  }

  function Completions(ms: seq<Msg>): nat {
    if ms == [] then 0 else (if IsCompletion(ms[0].kind) then 1 else 0) + Completions(ms[1..])
  }

  lemma {:induction false} GroupCount(ms: seq<Msg>, open: seq<Msg>)
    ensures |Groups(WithoutNotices(ms), open)| == Completions(ms)
    decreases |ms|
  {
    if ms != [] {
      var m := ms[0];
      if m.kind == NOTICE {
        assert [] + WithoutNotices(ms[1..]) == WithoutNotices(ms[1..]);
        GroupCount(ms[1..], open);
      } else {
        assert ([m] + WithoutNotices(ms[1..]))[1..] == WithoutNotices(ms[1..]);
        GroupCount(ms[1..], if IsCompletion(m.kind) then [] else open + [m]);
      }
    }
  }

  lemma {:induction false} ResultCount(groups: seq<seq<Msg>>)
    requires forall i :: 0 <= i < |groups| ==> groups[i] != []
    ensures |ResultsOf(groups)| == |groups|
  {
    if groups != [] {
      ResultCount(groups[1..]);
    }
  }

  /** Removing the notices gives the same results, and there are as many as completions. */
  lemma DemuxIgnoresNotices(ms: seq<Msg>)
    ensures Demux(WithoutNotices(ms)) == Demux(ms)
    ensures |Demux(ms)| == Completions(ms)
  {
    NoticesRemoved(ms);
    GroupCount(ms, []);
    GroupsAreNonEmpty(WithoutNotices(ms), []);
    ResultCount(Groups(WithoutNotices(ms), []));
  }

  // ------------------------------------------------------------ extended queries

  const PORTAL_SUSPENDED_MSG: Msg := Msg(PORTAL_SUSPENDED, [])

  /** A message that the loop of `execute` passes over or absorbs. */
  ghost predicate ExecuteHandled(m: Msg) {
    && m.Fits()
    && (m.kind == NOTICE
        || ((m.kind == PARSE_COMPLETE || m.kind == BIND_COMPLETE) && m.body == [])
        || (IsData(m.kind) && Absorb(EMPTY_RESULT, m).Ok?))
  }

  /** A message that ends the loop of `execute`. */
  ghost predicate ExecuteEnds(m: Msg) {
    && m.Fits()
    && (m == PORTAL_SUSPENDED_MSG || (IsCompletion(m.kind) && Absorb(EMPTY_RESULT, m).Ok?))
  }

  /** The result of a portal's messages: all their rows and columns, and how they end. */
  function PortalResult(current: ResultValue, ms: seq<Msg>, last: Msg): ResultValue {
    ResultValue(
      if last.kind == COMMAND_COMPLETE && last.body != [] then last.body[..|last.body| - 1] else current.tag,
      current.columns + ColumnsOf(ms), current.rows + RowsOf(ms),
      if last.kind == COMMAND_COMPLETE then SUCCESS
      else if last.kind == PORTAL_SUSPENDED then SUSPENDED else ERROR)
  }

  /** One turn of the loop of `execute`. */
  lemma ExecuteOnMessage(m: Msg, tail: bytes, current: ResultValue)
    requires m.Fits() && (ExecuteHandled(m) || ExecuteEnds(m))
    ensures ExecuteLoop(m.OnWire(tail), current) ==
      if IsData(m.kind) then ExecuteLoop(tail, Absorb(current, m).value)
      else if ExecuteEnds(m) then Ok((Absorb(current, m).value, tail))
      else ExecuteLoop(tail, current)
  {
    hide NextInfo, TakeSpec, Absorb, RowsIn, ColumnsIn, Msg.OnWire;
    NextMessage(m, tail);
    TakeBody(m, tail);
    Unit(tail);
    AbsorbKeepsOutcome(current, m);
    AbsorbSuspended(current);
  }

  lemma AbsorbSuspended(current: ResultValue)
    ensures Absorb(current, PORTAL_SUSPENDED_MSG) == Ok(current.(kind := SUSPENDED))
  {
  }

  /** Whether a message can be absorbed does not depend on the result in progress. */
  lemma AbsorbKeepsOutcome(current: ResultValue, m: Msg)
    ensures Absorb(current, m).Ok? <==> Absorb(EMPTY_RESULT, m).Ok?
    ensures IsData(m.kind) && Absorb(current, m).Ok? ==>
      Absorb(current, m).value == current.(columns := current.columns + ColumnsIn(m), rows := current.rows + RowsIn(m))
  {
    hide ParseRow, ParseColumns;
    assert current.columns + [] == current.columns && current.rows + [] == current.rows;
  }

  /** The result after one more message that the loop passes over or absorbs. */
  function Advanced(current: ResultValue, m: Msg): ResultValue {
    if IsData(m.kind) then current.(columns := current.columns + ColumnsIn(m), rows := current.rows + RowsIn(m))
    else current
  }

  lemma PortalEnd(current: ResultValue, last: Msg)
    requires ExecuteEnds(last)
    ensures PortalResult(current, [], last) == Absorb(current, last).value
  {
    hide ParseRow, ParseColumns;
    assert current.columns + [] == current.columns && current.rows + [] == current.rows;
  }

  lemma FirstRows(ms: seq<Msg>)
    requires ms != []
    ensures RowsOf(ms) == RowsIn(ms[0]) + RowsOf(ms[1..])
    ensures ColumnsOf(ms) == ColumnsIn(ms[0]) + ColumnsOf(ms[1..])
  {
  }

  lemma Reassociate<T>(a: seq<T>, b: seq<T>, c: seq<T>)
    ensures (a + b) + c == a + (b + c) && a + [] == a && [] + c == c
  {
  }

  lemma PortalStep(current: ResultValue, ms: seq<Msg>, last: Msg)
    requires ms != []
    ensures PortalResult(Advanced(current, ms[0]), ms[1..], last) == PortalResult(current, ms, last)
  {
    hide RowsIn, ColumnsIn, RowsOf, ColumnsOf;
    var m, rest := ms[0], ms[1..];
    PassedOver(m);
    FirstRows(ms);
    Reassociate(current.rows, RowsIn(m), RowsOf(rest));
    Reassociate(current.columns, ColumnsIn(m), ColumnsOf(rest));
  }

  lemma {:induction false} ExecuteFrom(ms: seq<Msg>, last: Msg, tail: bytes, current: ResultValue)
    requires forall i :: 0 <= i < |ms| ==> ExecuteHandled(ms[i])
    requires ExecuteEnds(last)
    ensures ExecuteLoop(MessagesOnWire(ms + [last], tail), current) == Ok((PortalResult(current, ms, last), tail))
    decreases |ms|
  {
    hide ExecuteLoop, PortalResult, Absorb, ExecuteHandled, ExecuteEnds, Msg.OnWire, RowsIn, ColumnsIn;
    if ms == [] {
      PortalEnd(current, last);
      assert [] + [last] == [last] && [last][1..] == [];
      EndsOnly(last);
      ExecuteOnMessage(last, tail, current);
    } else {
      var m, rest := ms[0], ms[1..];
      assert (ms + [last])[0] == m && (ms + [last])[1..] == rest + [last];
      PassedOver(m);
      PortalStep(current, ms, last);
      ExecuteOnMessage(m, MessagesOnWire(rest + [last], tail), current);
      AbsorbKeepsOutcome(current, m);
      ExecuteFrom(rest, last, tail, Advanced(current, m));
    }
  }

  lemma EndsOnly(m: Msg)
    requires ExecuteEnds(m)
    ensures m.Fits() && !IsData(m.kind)
  {
  }

  lemma PassedOver(m: Msg)
    ensures !IsData(m.kind) ==> RowsIn(m) == [] && ColumnsIn(m) == []
    ensures ExecuteHandled(m) ==> m.Fits() && !ExecuteEnds(m) && (IsData(m.kind) ==> Absorb(EMPTY_RESULT, m).Ok?)
  {
  }

  /** `close_sync` skips everything up to and with ReadyForQuery. */
  lemma {:induction false} SyncFrom(ms: seq<Msg>, ready: Msg, tail: bytes)
    requires AllFit(ms) && forall i :: 0 <= i < |ms| ==> ms[i].kind != READY_FOR_QUERY
    requires ready.kind == READY_FOR_QUERY && ready.Fits()
    ensures SyncLoop(MessagesOnWire(ms + [ready], tail)) == Ok(tail)
    decreases |ms|
  {
    hide NextInfo, TakeSpec, Msg.OnWire;
    if ms == [] {
      assert [] + [ready] == [ready] && [ready][1..] == [];
      NextMessage(ready, tail);
      TakeBody(ready, tail);
    } else {
      var m, rest := ms[0], ms[1..];
      assert (ms + [ready])[0] == m && (ms + [ready])[1..] == rest + [ready];
      var more := MessagesOnWire(rest + [ready], tail);
      NextMessage(m, more);
      TakeBody(m, more);
      SyncFrom(rest, ready, tail);
      if m.kind == NOTICE {
        SyncSkipsNotice(m, more);
      }
    }
  }

  lemma SyncSkipsNotice(m: Msg, tail: bytes)
    requires m.Fits() && m.kind == NOTICE
    ensures SyncLoop(m.OnWire(tail)) == SyncLoop(tail)
  {
    hide NextInfo, TakeSpec, Msg.OnWire, SyncLoop;
    NextMessage(m, tail);
    SyncLoopTurn(m.OnWire(tail));
    SyncLoopTurn(tail);
  }

  /** Calling `execute` again for as long as the portal is suspended. */
  function ExecuteAll(s: bytes): Outcome<(seq<ResultValue>, bytes)>
    decreases |s|
  {
    var (answer, ready, rest) :- ExecuteSpec(s);
    if ready then Ok(([answer], rest))
    else
      var (more, after) :- ExecuteAll(rest);
      Ok(([answer] + more, after))
  }

  /** Windows of a result set, each ended by PortalSuspended. */
  function WindowsOnWire(windows: seq<seq<Msg>>, tail: bytes): bytes {
    if windows == [] then tail
    else MessagesOnWire(windows[0] + [PORTAL_SUSPENDED_MSG], WindowsOnWire(windows[1..], tail))
  }

  function WindowResults(windows: seq<seq<Msg>>): seq<ResultValue> {
    if windows == [] then []
    else [PortalResult(EMPTY_RESULT, windows[0], PORTAL_SUSPENDED_MSG)] + WindowResults(windows[1..])
  }

  function Joined(windows: seq<seq<Msg>>): seq<Msg> {
    if windows == [] then [] else windows[0] + Joined(windows[1..])
  }

  function AllRows(results: seq<ResultValue>): seq<Row> {
    if results == [] then [] else results[0].rows + AllRows(results[1..])
  }

  ghost predicate WindowsHandled(windows: seq<seq<Msg>>) {
    forall i, j :: 0 <= i < |windows| && 0 <= j < |windows[i]| ==> ExecuteHandled(windows[i][j])
  }

  /** The last answer: its rows, the end of the portal, and the answer to the synchronisation. */
  datatype LastAnswer = LastAnswer(ms: seq<Msg>, completion: Msg, sync: seq<Msg>, ready: Msg) {
    ghost predicate Handled() {
      && (forall i :: 0 <= i < |ms| ==> ExecuteHandled(ms[i]))
      && completion != PORTAL_SUSPENDED_MSG && ExecuteEnds(completion)
      && AllFit(sync) && (forall i :: 0 <= i < |sync| ==> sync[i].kind != READY_FOR_QUERY)
      && ready.kind == READY_FOR_QUERY && ready.Fits()
    }

    function OnWire(tail: bytes): bytes {
      MessagesOnWire(ms + [completion], MessagesOnWire(sync + [ready], tail))
    }
  }

  lemma LastExecute(last: LastAnswer, tail: bytes)
    requires last.Handled()
    ensures ExecuteSpec(last.OnWire(tail)) == Ok((PortalResult(EMPTY_RESULT, last.ms, last.completion), true, tail))
  {
    ExecuteFrom(last.ms, last.completion, MessagesOnWire(last.sync + [last.ready], tail), EMPTY_RESULT);
    SyncFrom(last.sync, last.ready, tail);
    hide ExecuteLoop, SyncLoop, MessagesOnWire;
  }

  /**
   * Extended-query windowing: whatever the split of a result set by PortalSuspended, the
   * calls of `execute` read exactly one window each, every one but the last is suspended
   * and leaves the connection not ready, and the last ends exactly after ReadyForQuery.
   */
  lemma {:induction false} ExecuteReadsWindows(windows: seq<seq<Msg>>, last: LastAnswer, tail: bytes)
    requires WindowsHandled(windows) && last.Handled()
    ensures ExecuteAll(WindowsOnWire(windows, last.OnWire(tail)))
      == Ok((WindowResults(windows) + [PortalResult(EMPTY_RESULT, last.ms, last.completion)], tail))
  {
    hide ExecuteSpec, MessagesOnWire, PortalResult, LastAnswer.OnWire;
    var lastResult := PortalResult(EMPTY_RESULT, last.ms, last.completion);
    if windows == [] {
      LastExecute(last, tail);
      assert [] + [lastResult] == [lastResult];
    } else {
      var more := WindowsOnWire(windows[1..], last.OnWire(tail));
      WindowExecute(windows[0], more);
      assert WindowsHandled(windows[1..]) by {
        forall i, j | 0 <= i < |windows[1..]| && 0 <= j < |windows[1..][i]| ensures ExecuteHandled(windows[1..][i][j]) {
          assert ExecuteHandled(windows[i + 1][j]);
        }
      }
      ExecuteReadsWindows(windows[1..], last, tail);
      var first := PortalResult(EMPTY_RESULT, windows[0], PORTAL_SUSPENDED_MSG);
      assert [first] + (WindowResults(windows[1..]) + [lastResult]) == WindowResults(windows) + [lastResult];
    }
  }

  lemma WindowExecute(window: seq<Msg>, tail: bytes)
    requires forall j :: 0 <= j < |window| ==> ExecuteHandled(window[j])
    ensures ExecuteSpec(MessagesOnWire(window + [PORTAL_SUSPENDED_MSG], tail))
      == Ok((PortalResult(EMPTY_RESULT, window, PORTAL_SUSPENDED_MSG), false, tail))
  {
    ExecuteFrom(window, PORTAL_SUSPENDED_MSG, tail, EMPTY_RESULT);
    hide ExecuteLoop, MessagesOnWire;
  }

  lemma {:induction false} RowsJoin(a: seq<Msg>, b: seq<Msg>)
    ensures RowsOf(a + b) == RowsOf(a) + RowsOf(b)
  {
    hide RowsIn;
    if a == [] {
      assert [] + b == b && [] + RowsOf(b) == RowsOf(b);
    } else {
      assert (a + b)[0] == a[0] && (a + b)[1..] == a[1..] + b;
      RowsJoin(a[1..], b);
      assert RowsIn(a[0]) + (RowsOf(a[1..]) + RowsOf(b)) == (RowsIn(a[0]) + RowsOf(a[1..])) + RowsOf(b);
    }
  }

  lemma {:induction false} WindowsAreSuspended(windows: seq<seq<Msg>>)
    ensures |WindowResults(windows)| == |windows|
    ensures forall i :: 0 <= i < |windows| ==> WindowResults(windows)[i].kind == SUSPENDED
    ensures AllRows(WindowResults(windows)) == RowsOf(Joined(windows))
  {
    if windows != [] {
      var first := PortalResult(EMPTY_RESULT, windows[0], PORTAL_SUSPENDED_MSG);
      assert first.rows == RowsOf(windows[0]) && first.kind == SUSPENDED by {
        assert [] + RowsOf(windows[0]) == RowsOf(windows[0]);
      }
      hide PortalResult, RowsOf;
      WindowsAreSuspended(windows[1..]);
      RowsJoin(windows[0], Joined(windows[1..]));
      assert ([first] + WindowResults(windows[1..]))[1..] == WindowResults(windows[1..]);
    }
  }

  lemma {:induction false} AllRowsAppend(results: seq<ResultValue>, r: ResultValue)
    ensures AllRows(results + [r]) == AllRows(results) + r.rows
  {
    if results == [] {
      assert [] + [r] == [r] && [r][1..] == [] && r.rows + [] == r.rows;
    } else {
      assert (results + [r])[0] == results[0] && (results + [r])[1..] == results[1..] + [r];
      AllRowsAppend(results[1..], r);
      assert results[0].rows + (AllRows(results[1..]) + r.rows) == (results[0].rows + AllRows(results[1..])) + r.rows;
    }
  }

  /** The rows of the windows, put together, are the whole row sequence; all but the last are suspended. */
  lemma WindowRowsJoin(windows: seq<seq<Msg>>, last: LastAnswer)
    requires last.Handled()
    ensures var results := WindowResults(windows) + [PortalResult(EMPTY_RESULT, last.ms, last.completion)];
      && |results| == |windows| + 1
      && AllRows(results) == RowsOf(Joined(windows) + last.ms)
      && forall i :: 0 <= i < |results| ==> (results[i].kind == SUSPENDED <==> i < |windows|)
  {
    var lastResult := PortalResult(EMPTY_RESULT, last.ms, last.completion);
    assert lastResult.rows == RowsOf(last.ms) && lastResult.kind != SUSPENDED by {
      assert [] + RowsOf(last.ms) == RowsOf(last.ms);
    }
    hide *;
    WindowsAreSuspended(windows);
    AllRowsAppend(WindowResults(windows), lastResult);
    RowsJoin(Joined(windows), last.ms);
  }

  // ------------------------------------------------------------ the bodies of an answer

  /** The bodies of the data messages among these, as they lie on the wire. */
  function BodiesOnWire(ms: seq<Msg>, tail: bytes): seq<DataBody> {
    if ms == [] then []
    else
      var (m, rest) := (ms[0], ms[1..]);
      (if IsData(m.kind) then [DataBody(|m.body| + |MessagesOnWire(rest, tail)|, |m.body|)] else [])
      + BodiesOnWire(rest, tail)
  }

  lemma QueryBodiesFirst(s: bytes)
    ensures match NextInfo(s)
      case Throw(_) => QueryBodies(s) == []
      case Ok(info) =>
        QueryBodies(s) ==
        BodyAt(info) + match AfterQueryHeader(info) case None => [] case Some(rest) => QueryBodies(rest)
  {
    hide NextInfo, AfterQueryHeader;
  }

  lemma AfterQueryMessage(m: Msg, tail: bytes)
    requires m.kind != NOTICE && QueryConsumes(m.kind)
    ensures
      var info := Info(m.kind, |m.body|, m.body + tail);
      && AfterQueryHeader(info) == (if m.kind == READY_FOR_QUERY then None else Some(tail))
      && BodyAt(info) == (if IsData(m.kind) then [DataBody(|m.body| + |tail|, |m.body|)] else [])
      && !IsData(READY_FOR_QUERY)
  {
    hide TakeSpec;
    TakeBody(m, tail);
  }

  lemma QueryBodiesOnMessage(m: Msg, tail: bytes)
    requires m.Fits() && (m.kind == NOTICE || QueryConsumes(m.kind))
    ensures QueryBodies(m.OnWire(tail)) ==
      if m.kind == READY_FOR_QUERY then []
      else (if IsData(m.kind) then [DataBody(|m.body| + |tail|, |m.body|)] else []) + QueryBodies(tail)
  {
    hide *;
    NextMessage(m, tail);
    QueryBodiesFirst(m.OnWire(tail));
    if m.kind == NOTICE {
      QueryBodiesFirst(tail);
      PrependNone(QueryBodies(tail));
    } else {
      AfterQueryMessage(m, tail);
    }
  }

  lemma ExecuteKinds(m: Msg)
    ensures ExecuteEnds(m) ==> m.kind == PORTAL_SUSPENDED || IsCompletion(m.kind)
    ensures ExecuteHandled(m) ==>
      !ExecuteEnds(m) && (m.kind == NOTICE || IsData(m.kind)
                          || (m.body == [] && !ExecuteConsumes(m.kind) && m.kind != PORTAL_SUSPENDED))
  {
  }

  lemma ExecuteBodiesFirst(s: bytes)
    ensures match NextInfo(s)
      case Throw(_) => ExecuteBodies(s) == []
      case Ok(info) =>
        ExecuteBodies(s) ==
        BodyAt(info) + match AfterExecuteHeader(info) case None => [] case Some(rest) => ExecuteBodies(rest)
  {
    hide NextInfo, AfterExecuteHeader;
  }

  lemma PrependNone(bodies: seq<DataBody>)
    ensures [] + bodies == bodies && bodies + [] == bodies
    ensures NOTICE != PORTAL_SUSPENDED && NOTICE != READY_FOR_QUERY && !IsCompletion(NOTICE) && !IsData(NOTICE)
  {
  }

  lemma AfterMessage(m: Msg, tail: bytes)
    requires ExecuteHandled(m) || ExecuteEnds(m)
    requires m.kind != NOTICE
    ensures
      var info := Info(m.kind, |m.body|, m.body + tail);
      && AfterExecuteHeader(info) == (if ExecuteEnds(m) then None else Some(tail))
      && BodyAt(info) == (if IsData(m.kind) then [DataBody(|m.body| + |tail|, |m.body|)] else [])
      && (ExecuteEnds(m) ==> !IsData(m.kind))
  {
    hide TakeSpec, ExecuteHandled, ExecuteEnds;
    ExecuteKinds(m);
    TakeBody(m, tail);
    Unit(tail);
  }

  lemma ExecuteBodiesOnMessage(m: Msg, tail: bytes)
    requires m.Fits() && (ExecuteHandled(m) || ExecuteEnds(m))
    ensures ExecuteBodies(m.OnWire(tail)) ==
      if ExecuteEnds(m) then []
      else (if IsData(m.kind) then [DataBody(|m.body| + |tail|, |m.body|)] else []) + ExecuteBodies(tail)
  {
    hide *;
    ExecuteKinds(m);
    NextMessage(m, tail);
    ExecuteBodiesFirst(m.OnWire(tail));
    if m.kind == NOTICE {
      ExecuteBodiesFirst(tail);
      PrependNone(ExecuteBodies(tail));
    } else {
      AfterMessage(m, tail);
    }
  }

  lemma {:induction false} QueryBodiesAre(ms: seq<Msg>, ready: Msg, tail: bytes)
    requires forall i :: 0 <= i < |ms| ==> QueryHandled(ms[i])
    requires ready.kind == READY_FOR_QUERY && ready.Fits()
    ensures QueryBodies(MessagesOnWire(ms + [ready], tail)) == BodiesOnWire(ms + [ready], tail)
  {
    hide QueryBodies, Absorb, Msg.OnWire;
    if ms == [] {
      assert [] + [ready] == [ready] && [ready][1..] == [];
      QueryBodiesOnMessage(ready, tail);
    } else {
      assert (ms + [ready])[0] == ms[0] && (ms + [ready])[1..] == ms[1..] + [ready];
      QueryBodiesOnMessage(ms[0], MessagesOnWire(ms[1..] + [ready], tail));
      QueryBodiesAre(ms[1..], ready, tail);
    }
  }

  lemma {:induction false} ExecuteBodiesAre(ms: seq<Msg>, last: Msg, tail: bytes)
    requires forall i :: 0 <= i < |ms| ==> ExecuteHandled(ms[i])
    requires ExecuteEnds(last)
    ensures ExecuteBodies(MessagesOnWire(ms + [last], tail)) == BodiesOnWire(ms + [last], tail)
  {
    hide ExecuteBodies, Absorb, Msg.OnWire, ExecuteHandled, ExecuteEnds;
    if ms == [] {
      assert [] + [last] == [last] && [last][1..] == [];
      EndsOnly(last);
      ExecuteBodiesOnMessage(last, tail);
    } else {
      assert (ms + [last])[0] == ms[0] && (ms + [last])[1..] == ms[1..] + [last];
      PassedOver(ms[0]);
      ExecuteBodiesOnMessage(ms[0], MessagesOnWire(ms[1..] + [last], tail));
      ExecuteBodiesAre(ms[1..], last, tail);
    }
  }

  /** The bodies of all the windows of a portal. */
  function WindowBodies(windows: seq<seq<Msg>>, last: LastAnswer, tail: bytes): seq<DataBody> {
    if windows == [] then
      BodiesOnWire(last.ms + [last.completion], MessagesOnWire(last.sync + [last.ready], tail))
    else
      BodiesOnWire(windows[0] + [PORTAL_SUSPENDED_MSG], WindowsOnWire(windows[1..], last.OnWire(tail)))
      + WindowBodies(windows[1..], last, tail)
  }

  lemma {:induction false} PortalBodiesAre(windows: seq<seq<Msg>>, last: LastAnswer, tail: bytes)
    requires WindowsHandled(windows) && last.Handled()
    ensures PortalBodies(WindowsOnWire(windows, last.OnWire(tail))) == WindowBodies(windows, last, tail)
  {
    hide ExecuteSpec, MessagesOnWire, PortalResult, ExecuteBodies, BodiesOnWire;
    if windows == [] {
      LastExecute(last, tail);
      ExecuteBodiesAre(last.ms, last.completion, MessagesOnWire(last.sync + [last.ready], tail));
    } else {
      var more := WindowsOnWire(windows[1..], last.OnWire(tail));
      WindowExecute(windows[0], more);
      ExecuteBodiesAre(windows[0], PORTAL_SUSPENDED_MSG, more);
      assert WindowsHandled(windows[1..]) by {
        forall i, j | 0 <= i < |windows[1..]| && 0 <= j < |windows[1..][i]| ensures ExecuteHandled(windows[1..][i][j]) {
          assert ExecuteHandled(windows[i + 1][j]);
        }
      }
      PortalBodiesAre(windows[1..], last, tail);
    }
  }

  /** Every body begins after a header, and ends within the messages. */
  lemma {:induction false} BodiesWithin(ms: seq<Msg>, tail: bytes)
    ensures |tail| <= |MessagesOnWire(ms, tail)|
    ensures forall i :: 0 <= i < |BodiesOnWire(ms, tail)| ==>
      var b := BodiesOnWire(ms, tail)[i];
      |tail| + b.size <= b.left && b.left + HEADER_SIZE <= |MessagesOnWire(ms, tail)|
  {
    if ms != [] {
      BodiesWithin(ms[1..], tail);
    }
  }

  /** All that the stream holds before a certain rest of it arrives in one receive. */
  ghost predicate AtOnce(s: bytes, rest: bytes, end: nat, cuts: set<nat>) {
    forall c :: c in cuts ==> c + |s| <= end || end <= c + |rest|
  }

  /** Messages that arrive in one receive, which the buffer limits to 8192 octets, are not divided. */
  lemma AtOnceIsUndivided(ms: seq<Msg>, tail: bytes, end: nat, cuts: set<nat>)
    requires AtOnce(MessagesOnWire(ms, tail), tail, end, cuts)
    ensures AllUndivided(BodiesOnWire(ms, tail), end, cuts)
  {
    BodiesWithin(ms, tail);
    hide MessagesOnWire, BodiesOnWire;
  }

  /** Each window of a portal arrives in one receive of its own. */
  ghost predicate EachAtOnce(windows: seq<seq<Msg>>, last: LastAnswer, tail: bytes, end: nat, cuts: set<nat>) {
    if windows == [] then AtOnce(last.OnWire(tail), MessagesOnWire(last.sync + [last.ready], tail), end, cuts)
    else
      var rest := WindowsOnWire(windows[1..], last.OnWire(tail));
      && AtOnce(MessagesOnWire(windows[0] + [PORTAL_SUSPENDED_MSG], rest), rest, end, cuts)
      && EachAtOnce(windows[1..], last, tail, end, cuts)
  }

  lemma {:induction false} EachAtOnceIsUndivided(
    windows: seq<seq<Msg>>, last: LastAnswer, tail: bytes, end: nat, cuts: set<nat>)
    requires EachAtOnce(windows, last, tail, end, cuts)
    ensures AllUndivided(WindowBodies(windows, last, tail), end, cuts)
  {
    hide MessagesOnWire, BodiesOnWire, AtOnce;
    if windows == [] {
      AtOnceIsUndivided(last.ms + [last.completion], MessagesOnWire(last.sync + [last.ready], tail), end, cuts);
    } else {
      AtOnceIsUndivided(
        windows[0] + [PORTAL_SUSPENDED_MSG], WindowsOnWire(windows[1..], last.OnWire(tail)), end, cuts);
      EachAtOnceIsUndivided(windows[1..], last, tail, end, cuts);
    }
  }

  /** Without data messages nothing can be lost. */
  lemma {:induction false} NoDataNoBodies(ms: seq<Msg>, tail: bytes)
    ensures BodiesOnWire(ms, tail) == [] <==> forall i :: 0 <= i < |ms| ==> !IsData(ms[i].kind)
  {
    if ms != [] {
      NoDataNoBodies(ms[1..], tail);
      assert forall i :: 0 < i < |ms| ==> ms[i] == ms[1..][i - 1];
    }
  }

  lemma WithoutData(ms: seq<Msg>, ready: Msg, tail: bytes, end: nat, cuts: set<nat>)
    requires ready.kind == READY_FOR_QUERY && forall m :: m in ms ==> !IsData(m.kind)
    ensures AllUndivided(BodiesOnWire(ms + [ready], tail), end, cuts)
  {
    NoDataNoBodies(ms + [ready], tail);
    hide BodiesOnWire;
  }

  /** The body of every data message is among the bodies. */
  lemma {:induction false} BodyOfMessage(ms: seq<Msg>, tail: bytes, i: nat) returns (k: nat)
    requires i < |ms| && IsData(ms[i].kind)
    ensures k < |BodiesOnWire(ms, tail)| && BodiesOnWire(ms, tail)[k].size == |ms[i].body|
  {
    if i == 0 {
      k := 0;
    } else {
      k := BodyOfMessage(ms[1..], tail, i - 1);
      k := k + if IsData(ms[0].kind) then 1 else 0;
    }
  }

  /** An answer that has been read, and has a data message that the buffer cannot hold, was not read whole. */
  lemma LongMessageIsLost(seen: seq<DataRead>, ms: seq<Msg>, tail: bytes, i: nat, a: Schedule, b: Schedule)
    requires Observed(seen, BodiesOnWire(ms, tail), a, b)
    requires AllWhole(seen) ==> |seen| == |BodiesOnWire(ms, tail)|
    requires i < |ms| && IsData(ms[i].kind) && |ms[i].body| > 8192
    ensures !AllWhole(seen)
  {
    var k := BodyOfMessage(ms, tail, i);
    hide BodiesOnWire, AllUndivided;
    if AllWhole(seen) {
      LongBodyIsNotWhole(seen, BodiesOnWire(ms, tail), k);
    }
  }
}
