/** Opening a session: the startup packet, the authentication exchange, and the way to ready. */
module PgStartup {
  import opened Bytes
  import opened Base64
  import opened Scram
  import opened Sockets
  import opened PgWire
  import opened PgProtocol
  import opened PgConnections
  import opened PgReaders

  datatype Config = Config(user: bytes, password: bytes, database: bytes)

  const AUTHENTICATION: byte := 82
  const BACKEND_KEY_DATA: byte := 75
  const PARAMETER_STATUS: byte := 83
  const PASSWORD: byte := 112

  const AUTH_OK: int := 0
  const CLEAR_TEXT_PASSWORD: int := 3
  const SASL: int := 10
  const SASL_CONTINUE: int := 11
  const SASL_FINAL: int := 12

  const POSTGRES_PROTOCOL: int := 0x3_0000
  const SCRAM_SHA256: bytes := Lit("SCRAM-SHA-256")

  /** The parameters of the startup packet, each name and value ended by NUL, and a last NUL. */
  function StartupParams(config: Config): bytes {
    Lit("user") + NULL1 + config.user + NULL1
    + (if config.database == [] then [] else Lit("database") + NULL1 + config.database + NULL1)
    + NULL1
  }

  /** The startup packet has no kind; its length counts itself and the version. */
  function StartupPacket(config: Config): bytes {
    U32Be(8 + |StartupParams(config)|) + U32Be(POSTGRES_PROTOCOL) + StartupParams(config)
  }

  /** What the scram object knows. */
  datatype Login = Login(bare: bytes, clientNonce: bytes, serverFirst: bytes, server: ServerParams, expected: bytes)

  const NEW_LOGIN: Login := Login([], [], [], ServerParams([], [], 0), [])

  predicate Contains(s: bytes, sub: bytes) {
    exists i | 0 <= i <= |s| :: sub <= s[i..]
  }

  function InitialResponse(first: bytes): Msg {
    Msg(PASSWORD, (SCRAM_SHA256 + NULL1) + (U32Be(|first|) + first))
  }

  /** The account, the cryptography, and the nonce that the random source yields. */
  datatype Client = Client(crypto: Crypto, config: Config, nonce: bytes)

  /** `handle_auth` once its octets are read: what the client knows then, and what it sends. */
  function Answer(c: Client, l: Login, kind: int, payload: bytes): Outcome<(Login, seq<Msg>)> {
    if kind == AUTH_OK then Ok((l, []))
    else if kind == CLEAR_TEXT_PASSWORD then Ok((l, [Msg(PASSWORD, c.config.password + NULL1)]))
    else if kind == SASL then
      if !Contains(payload, SCRAM_SHA256) then Throw(UnexpectedResponse)
      else
        var bare := ClientFirstBare(c.config.user, c.nonce);
        Ok((l.(bare := bare, clientNonce := c.nonce), [InitialResponse(GS2_HEADER + bare)]))
    else if kind == SASL_CONTINUE then
      var server :- ResolveSpec(l.clientNonce, payload);
      var salted := c.crypto.hi(c.config.password, server.salt, server.iterations);
      var auth := AuthMessage(l.bare, payload, server.nonce);
      Ok((l.(serverFirst := payload, server := server, expected := ServerFinal(c.crypto, salted, auth)),
          [Msg(PASSWORD, ClientFinal(c.crypto, salted, auth, server.nonce))]))
    else if kind == SASL_FINAL then
      if payload == l.expected then Ok((l, [])) else Throw(UnexpectedResponse)
    else Throw(UnexpectedResponse)
  }

  /** Only the SASL messages have a payload that is read. */
  predicate HasPayload(kind: int) {
    SASL <= kind <= SASL_FINAL
  }

  /** `handle_auth`; a SASL message shorter than its type is undefined in C++. */
  function AuthSpec(c: Client, l: Login, s: bytes, size: nat): (r: Outcome<(Login, seq<Msg>, bytes)>)
    ensures r.Ok? ==> |r.value.2| <= |s|
  {
    var (kind, rest) :- TakeSpec(s, 4, true);
    if !HasPayload(U32(kind)) then
      var (l1, ms) :- Answer(c, l, U32(kind), []);
      Ok((l1, ms, rest))
    else if size < 4 then Throw(OutOfBounds)
    else
      var (payload, after) :- TakeSpec(rest, size - 4, true);
      var (l1, ms) :- Answer(c, l, U32(kind), payload);
      Ok((l1, ms, after))
  }

  datatype Begun = Begun(l: Login, sent: seq<Msg>)

  /** One turn of the loop of `init`. */
  function InitTurn(c: Client, s: bytes, b: Begun): (r: Outcome<Turn<Begun, Begun>>)
    ensures r.Ok? ==> |r.value.rest| < |s|
  {
    var info :- NextInfo(s);
    if info.kind == AUTHENTICATION then
      var (l, ms, rest) :- AuthSpec(c, b.l, info.rest, info.size);
      Ok(Again(Begun(l, b.sent + ms), rest))
    else if info.kind == BACKEND_KEY_DATA || info.kind == PARAMETER_STATUS || info.kind == READY_FOR_QUERY then
      var (_, rest) :- TakeSpec(info.rest, info.size, true);
      Ok(if info.kind == READY_FOR_QUERY then Done(b, rest) else Again(b, rest))
    else Throw(UnexpectedResponse)
  }

  function InitLoop(c: Client, s: bytes, b: Begun): Outcome<(Begun, bytes)>
    decreases |s|
  {
    var turn :- InitTurn(c, s, b);
    match turn
    case Again(next, rest) => InitLoop(c, rest, next)
    case Done(end, rest) => Ok((end, rest))
  }

  // ------------------------------------------------------------ the honest server

  /** An authentication message. */
  function AuthMsg(kind: int, payload: bytes): Msg {
    Msg('R' as int, U32Be(kind) + payload)
  }

  lemma OnAuthentication(c: Client, kind: int, payload: bytes, tail: bytes, b: Begun)
    requires 0 <= kind < WORD32 && AuthMsg(kind, payload).Fits()
    requires !HasPayload(kind) ==> payload == []
    ensures InitTurn(c, AuthMsg(kind, payload).OnWire(tail), b) ==
      match Answer(c, b.l, kind, payload)
      case Throw(e) => Throw(e)
      case Ok((l, ms)) => Ok(Again(Begun(l, b.sent + ms), tail))
  {
    hide NextInfo, Answer, Msg.OnWire, U32, U32Be;
    NextMessage(AuthMsg(kind, payload), tail);
    var body := U32Be(kind) + payload;
    Assoc(U32Be(kind), payload, tail);
    U32RoundTrip(kind, []);
    Unit(U32Be(kind));
    Unit(tail);
    assert (U32Be(kind) + (payload + tail))[..4] == U32Be(kind);
    assert (U32Be(kind) + (payload + tail))[4..] == payload + tail;
    assert (payload + tail)[..|payload|] == payload && (payload + tail)[|payload|..] == tail;
  }

  /** What an honest server sends: the exchange for its nonce, some settings, and ReadyForQuery. */
  datatype Server = Server(
    mechanisms: bytes, nonce: bytes, salt: bytes, iterations: nat, settings: seq<Msg>, ready: Msg)
  {
    function First(clientNonce: bytes): bytes {
      ServerFirst(clientNonce + nonce, salt, iterations)
    }

    function Salted(c: Client): Key {
      c.crypto.hi(c.config.password, salt, iterations)
    }

    function Auth(c: Client): bytes {
      AuthMessage(ClientFirstBare(c.config.user, c.nonce), First(c.nonce), c.nonce + nonce)
    }

    function Final(c: Client): bytes {
      ServerFinal(c.crypto, Salted(c), Auth(c))
    }

    /** It offers the mechanism, extends the client's nonce, and sends what fits. */
    ghost predicate Sound(c: Client) {
      && COMMA !in c.nonce && COMMA !in nonce && iterations <= LONG_MAX && Contains(mechanisms, Lit("SCRAM-SHA-256"))
      && AuthMsg(10, mechanisms).Fits() && AuthMsg(11, First(c.nonce)).Fits()
      && (forall i :: 0 <= i < |settings| ==> IsSetting(settings[i]))
      && ready.kind == 'Z' as int && ready.Fits()
    }

    ghost predicate Honest(c: Client) {
      Sound(c) && AuthMsg(12, Final(c)).Fits()
    }

    /** The whole answer with this final payload, followed by whatever comes later. */
    function OnWireWith(c: Client, final: bytes, tail: bytes): bytes {
      AuthMsg(10, mechanisms).OnWire(
        AuthMsg(11, First(c.nonce)).OnWire(
          AuthMsg(12, final).OnWire(
            AuthMsg(0, []).OnWire(MessagesOnWire(settings + [ready], tail)))))
    }

    function OnWire(c: Client, tail: bytes): bytes {
      OnWireWith(c, Final(c), tail)
    }
  }

  ghost predicate IsSetting(m: Msg) {
    m.Fits() && (m.kind == 'K' as int || m.kind == 'S' as int || m.kind == 'N' as int)
  }

  /** The settings are skipped, up to and with ReadyForQuery. */
  lemma {:induction false} SettingsSkipped(c: Client, settings: seq<Msg>, ready: Msg, tail: bytes, b: Begun)
    requires forall i :: 0 <= i < |settings| ==> IsSetting(settings[i])
    requires ready.kind == READY_FOR_QUERY && ready.Fits()
    ensures InitLoop(c, MessagesOnWire(settings + [ready], tail), b) == Ok((b, tail))
    decreases |settings|
  {
    hide NextInfo, TakeSpec, AuthSpec, Msg.OnWire;
    if settings == [] {
      assert [] + [ready] == [ready] && [ready][1..] == [];
      NextMessage(ready, tail);
      TakeBody(ready, tail);
    } else {
      var m, rest := settings[0], settings[1..];
      assert (settings + [ready])[0] == m && (settings + [ready])[1..] == rest + [ready];
      assert IsSetting(m);
      var more := MessagesOnWire(rest + [ready], tail);
      NextMessage(m, more);
      TakeBody(m, more);
      SettingsSkipped(c, rest, ready, tail, b);
      if m.kind == NOTICE {
        InitSkipsNotice(c, m, more, b);
      }
    }
  }

  lemma InitSkipsNotice(c: Client, m: Msg, tail: bytes, b: Begun)
    requires m.Fits() && m.kind == NOTICE
    ensures InitLoop(c, m.OnWire(tail), b) == InitLoop(c, tail, b)
  {
    hide NextInfo, TakeSpec, AuthSpec, Msg.OnWire, InitLoop;
    NextMessage(m, tail);
    InitLoopTurn(c, m.OnWire(tail), b);
    InitLoopTurn(c, tail, b);
  }

  lemma InitAgain(c: Client, s: bytes, b: Begun)
    requires InitTurn(c, s, b).Ok? && InitTurn(c, s, b).value.Again?
    ensures InitLoop(c, s, b) == InitLoop(c, InitTurn(c, s, b).value.rest, InitTurn(c, s, b).value.state)
  {
    hide InitTurn;
  }

  /** The state after the first two requests. */
  ghost function Challenged(c: Client, server: Server): Begun {
    var nonce := c.nonce + server.nonce;
    var bare := ClientFirstBare(c.config.user, c.nonce);
    var final := ClientFinal(c.crypto, server.Salted(c), server.Auth(c), nonce);
    Begun(
      Login(bare, c.nonce, server.First(c.nonce), ServerParams(nonce, server.salt, server.iterations), server.Final(c)),
      [InitialResponse(GS2_HEADER + bare), Msg(PASSWORD, final)])
  }

  lemma ChallengeAnswered(c: Client, server: Server, rest: bytes)
    requires server.Sound(c)
    ensures
      InitLoop(
        c, AuthMsg(10, server.mechanisms).OnWire(AuthMsg(11, server.First(c.nonce)).OnWire(rest)), Begun(NEW_LOGIN, []))
      == InitLoop(c, rest, Challenged(c, server))
  {
    hide InitLoop, InitTurn, NextInfo, Msg.OnWire, MessagesOnWire, ResolveSpec, ServerFirst, ServerFinal, ClientFinal;
    hide AuthMessage, ClientFirstBare, Contains, EncodeSpec;
    ServerFirstRoundTrip(c.nonce, server.nonce, server.salt, server.iterations);
    var s1 := AuthMsg(SASL_CONTINUE, server.First(c.nonce)).OnWire(rest);
    var s0 := AuthMsg(SASL, server.mechanisms).OnWire(s1);
    var b0 := Begun(NEW_LOGIN, []);
    OnAuthentication(c, SASL, server.mechanisms, s1, b0);
    InitAgain(c, s0, b0);
    var b1 := InitTurn(c, s0, b0).value.state;
    OnAuthentication(c, SASL_CONTINUE, server.First(c.nonce), rest, b1);
    InitAgain(c, s1, b1);
    var b2 := InitTurn(c, s1, b1).value.state;
    assert b2.sent == Challenged(c, server).sent;
  }

  /** AuthenticationOk, the settings and ReadyForQuery end the login. */
  lemma LoginEnds(c: Client, server: Server, tail: bytes, b: Begun)
    requires server.Sound(c)
    ensures
      var settings := MessagesOnWire(server.settings + [server.ready], tail);
      InitLoop(c, AuthMsg(0, []).OnWire(settings), b) == Ok((b, tail))
  {
    hide InitLoop, InitTurn, NextInfo, Msg.OnWire, MessagesOnWire, Contains;
    var settings := MessagesOnWire(server.settings + [server.ready], tail);
    OnAuthentication(c, AUTH_OK, [], settings, b);
    InitAgain(c, AuthMsg(0, []).OnWire(settings), b);
    assert b.sent + [] == b.sent;
    SettingsSkipped(c, server.settings, server.ready, tail, b);
  }

  lemma InitFails(c: Client, s: bytes, b: Begun)
    requires InitTurn(c, s, b).Throw?
    ensures InitLoop(c, s, b) == Throw(InitTurn(c, s, b).error)
  {
    hide InitTurn;
  }

  lemma FinalAnswered(c: Client, server: Server, final: bytes, tail: bytes)
    requires server.Sound(c) && AuthMsg(12, final).Fits()
    ensures InitLoop(c, server.OnWireWith(c, final, tail), Begun(NEW_LOGIN, [])) ==
      if final == server.Final(c) then Ok((Challenged(c, server), tail)) else Throw(UnexpectedResponse)
  {
    hide InitLoop, InitTurn, NextInfo, Msg.OnWire, MessagesOnWire, ResolveSpec, ServerFirst, ServerFinal, ClientFinal;
    hide AuthMessage, ClientFirstBare, Contains, EncodeSpec, Server.Sound;
    var b := Challenged(c, server);
    var s3 := AuthMsg(0, []).OnWire(MessagesOnWire(server.settings + [server.ready], tail));
    var s2 := AuthMsg(12, final).OnWire(s3);
    ChallengeAnswered(c, server, s2);
    OnAuthentication(c, SASL_FINAL, final, s3, b);
    if final == server.Final(c) {
      InitAgain(c, s2, b);
      assert b.sent + [] == b.sent;
      LoginEnds(c, server, tail, b);
    } else {
      InitFails(c, s2, b);
    }
  }

  /**
   * The client checks the server: whatever the final payload, for any hash, keyed hash and
   * key derivation, the login succeeds exactly if the payload is the server's signature of
   * the messages that were exchanged (section 3 of RFC 5802).
   */
  lemma ServerIsChecked(c: Client, server: Server, final: bytes, tail: bytes)
    requires server.Sound(c) && AuthMsg(12, final).Fits()
    ensures
      var nonce := c.nonce + server.nonce;
      var salted := c.crypto.hi(c.config.password, server.salt, server.iterations);
      var signed := ((Lit("n=") + (c.config.user + (Lit(",r=") + c.nonce)))
        + (Lit(",") + (server.First(c.nonce) + (Lit(",") + (Lit("c=biws,r=") + nonce)))));
      var verifier := Lit("v=") + EncodeSpec(c.crypto.hmac(c.crypto.hmac(salted, Lit("Server Key")), signed));
      var run := InitLoop(c, server.OnWireWith(c, final, tail), Begun(NEW_LOGIN, []));
      && (run.Ok? <==> final == verifier)
      && (run.Ok? ==> run.value.1 == tail)
      && (run.Throw? ==> run.error == UnexpectedResponse)
  {
    FinalAnswered(c, server, final, tail);
    assert Lit(",") == [COMMA];
    hide EncodeSpec, InitLoop, Server.OnWireWith, Server.First;
  }

  /**
   * That is so if the server sends the payload at all: AuthenticationOk is believed whenever
   * it comes, and so a server that leaves its signature out is not checked.
   */
  lemma FinalMayBeLeftOut(c: Client, server: Server, tail: bytes)
    requires server.Sound(c)
    ensures
      var accepted := AuthMsg(0, []).OnWire(MessagesOnWire(server.settings + [server.ready], tail));
      var s := AuthMsg(10, server.mechanisms).OnWire(AuthMsg(11, server.First(c.nonce)).OnWire(accepted));
      InitLoop(c, s, Begun(NEW_LOGIN, [])) == Ok((Challenged(c, server), tail))
  {
    hide *;
    ChallengeAnswered(c, server, AuthMsg(0, []).OnWire(MessagesOnWire(server.settings + [server.ready], tail)));
    LoginEnds(c, server, tail, Challenged(c, server));
  }

  /**
   * The honest login, for any hash, keyed hash and key derivation: the exchange over the
   * wire ends with the connection ready exactly after ReadyForQuery, and the client has
   * sent two messages, the second of which the server accepts.
   */
  lemma LoginSucceeds(c: Client, server: Server, tail: bytes)
    requires server.Honest(c)
    ensures var run := InitLoop(c, server.OnWire(c, tail), Begun(NEW_LOGIN, []));
      var nonce := c.nonce + server.nonce;
      var final := ClientFinal(c.crypto, server.Salted(c), server.Auth(c), nonce);
      && run.Ok? && run.value.1 == tail
      && run.value.0.sent
         == [InitialResponse(GS2_HEADER + ClientFirstBare(c.config.user, c.nonce)), Msg(PASSWORD, final)]
      && ServerAccepts(c.crypto, StoredKey(c.crypto, server.Salted(c)), server.Auth(c), nonce, final)
  {
    hide InitLoop, Server.OnWireWith, ServerFirst, ServerFinal, ClientFinal, AuthMessage, ClientFirstBare;
    hide ServerAccepts, Contains;
    ServerAcceptsClient(c.crypto, server.Salted(c), server.Auth(c), c.nonce + server.nonce);
    FinalAnswered(c, server, server.Final(c), tail);
  }

  /** A server that asks for the password in clear gets it, ended by NUL; one that asks for nothing gets nothing. */
  lemma OtherLogins(c: Client, server: Server, tail: bytes)
    requires server.Sound(c)
    ensures
      var accepted := AuthMsg(0, []).OnWire(MessagesOnWire(server.settings + [server.ready], tail));
      && InitLoop(c, accepted, Begun(NEW_LOGIN, [])) == Ok((Begun(NEW_LOGIN, []), tail))
      && InitLoop(c, AuthMsg(3, []).OnWire(accepted), Begun(NEW_LOGIN, []))
         == Ok((Begun(NEW_LOGIN, [Msg('p' as int, c.config.password + [0])]), tail))
  {
    hide InitLoop, InitTurn, NextInfo, Msg.OnWire, MessagesOnWire, Server.Sound;
    var accepted := AuthMsg(0, []).OnWire(MessagesOnWire(server.settings + [server.ready], tail));
    var b := Begun(NEW_LOGIN, []);
    LoginEnds(c, server, tail, b);
    OnAuthentication(c, CLEAR_TEXT_PASSWORD, [], accepted, b);
    InitAgain(c, AuthMsg(3, []).OnWire(accepted), b);
    var answer := Msg('p' as int, c.config.password + [0]);
    assert b.sent + [answer] == [answer];
    LoginEnds(c, server, tail, Begun(NEW_LOGIN, [answer]));
  }

  /**
   * Any other request, an offer without the mechanism, a challenge whose nonce does not
   * extend the client's, and any other message end the login with an error.
   */
  lemma LoginRefused(c: Client, b: Begun, kind: int, payload: bytes, m: Msg, tail: bytes)
    requires 0 <= kind < WORD32 && AuthMsg(kind, payload).Fits() && m.Fits()
    ensures kind !in {0, 3, 10, 11, 12} && payload == [] ==>
      InitLoop(c, AuthMsg(kind, payload).OnWire(tail), b) == Throw(UnexpectedResponse)
    ensures kind == 10 && !Contains(payload, Lit("SCRAM-SHA-256")) ==>
      InitLoop(c, AuthMsg(kind, payload).OnWire(tail), b) == Throw(UnexpectedResponse)
    ensures kind == 11 && (|MessageValues(payload)| != 3 || !(b.l.clientNonce <= MessageValues(payload)[0])) ==>
      InitLoop(c, AuthMsg(kind, payload).OnWire(tail), b) == Throw(BadServerMessage)
    ensures m.kind !in {'R' as int, 'K' as int, 'S' as int, 'Z' as int, 'N' as int} ==>
      InitLoop(c, m.OnWire(tail), b) == Throw(UnexpectedResponse)
  {
    hide InitLoop, NextInfo, Msg.OnWire, Contains, AuthSpec, MessageValues;
    if HasPayload(kind) || payload == [] {
      OnAuthentication(c, kind, payload, tail, b);
      if Answer(c, b.l, kind, payload).Throw? {
        InitFails(c, AuthMsg(kind, payload).OnWire(tail), b);
      }
    }
    if m.kind !in {'R' as int, 'K' as int, 'S' as int, 'Z' as int, 'N' as int} {
      NextMessage(m, tail);
      InitFails(c, m.OnWire(tail), b);
    }
  }

  /** The length of the startup packet counts the packet, when it has 32 bits. */
  lemma StartupPacketFramed(config: Config, rest: bytes)
    ensures var packet := StartupPacket(config);
      && (packet + rest)[|packet|..] == rest
      && (U32(packet + rest) == |packet| <==> |packet| < WORD32)
  {
    hide U32, U32Be, StartupParams;
    var packet := StartupPacket(config);
    var after := U32Be(POSTGRES_PROTOCOL) + StartupParams(config) + rest;
    assert packet + rest == U32Be(8 + |StartupParams(config)|) + after;
    U32RoundTrip(8 + |StartupParams(config)|, after);
  }

  /** The parameters of the startup packet, in the form in which a server reads them. */
  function MeantPairs(config: Config): seq<(bytes, bytes)> {
    [(Lit("user"), config.user)] + if config.database == [] then [] else [(Lit("database"), config.database)]
  }

  /** Pairs as they are printed. */
  function PrintPairs(pairs: seq<(bytes, bytes)>): bytes {
    if pairs == [] then [] + ([0] + [])
    else pairs[0].0 + ([0] + (pairs[0].1 + ([0] + PrintPairs(pairs[1..]))))
  }

  lemma {:induction false} PairsAreRead(pairs: seq<(bytes, bytes)>)
    requires forall i :: 0 <= i < |pairs| ==> pairs[i].0 != [] && 0 !in pairs[i].0 && 0 !in pairs[i].1
    ensures ReadPairs(PrintPairs(pairs)) == Some(pairs)
  {
    hide ReadString;
    if pairs == [] {
      StringIsRead([], []);
    } else {
      var (name, value) := pairs[0];
      StringIsRead(name, value + ([0] + PrintPairs(pairs[1..])));
      StringIsRead(value, PrintPairs(pairs[1..]));
      PairsAreRead(pairs[1..]);
      assert [(name, value)] + pairs[1..] == pairs;
    }
  }

  /** A name and a value, written one after the other. */
  lemma PairIsPrinted(name: bytes, value: bytes, rest: bytes)
    ensures (name + [0] + value + [0]) + rest == name + ([0] + (value + ([0] + rest)))
  {
  }

  lemma FirstPair(name: bytes, value: bytes, pairs: seq<(bytes, bytes)>)
    ensures PrintPairs([(name, value)] + pairs) == name + ([0] + (value + ([0] + PrintPairs(pairs))))
    ensures PrintPairs([]) == [0]
  {
    assert ([(name, value)] + pairs)[1..] == pairs;
  }

  lemma ParamsArePairs(config: Config)
    ensures StartupParams(config) == PrintPairs(MeantPairs(config))
  {
    hide PrintPairs, Lit;
    var user, database := Lit("user"), Lit("database");
    var more: seq<(bytes, bytes)> := if config.database == [] then [] else [(database, config.database)];
    var first := user + NULL1 + config.user + NULL1;
    var second := if config.database == [] then [] else database + NULL1 + config.database + NULL1;
    FirstPair(user, config.user, more);
    PairIsPrinted(user, config.user, PrintPairs(more));
    assert StartupParams(config) == (first + second) + NULL1;
    Assoc(first, second, NULL1);
    if config.database == [] {
      Unit(NULL1);
    } else {
      FirstPair(database, config.database, []);
      PairIsPrinted(database, config.database, [0]);
      assert [(database, config.database)] + [] == more;
    }
  }

  lemma PacketSlices(a: bytes, b: bytes, params: bytes, rest: bytes)
    requires |a| == |b| == 4
    ensures
      var s, n := a + (b + (params + rest)), 8 + |params|;
      s[4..] == b + (params + rest) && s[8..n] == params && s[n..] == rest
    ensures ((a + b) + params) + rest == a + (b + (params + rest))
  {
  }

  lemma StartupFields(a: bytes, b: bytes, params: bytes, rest: bytes, pairs: seq<(bytes, bytes)>)
    requires |a| == |b| == 4 && ReadPairs(params) == Some(pairs)
    requires Word32(a + (b + (params + rest))) == 8 + |params| && Word32(b + (params + rest)) == 3 * 65536
    ensures ReadStartup(a + (b + (params + rest))) == Some((pairs, rest))
  {
    PacketSlices(a, b, params, rest);
    var s, n := a + (b + (params + rest)), 8 + |params|;
    assert |s| == n + |rest| && s[4..] == b + (params + rest) && s[8..n] == params && s[n..] == rest;
    hide ReadPairs, Word32;
  }

  lemma ParamsAreRead(config: Config)
    requires 0 !in config.user && 0 !in config.database
    ensures ReadPairs(StartupParams(config)) == Some(MeantPairs(config))
  {
    hide *;
    ParamsArePairs(config);
    NamesHaveNoNul(config);
    PairsAreRead(MeantPairs(config));
  }

  lemma SmallNumber(n: nat)
    ensures n < WORD32 ==> n % WORD32 == n
  {
  }

  lemma PacketIs(config: Config)
    ensures
      var params := StartupParams(config);
      StartupPacket(config) == (U32Be(8 + |params|) + U32Be(0x3_0000)) + params && 0x3_0000 < WORD32
  {
    hide StartupParams, U32Be;
  }

  /** A server reads the user and, if there is one, the database; and what follows the packet comes after. */
  lemma StartupIsRead(config: Config, rest: bytes)
    requires 0 !in config.user && 0 !in config.database && |StartupPacket(config)| < WORD32
    ensures ReadStartup(StartupPacket(config) + rest) == Some((MeantPairs(config), rest))
  {
    hide *;
    var params, version := StartupParams(config), U32Be(0x3_0000);
    var n := 8 + |params|;
    ParamsAreRead(config);
    PacketIs(config);
    PacketSlices(U32Be(n), version, params, rest);
    WordIsRead(n, version + (params + rest));
    WordIsRead(0x3_0000, params + rest);
    SmallNumber(n);
    SmallNumber(0x3_0000);
    StartupFields(U32Be(n), version, params, rest, MeantPairs(config));
  }

  lemma NamesHaveNoNul(config: Config)
    requires 0 !in config.user && 0 !in config.database
    ensures var pairs := MeantPairs(config);
      forall i :: 0 <= i < |pairs| ==> pairs[i].0 != [] && 0 !in pairs[i].0 && 0 !in pairs[i].1
  {
  }

  /** A server reads the mechanism and the client's first message: section 55.3.1 of the documentation. */
  lemma InitialResponseIsRead(c: Client)
    requires InitialResponse(GS2_HEADER + ClientFirstBare(c.config.user, c.nonce)).Fits()
    ensures
      var m := InitialResponse(GS2_HEADER + ClientFirstBare(c.config.user, c.nonce));
      && ReadRequest(m.kind, m.body) == Some(PasswordMessage(m.body))
      && ReadInitialResponse(m.body)
         == Some((Lit("SCRAM-SHA-256"), Lit("n,,") + (Lit("n=") + (c.config.user + (Lit(",r=") + c.nonce)))))
  {
    var first := GS2_HEADER + ClientFirstBare(c.config.user, c.nonce);
    MechanismHasNoNul();
    FirstMessageIs(c.config.user, c.nonce);
    hide Lit, U32Be, Word32, ReadString, ClientFirstBare;
    assert InitialResponse(first).body == SCRAM_SHA256 + ([0] + (U32Be(|first|) + first));
    StringIsRead(SCRAM_SHA256, U32Be(|first|) + first);
    WordIsRead(|first|, first);
  }

  lemma FirstMessageIs(user: bytes, nonce: bytes)
    ensures GS2_HEADER + ClientFirstBare(user, nonce) == Lit("n,,") + (Lit("n=") + (user + (Lit(",r=") + nonce)))
  {
    hide Lit;
  }

  lemma MechanismHasNoNul()
    ensures 0 !in SCRAM_SHA256
  {
  }

  /** The password messages that these are. */
  function Passwords(ms: seq<Msg>): (rs: seq<Request>)
    ensures |rs| == |ms|
  {
    seq(|ms|, i requires 0 <= i < |ms| => PasswordMessage(ms[i].body))
  }

  ghost predicate AllPasswords(ms: seq<Msg>) {
    forall i :: 0 <= i < |ms| ==> ms[i].kind == 'p' as int
  }

  /** The client sends nothing but password messages until it is ready. */
  lemma {:induction false} OnlyPasswords(c: Client, s: bytes, b: Begun)
    requires AllPasswords(b.sent)
    ensures InitLoop(c, s, b).Ok? ==> AllPasswords(InitLoop(c, s, b).value.0.sent)
    decreases |s|
  {
    hide NextInfo, TakeSpec, Contains, ResolveSpec, ClientFinal, ServerFinal, AuthMessage;
    if InitTurn(c, s, b).Ok? && InitTurn(c, s, b).value.Again? {
      OnlyPasswords(c, InitTurn(c, s, b).value.rest, InitTurn(c, s, b).value.state);
    }
  }

  lemma PasswordsAreRead(ms: seq<Msg>)
    requires AllPasswords(ms)
    ensures AllRead(ms, Passwords(ms))
  {
  }

  // ------------------------------------------------------------ the methods

  ghost predicate Knows(scr: ScramClient, l: Login)
    reads scr
  {
    && scr.clientFirstBare == l.bare && scr.clientNonce == l.clientNonce && scr.serverFirst == l.serverFirst
    && ServerParams(scr.serverNonce, scr.salt, scr.iterations) == l.server && scr.expectedServerFinal == l.expected
  }

  /** A password message whose body is written in one piece. */
  method SendPassword(sock: Socket, body: bytes) returns (r: Outcome<()>)
    requires sock.Valid()
    modifies sock.Repr()
    ensures sock.Valid() && sock.Incoming() == old(sock.Incoming())
    ensures r.Throw? ==> r.error == IoError
    ensures r.Ok? ==> sock.Outgoing() == old(sock.Outgoing()) + MessagesOnWire([Msg(PASSWORD, body)], [])
  {
    hide Socket.Valid, Socket.Incoming, Socket.Outgoing, Header, Msg.OnWire, MessagesOnWire;
    var w :- sock.Write(Header(PASSWORD, |body|));
    w :- sock.Write(body);
    HeaderThenBody(Msg(PASSWORD, body), old(sock.Outgoing()), |body|);
    TwoMessages([], Msg(PASSWORD, body), Msg(PASSWORD, body));
    w :- sock.Flush();
    return Ok(());
  }

  method SendInitialResponse(sock: Socket, first: bytes) returns (r: Outcome<()>)
    requires sock.Valid()
    modifies sock.Repr()
    ensures sock.Valid() && sock.Incoming() == old(sock.Incoming())
    ensures r.Throw? ==> r.error == IoError
    ensures r.Ok? ==> sock.Outgoing() == old(sock.Outgoing()) + MessagesOnWire([InitialResponse(first)], [])
  {
    hide Socket.Valid, Socket.Incoming, Socket.Outgoing, Header, Msg.OnWire, MessagesOnWire, U32Be;
    var name := SCRAM_SHA256 + NULL1;
    var size := |name| + 4 + |first|;
    var w :- sock.Write(Header(PASSWORD, size));
    ghost var sent := sock.Outgoing();
    w :- sock.Write(name);
    w :- sock.Write(U32Be(|first|));
    w :- sock.Write(first);
    ThreePieces(sent, name, U32Be(|first|), first);
    HeaderThenBody(InitialResponse(first), old(sock.Outgoing()), size);
    TwoMessages([], InitialResponse(first), InitialResponse(first));
    w :- sock.Flush();
    return Ok(());
  }

  /** `handle_auth`, once its octets are read. */
  method Respond(sock: Socket, c: Client, scr: ScramClient, kind: int, payload: bytes, ghost l: Login)
    returns (r: Outcome<()>)
    requires sock.Valid() && Knows(scr, l) && scr.crypto == c.crypto
    modifies sock.Repr(), scr
    ensures sock.Valid() && sock.Incoming() == old(sock.Incoming())
    ensures r == Throw(IoError) ||
      match Answer(c, l, kind, payload)
      case Throw(e) => r == Throw(e)
      case Ok((l1, ms)) =>
        r.Ok? && Knows(scr, l1) && sock.Outgoing() == old(sock.Outgoing()) + MessagesOnWire(ms, [])
  {
    hide Socket.Valid, Socket.Incoming, Socket.Outgoing, MessagesOnWire, Contains, ResolveSpec, AuthMessage;
    hide ClientFinal, ServerFinal, ClientFirstBare, InitialResponse;
    NoMessages(sock.Outgoing());
    if kind == AUTH_OK {
      return Ok(());
    } else if kind == CLEAR_TEXT_PASSWORD {
      r := SendPassword(sock, c.config.password + NULL1);
    } else if kind == SASL {
      if !Contains(payload, SCRAM_SHA256) {
        return Throw(UnexpectedResponse);
      }
      var first := scr.GenerateClientFirstMsg(c.config.user, c.nonce);
      r := SendInitialResponse(sock, first);
    } else if kind == SASL_CONTINUE {
      var resolved := scr.ResolveServerFirstMsg(payload);
      if resolved.Throw? {
        return resolved;
      }
      var final := scr.GenerateClientFinalMsg(c.config.password);
      r := SendPassword(sock, final);
    } else if kind == SASL_FINAL {
      var ok := scr.VerifyServerFinalMsg(payload);
      return if ok then Ok(()) else Throw(UnexpectedResponse);
    } else {
      return Throw(UnexpectedResponse);
    }
  }

  /** `handle_auth`. */
  method HandleAuth(sock: Socket, c: Client, scr: ScramClient, size: nat, ghost l: Login) returns (r: Outcome<()>)
    requires sock.Valid() && Knows(scr, l) && scr.crypto == c.crypto
    modifies sock.Repr(), scr
    ensures sock.Valid()
    ensures r == Throw(IoError) ||
      match AuthSpec(c, l, old(sock.Incoming()), size)
      case Throw(e) => r == Throw(e)
      case Ok((l1, ms, rest)) =>
        && r.Ok? && Knows(scr, l1) && sock.Incoming() == rest
        && sock.Outgoing() == old(sock.Outgoing()) + MessagesOnWire(ms, [])
  {
    hide Socket.Valid, Socket.Incoming, Socket.Outgoing, MessagesOnWire, Answer, U32, TakeSpec, Knows;
    var kind := sock.Read(4, true);
    if kind.Throw? {
      return Throw(kind.error);
    }
    FourOctets(old(sock.Incoming()));
    var payload: bytes := [];
    if HasPayload(U32(kind.value)) {
      if size < 4 {
        return Throw(OutOfBounds);
      }
      var read := sock.Read(size - 4, true);
      if read.Throw? {
        return Throw(read.error);
      }
      payload := read.value;
    }
    r := Respond(sock, c, scr, U32(kind.value), payload, l);
  }

  lemma FourOctets(s: bytes)
    ensures TakeSpec(s, 4, true).Ok? ==> |TakeSpec(s, 4, true).value.0| == 4
  {
  }

  /** `init`: the packet, the exchange, and exactly the answers that the stream determines. */
  method Init(conn: PgConnection, c: Client) returns (r: Outcome<()>)
    requires conn.sock.Valid()
    modifies conn, conn.sock.Repr()
    ensures conn.sock.Valid()
    ensures old(conn.queryReady) && r != Throw(IoError) ==>
      && r.Ok? && conn.queryReady && conn.sock.Incoming() == old(conn.sock.Incoming())
      && conn.sock.Outgoing() == old(conn.sock.Outgoing()) + StartupPacket(c.config)
    ensures old(conn.queryReady) || r == Throw(IoError) ||
      match InitLoop(c, old(conn.sock.Incoming()), Begun(NEW_LOGIN, []))
      case Throw(e) => r == Throw(e) && !conn.queryReady
      case Ok((b, rest)) =>
        && r.Ok? && conn.queryReady && conn.sock.Incoming() == rest
        && conn.sock.Outgoing() == old(conn.sock.Outgoing()) + (StartupPacket(c.config) + MessagesOnWire(b.sent, []))
  {
    hide Socket.Valid, Socket.Incoming, Socket.Outgoing, MessagesOnWire, InitLoop, NextInfo, TakeSpec, AuthSpec;
    hide StartupParams, StartupPacket, Knows, U32Be;
    var sock := conn.sock;
    var w := SendStartup(sock, c.config);
    if w.Throw? {
      return w;
    }
    var scr := new ScramClient(c.crypto);
    ghost var b := Begun(NEW_LOGIN, []);
    NewLogin(scr);
    ghost var s, sent := sock.Incoming(), sock.Outgoing();
    NoMessages(sent);
    while !conn.queryReady
      invariant sock.Valid() && Knows(scr, b.l) && sock.Outgoing() == sent + MessagesOnWire(b.sent, [])
      invariant old(conn.queryReady) ==> conn.queryReady && sock.Incoming() == s && b.sent == []
      invariant !old(conn.queryReady) ==>
        InitLoop(c, s, Begun(NEW_LOGIN, [])) ==
        if conn.queryReady then Ok((b, sock.Incoming())) else InitLoop(c, sock.Incoming(), b)
      decreases !conn.queryReady, |sock.Incoming()|
    {
      InitLoopTurn(c, sock.Incoming(), b);
      var info := conn.GetResponseInfo();
      if info.Throw? {
        return Throw(info.error);
      }
      var kind: byte := info.value.0;
      var size: nat := info.value.1;
      if kind == AUTHENTICATION {
        ghost var answer := AuthSpec(c, b.l, sock.Incoming(), size);
        var handled := HandleAuth(sock, c, scr, size, b.l);
        if handled.Throw? {
          return handled;
        }
        MoreSent(sent, b.sent, answer.value.1);
        b := Begun(answer.value.0, b.sent + answer.value.1);
      } else if kind == BACKEND_KEY_DATA || kind == PARAMETER_STATUS || kind == READY_FOR_QUERY {
        var skipped := sock.Skip(size, true);
        if skipped.Throw? {
          return Throw(skipped.error);
        }
        if kind == READY_FOR_QUERY {
          conn.queryReady := true;
        }
      } else {
        return Throw(UnexpectedResponse);
      }
    }
    Assoc(old(sock.Outgoing()), StartupPacket(c.config), MessagesOnWire(b.sent, []));
    NoMessages(sent);
    return Ok(());
  }

  method SendStartup(sock: Socket, config: Config) returns (r: Outcome<()>)
    requires sock.Valid()
    modifies sock.Repr()
    ensures sock.Valid() && sock.Incoming() == old(sock.Incoming())
    ensures r.Throw? ==> r.error == IoError
    ensures r.Ok? ==> sock.Outgoing() == old(sock.Outgoing()) + StartupPacket(config)
  {
    hide Socket.Valid, Socket.Incoming, Socket.Outgoing, U32Be;
    var message := Lit("user") + NULL1;
    message := message + config.user;
    message := message + NULL1;
    if config.database != [] {
      message := message + (Lit("database") + NULL1 + config.database + NULL1);
    } else {
      Unit(message);
    }
    message := message + NULL1;
    assert message == StartupParams(config);
    hide StartupParams;
    var header := U32Be(8 + |message|) + U32Be(POSTGRES_PROTOCOL);
    var w :- sock.Write(header);
    w :- sock.Write(message);
    Assoc(old(sock.Outgoing()), header, message);
    w :- sock.Flush();
    return Ok(());
  }

  lemma NewLogin(scr: ScramClient)
    requires scr.clientFirstBare == scr.clientNonce == scr.serverFirst == scr.serverNonce == scr.salt == []
    requires scr.iterations == 0 && scr.expectedServerFinal == []
    ensures Knows(scr, NEW_LOGIN)
  {
  }

  lemma InitLoopTurn(c: Client, s: bytes, b: Begun)
    ensures match InitTurn(c, s, b)
      case Throw(e) => InitLoop(c, s, b) == Throw(e)
      case Ok(turn) =>
        InitLoop(c, s, b) == if turn.Done? then Ok((turn.value, turn.rest)) else InitLoop(c, turn.rest, turn.state)
  {
    hide InitTurn;
  }

  lemma MoreSent(s: bytes, ms: seq<Msg>, more: seq<Msg>)
    ensures (s + MessagesOnWire(ms, [])) + MessagesOnWire(more, []) == s + MessagesOnWire(ms + more, [])
  {
    hide MessagesOnWire;
    MessagesAppend(ms, more, []);
    MessagesTail(ms, MessagesOnWire(more, []));
    Assoc(s, MessagesOnWire(ms, []), MessagesOnWire(more, []));
  }

  /**
   * A connection from its first octet on: the startup packet, then messages only.  What
   * follows the packet is cut back into the password messages and the calls' messages, and
   * is read by a server as the passwords and then what the calls ask for.
   */
  method ConnectAndCall(conn: PgConnection, c: Client, calls: seq<Call>)
    returns (r: Outcome<()>, endings: seq<Ending>, ghost sent: seq<Msg>)
    requires conn.sock.Valid() && !conn.queryReady && conn.sock.Outgoing() == []
    modifies conn, conn.sock.Repr()
    ensures conn.sock.Valid()
    ensures r.Ok? ==> SessionEnds(true, calls, endings) && conn.queryReady == ReadyAfter(true, calls, endings)
    ensures r.Ok? ==>
      var login := InitLoop(c, old(conn.sock.Incoming()), Begun(NEW_LOGIN, []));
      login.Ok? && sent == login.value.0.sent
    ensures r.Ok? ==>
      var packet, ms := StartupPacket(c.config), sent + SessionMessages(calls, endings);
      && conn.sock.Outgoing() == packet + MessagesOnWire(ms, [])
      && (AllFit(ms) ==> Deframe(conn.sock.Outgoing()[|packet|..]) == Some(ms))
      && (AllFit(ms) && (forall i :: 0 <= i < |calls| ==> Sayable(calls[i])) ==>
            ReadSession(conn.sock.Outgoing()[|packet|..]) == Some(Passwords(sent) + SessionRequests(calls, endings)))
  {
    hide Socket.Valid, Socket.Incoming, Socket.Outgoing, MessagesOnWire, InitLoop, StartupPacket, Deframe, AllFit;
    hide SessionMessages, CallMessages, SessionRequests, Sayable, ReadSession, AllRead, AllPasswords, Passwords;
    sent, endings := [], [];
    ghost var s := conn.sock.Incoming();
    r := Init(conn, c);
    if r.Throw? {
      return;
    }
    sent := InitLoop(c, s, Begun(NEW_LOGIN, [])).value.0.sent;
    ghost var packet := StartupPacket(c.config);
    Unit(packet + MessagesOnWire(sent, []));
    r, endings := Session(conn, calls);
    if r.Ok? {
      ghost var ms := sent + SessionMessages(calls, endings);
      Assoc(packet, MessagesOnWire(sent, []), MessagesOnWire(SessionMessages(calls, endings), []));
      MoreSent(packet, sent, SessionMessages(calls, endings));
      assert conn.sock.Outgoing()[|packet|..] == MessagesOnWire(ms, []);
      if AllFit(ms) {
        DeframeRoundTrip(ms);
        if forall i :: 0 <= i < |calls| ==> Sayable(calls[i]) {
          CallsAreRead(calls, endings);
          NoPasswords();
          OnlyPasswords(c, s, Begun(NEW_LOGIN, []));
          PasswordsAreRead(sent);
          AllReadAppend(sent, Passwords(sent), SessionMessages(calls, endings), SessionRequests(calls, endings));
          SessionIsRead(ms, Passwords(sent) + SessionRequests(calls, endings));
        }
      }
    }
  }

  lemma NoPasswords()
    ensures AllPasswords([])
  {
  }
}
