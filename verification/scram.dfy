/** The client side of SCRAM-SHA-256 (section 3 of RFC 5802, and RFC 7677). */
module Scram {
  import opened Bytes
  import opened Base64

  const COMMA: byte := 44

  // ------------------------------------------------------------ keys

  const KEY_OCTETS: nat := 32

  /** `key_buffer`. */
  type Key = k: bytes | |k| == KEY_OCTETS witness seq(KEY_OCTETS, _ => 0)

  /** The cryptography is any functions of these types. */
  datatype Crypto = Crypto(hi: (bytes, bytes, int) -> Key, hmac: (Key, bytes) -> Key, h: Key -> Key)

  /** Exclusive or of the low n bits, bit by bit. */
  function XorBits(a: nat, b: nat, n: nat): (x: nat)
    ensures x < Pow2(n)
  {
    if n == 0 then 0 else 2 * XorBits(a / 2, b / 2, n - 1) + (a % 2 + b % 2) % 2
  }

  lemma HalfAndBit(half: nat, bit: nat)
    requires bit < 2
    ensures (2 * half + bit) / 2 == half && (2 * half + bit) % 2 == bit
  {
  }

  lemma HalfOfShift(x: nat, k: nat)
    requires k > 0
    ensures x / Pow2(k) == (x / 2) / Pow2(k - 1)
  {
    var p := Pow2(k - 1);
    hide Pow2;
    var h, r := x / 2, x % 2;
    var q, s := h / p, h % p;
    var a, b := x / (2 * p), x % (2 * p);
    assert h == q * p + s;
    Associate(2, q, p);
    Associate(q, 2, p);
    Quotients(q, 2 * s + r, a, b, 2 * p, q * (2 * p), a * (2 * p));
  }

  /** Bit by bit: a bit is set in the result exactly if it is set in one of the two. */
  lemma {:induction false} XorBitsAt(a: nat, b: nat, n: nat, k: nat)
    requires k < n
    ensures XorBits(a, b, n) / Pow2(k) % 2 == if a / Pow2(k) % 2 == b / Pow2(k) % 2 then 0 else 1
  {
    var half, bit := XorBits(a / 2, b / 2, n - 1), (a % 2 + b % 2) % 2;
    HalfAndBit(half, bit);
    assert XorBits(a, b, n) == 2 * half + bit && Pow2(0) == 1;
    hide Pow2, XorBits;
    if k > 0 {
      XorBitsAt(a / 2, b / 2, n - 1, k - 1);
      HalfOfShift(a, k);
      HalfOfShift(b, k);
      HalfOfShift(XorBits(a, b, n), k);
    }
  }

  /** Octet by octet and bit by bit, this is the exclusive or. */
  lemma XorIsBitwise(a: Key, b: Key, i: nat, k: nat)
    requires i < KEY_OCTETS && k < 8
    ensures Xor(a, b)[i] as int / Pow2(k) % 2
      == if a[i] as int / Pow2(k) % 2 == b[i] as int / Pow2(k) % 2 then 0 else 1
  {
    XorBitsAt(a[i], b[i], 8, k);
  }

  lemma {:induction false} XorBitsUndoes(a: nat, b: nat, n: nat)
    requires a < Pow2(n)
    ensures XorBits(XorBits(a, b, n), b, n) == a
  {
    if n > 0 {
      var half, bit := XorBits(a / 2, b / 2, n - 1), (a % 2 + b % 2) % 2;
      XorStep(a, b, n);
      XorStep(2 * half + bit, b, n);
      HalfAndBit(half, bit);
      hide XorBits;
      XorBitsUndoes(a / 2, b / 2, n - 1);
      hide Pow2;
      SameParity(a, b);
    }
  }

  lemma XorStep(a: nat, b: nat, n: nat)
    requires n > 0
    ensures XorBits(a, b, n) == 2 * XorBits(a / 2, b / 2, n - 1) + (a % 2 + b % 2) % 2
  {
  }

  lemma SameParity(a: nat, b: nat)
    ensures ((a % 2 + b % 2) % 2 + b % 2) % 2 == a % 2 && a == 2 * (a / 2) + a % 2
  {
  }

  function XorByte(a: byte, b: byte): byte {
    assert Pow2(4) == 16;
    assert Pow2(8) == 256;
    XorBits(a, b, 8)
  }

  function Xor(a: Key, b: Key): (k: Key)
    ensures forall i :: 0 <= i < KEY_OCTETS ==> k[i] == XorByte(a[i], b[i])
  {
    seq(KEY_OCTETS, i requires 0 <= i < KEY_OCTETS => XorByte(a[i], b[i]))
  }

  lemma XorUndoes(a: Key, b: Key)
    ensures Xor(Xor(a, b), b) == a
  {
    forall i | 0 <= i < KEY_OCTETS ensures Xor(Xor(a, b), b)[i] == a[i] {
      assert Pow2(4) == 16;
      assert Pow2(8) == 256;
      XorBitsUndoes(a[i], b[i], 8);
    }
  }

  // ------------------------------------------------------------ messages

  const GS2_HEADER: bytes := Lit("n,,")
  const NAME_ATTR: bytes := Lit("n=")
  const NONCE_ATTR: bytes := Lit("r=")
  const COMMA_NONCE: bytes := Lit(",r=")
  const COMMA_SALT: bytes := Lit(",s=")
  const COMMA_ITERATIONS: bytes := Lit(",i=")
  const COMMA_PROOF: bytes := Lit(",p=")
  const CHANNEL_NONCE: bytes := Lit("c=biws,r=")
  const VERIFIER: bytes := Lit("v=")
  const CLIENT_KEY: bytes := Lit("Client Key")
  const SERVER_KEY: bytes := Lit("Server Key")

  function ClientFirstBare(user: bytes, nonce: bytes): bytes {
    NAME_ATTR + (user + (COMMA_NONCE + nonce))
  }

  /** What a server prints as its first message. */
  function ServerFirst(nonce: bytes, salt: bytes, iterations: nat): bytes {
    NONCE_ATTR + (nonce + (COMMA_SALT + (EncodeSpec(salt) + (COMMA_ITERATIONS + NatToChars(iterations, 10)))))
  }

  /** The values between commas, each after the first with its two-character label skipped. */
  function Values(s: bytes): seq<bytes>
    decreases |s|
  {
    var k := IndexOf(s, COMMA);
    [s[..k]] + (if k + 3 <= |s| then Values(s[k + 3..]) else [])
  }

  function MessageValues(msg: bytes): seq<bytes> {
    if |msg| < 2 then [] else Values(msg[2..])
  }

  /** A C++ `char` as a number: it is signed. */
  function SignedChar(c: byte): int {
    if c < 128 then c else c - 256
  }

  predicate IsLong(n: int) {
    LONG_MIN <= n <= LONG_MAX
  }

  /** `convert_to_num`: every character counts as a digit; overflow is undefined in C++. */
  function ConvertToNum(s: bytes): (r: Outcome<int>)
    ensures r.Ok? ==> IsLong(r.value)
  {
    if s == [] then Ok(0)
    else
      var n :- ConvertToNum(s[..|s| - 1]);
      NextNum(n, s[|s| - 1])
  }

  /** One turn of its loop. */
  function NextNum(n: int, c: byte): (r: Outcome<int>)
    ensures r.Ok? ==> IsLong(r.value)
  {
    var next := n * 10 + (SignedChar(c) - 48);
    if IsLong(n * 10) && IsLong(next) then Ok(next) else Throw(OutOfBounds)
  }

  /** Any character counts as a digit, with its signed value. */
  lemma CharactersCountAsDigits(s: bytes, c: byte, n: int)
    requires ConvertToNum(s) == Ok(n) && -100000 <= n <= 100000
    ensures ConvertToNum(s + [c]) == Ok(n * 10 + (if c < 128 then c - '0' as int else c - 256 - '0' as int))
  {
    assert (s + [c])[..|s|] == s;
  }

  datatype ServerParams = ServerParams(nonce: bytes, salt: bytes, iterations: int)

  /** `resolve_server_first_msg`. */
  function ResolveSpec(clientNonce: bytes, msg: bytes): Outcome<ServerParams> {
    var v := MessageValues(msg);
    if |v| != 3 || !(clientNonce <= v[0]) then Throw(BadServerMessage)
    else
      var salt :- DecodeFrom(0, 0, v[1]);
      var iterations :- ConvertToNum(v[2]);
      Ok(ServerParams(v[0], salt, iterations))
  }

  /** The message that both sides sign. */
  function AuthMessage(bare: bytes, serverFirst: bytes, nonce: bytes): bytes {
    bare + ([COMMA] + (serverFirst + ([COMMA] + (CHANNEL_NONCE + nonce))))
  }

  function StoredKey(c: Crypto, salted: Key): Key {
    c.h(c.hmac(salted, CLIENT_KEY))
  }

  function Proof(c: Crypto, salted: Key, auth: bytes): Key {
    Xor(c.hmac(salted, CLIENT_KEY), c.hmac(StoredKey(c, salted), auth))
  }

  function ClientFinal(c: Crypto, salted: Key, auth: bytes, nonce: bytes): bytes {
    CHANNEL_NONCE + (nonce + (COMMA_PROOF + EncodeSpec(Proof(c, salted, auth))))
  }

  /** The server's proof that it knows the account. */
  function ServerFinal(c: Crypto, salted: Key, auth: bytes): bytes {
    VERIFIER + EncodeSpec(c.hmac(c.hmac(salted, SERVER_KEY), auth))
  }

  /**
   * Section 3 of RFC 5802: the client's first and final messages, letter by letter, and
   * what its proof is made of.
   */
  lemma MessagesOfRfc5802(c: Crypto, salted: Key, user: bytes, nonce: bytes, serverFirst: bytes, auth: bytes)
    ensures GS2_HEADER + ClientFirstBare(user, nonce) == Lit("n,,n=") + (user + (Lit(",r=") + nonce))
    ensures AuthMessage(ClientFirstBare(user, nonce), serverFirst, nonce) ==
      (Lit("n=") + (user + (Lit(",r=") + nonce))) + (Lit(",") + (serverFirst + (Lit(",") + (Lit("c=biws,r=") + nonce))))
    ensures
      var clientKey := c.hmac(salted, Lit("Client Key"));
      ClientFinal(c, salted, auth, nonce)
      == Lit("c=biws,r=") + (nonce + (Lit(",p=") + EncodeSpec(Xor(clientKey, c.hmac(c.h(clientKey), auth)))))
  {
    assert Lit("n,,n=") == GS2_HEADER + NAME_ATTR && Lit(",") == [COMMA];
    Assoc(GS2_HEADER, NAME_ATTR, user + (COMMA_NONCE + nonce));
    hide Lit, EncodeSpec, Xor;
  }

  // ------------------------------------------------------------ the server's side

  /** A server that holds the stored key accepts a client-final message for its nonce. */
  predicate ServerAccepts(c: Crypto, storedKey: Key, auth: bytes, nonce: bytes, msg: bytes) {
    var prefix := CHANNEL_NONCE + (nonce + COMMA_PROOF);
    && prefix <= msg
    && match DecodeFrom(0, 0, msg[|prefix|..])
       case Throw(_) => false
       case Ok(proof) => |proof| == KEY_OCTETS && c.h(Xor(proof, c.hmac(storedKey, auth))) == storedKey
  }

  lemma ValueThenMore(v: bytes, attr: bytes, rest: bytes)
    requires COMMA !in v && |attr| == 3 && attr[0] == COMMA
    ensures Values(v + (attr + rest)) == [v] + Values(rest)
    ensures Values(v) == [v]
  {
    ValueSlices(v, attr, rest);
    IndexOfUnique(v + (attr + rest), COMMA, |v|);
    IndexOfUnique(v, COMMA, |v|);
    ValuesUnfold(v + (attr + rest));
    ValuesUnfold(v);
    hide *;
    assert [v] + [] == [v];
  }

  lemma ValueSlices(v: bytes, attr: bytes, rest: bytes)
    requires |attr| == 3 && attr[0] == COMMA
    ensures
      var s := v + (attr + rest);
      |s| >= |v| + 3 && s[..|v|] == v && s[|v| + 3..] == rest && s[|v|] == COMMA && v[..|v|] == v
  {
  }

  lemma ValuesUnfold(s: bytes)
    ensures
      var k := IndexOf(s, COMMA);
      Values(s) == [s[..k]] + (if k + 3 <= |s| then Values(s[k + 3..]) else [])
  {
    hide IndexOf;
  }

  /** A printed count is read back if a `long` can hold it, and overflows if not. */
  lemma {:induction false} PrintedCount(n: nat)
    ensures ConvertToNum(NatToChars(n, 10)) == if n <= LONG_MAX then Ok(n) else Throw(OutOfBounds)
    ensures COMMA !in NatToChars(n, 10)
  {
    var s := NatToChars(n, 10);
    if n < 10 {
      assert s[..0] == [];
      assert ConvertToNum(s[..0]) == Ok(0);
    } else {
      PrintedCount(n / 10);
      assert s[..|s| - 1] == NatToChars(n / 10, 10);
      hide NatToChars;
    }
  }

  /** The printed server-first message gives back its nonce, its salt and its count, if a `long` can hold that. */
  lemma ServerFirstRoundTrip(clientNonce: bytes, serverNonce: bytes, salt: bytes, iterations: nat)
    requires COMMA !in clientNonce && COMMA !in serverNonce
    ensures var nonce := clientNonce + serverNonce;
      var resolved := ResolveSpec(clientNonce, ServerFirst(nonce, salt, iterations));
      resolved == if iterations <= LONG_MAX then Ok(ServerParams(nonce, salt, iterations)) else Throw(OutOfBounds)
  {
    var nonce := clientNonce + serverNonce;
    var count := NatToChars(iterations, 10);
    var encoded := EncodeSpec(salt);
    ServerFirstValues(nonce, salt, iterations);
    Base64RoundTrip(salt);
    PrintedCount(iterations);
    hide EncodeSpec, DecodeFrom, NatToChars, ConvertToNum, Lit, MessageValues, ServerFirst;
    assert [nonce, encoded, count][0] == nonce && clientNonce <= nonce;
  }

  lemma ServerFirstValues(nonce: bytes, salt: bytes, iterations: nat)
    requires COMMA !in nonce
    ensures MessageValues(ServerFirst(nonce, salt, iterations))
      == [nonce, EncodeSpec(salt), NatToChars(iterations, 10)]
  {
    EncodingHasNoComma(salt);
    PrintedCount(iterations);
    assert |NONCE_ATTR| == 2 && |COMMA_SALT| == |COMMA_ITERATIONS| == 3;
    assert COMMA_SALT[0] == COMMA_ITERATIONS[0] == COMMA;
    hide EncodeSpec, NatToChars, Lit, MessageValues;
    ThreeValues(NONCE_ATTR, nonce, COMMA_SALT, EncodeSpec(salt), COMMA_ITERATIONS, NatToChars(iterations, 10));
  }

  /** A server whose nonce does not extend the client's is refused. */
  lemma ForeignNonceIsRefused(clientNonce: bytes, nonce: bytes, salt: bytes, iterations: nat)
    requires COMMA !in nonce && !(clientNonce <= nonce)
    ensures ResolveSpec(clientNonce, ServerFirst(nonce, salt, iterations)) == Throw(BadServerMessage)
  {
    ServerFirstValues(nonce, salt, iterations);
    hide EncodeSpec, NatToChars, MessageValues, ServerFirst;
  }

  /** A comma at the end, or one with less than a label after it, starts no further value. */
  lemma ShortEndIsDropped(v: bytes, mark: bytes)
    requires COMMA !in v && |mark| == 2
    ensures Values(v) == Values(v + [COMMA]) == Values(v + [COMMA, mark[0]]) == [v]
    ensures Values(v + ([COMMA] + mark)) == [v, []]
  {
    IndexOfUnique(v, COMMA, |v|);
    IndexOfUnique(v + [COMMA], COMMA, |v|);
    IndexOfUnique(v + [COMMA, mark[0]], COMMA, |v|);
    IndexOfUnique(v + ([COMMA] + mark), COMMA, |v|);
    var none: bytes := [];
    assert v[..|v|] == (v + [COMMA])[..|v|] == (v + [COMMA, mark[0]])[..|v|] == (v + ([COMMA] + mark))[..|v|] == v;
    assert (v + ([COMMA] + mark))[|v| + 3..] == none;
    assert Values(none) == [none] by {
      assert none[..0] == none;
    }
    assert [v] + [none] == [v, none] && [v] + [] == [v];
  }

  lemma ThreeValues(a0: bytes, v0: bytes, a1: bytes, v1: bytes, a2: bytes, v2: bytes)
    requires |a0| == 2 && |a1| == |a2| == 3 && a1[0] == a2[0] == COMMA
    requires COMMA !in v0 && COMMA !in v1 && COMMA !in v2
    ensures MessageValues(a0 + (v0 + (a1 + (v1 + (a2 + v2))))) == [v0, v1, v2]
  {
    var rest := v0 + (a1 + (v1 + (a2 + v2)));
    assert (a0 + rest)[2..] == rest;
    ValueThenMore(v0, a1, v1 + (a2 + v2));
    ValueThenMore(v1, a2, v2);
    ValueThenMore(v2, a2, []);
    hide Values;
  }

  /** The server's check of the client's proof succeeds, for any hash and any keyed hash. */
  lemma ServerAcceptsClient(c: Crypto, salted: Key, auth: bytes, nonce: bytes)
    ensures ServerAccepts(c, StoredKey(c, salted), auth, nonce, ClientFinal(c, salted, auth, nonce))
  {
    var proof := Proof(c, salted, auth);
    Base64RoundTrip(proof);
    XorUndoes(c.hmac(salted, CLIENT_KEY), c.hmac(StoredKey(c, salted), auth));
    hide EncodeSpec, DecodeFrom, Xor;
    var prefix := CHANNEL_NONCE + (nonce + COMMA_PROOF);
    var msg := ClientFinal(c, salted, auth, nonce);
    assert msg == prefix + EncodeSpec(proof);
    assert msg[|prefix|..] == EncodeSpec(proof);
  }

  // ------------------------------------------------------------ the client

  class ScramClient {
    const crypto: Crypto
    var clientFirstBare: bytes
    var clientNonce: bytes
    var serverFirst: bytes
    var serverNonce: bytes
    var salt: bytes
    var iterations: int
    var expectedServerFinal: bytes

    constructor (crypto: Crypto)
      ensures this.crypto == crypto && iterations == 0
      ensures clientFirstBare == clientNonce == serverFirst == serverNonce == salt == expectedServerFinal == []
    {
      this.crypto := crypto;
      clientFirstBare, clientNonce, serverFirst, serverNonce := [], [], [], [];
      salt, iterations, expectedServerFinal := [], 0, [];
    }

    method GenerateClientFirstMsg(user: bytes, nonce: bytes) returns (msg: bytes)
      modifies this`clientFirstBare, this`clientNonce
      ensures clientNonce == nonce && clientFirstBare == ClientFirstBare(user, nonce)
      ensures msg == GS2_HEADER + clientFirstBare
    {
      clientNonce := nonce;
      clientFirstBare := NAME_ATTR + (user + (COMMA_NONCE + nonce));
      return GS2_HEADER + clientFirstBare;
    }

    method ResolveServerFirstMsg(msg: bytes) returns (r: Outcome<()>)
      modifies this`serverFirst, this`serverNonce, this`salt, this`iterations
      ensures serverFirst == msg
      ensures match ResolveSpec(clientNonce, msg)
        case Throw(e) => r == Throw(e)
        case Ok(p) => r == Ok(()) && ServerParams(serverNonce, salt, iterations) == p
    {
      hide MessageValues, DecodeFrom, ConvertToNum;
      serverFirst := msg;
      var params := SplitValues(msg);
      if |params| != 3 {
        return Throw(BadServerMessage);
      }
      if !(clientNonce <= params[0]) {
        return Throw(BadServerMessage);
      }
      serverNonce := params[0];
      var decoded :- Base64Decode(params[1]);
      salt := decoded;
      var count :- ConvertNum(params[2]);
      iterations := count;
      return Ok(());
    }

    /** `generate_salted_password`, through the uninterpreted key derivation. */
    function SaltedPassword(password: bytes): Key
      reads this
    {
      crypto.hi(password, salt, iterations)
    }

    ghost function Auth(): bytes
      reads this
    {
      AuthMessage(clientFirstBare, serverFirst, serverNonce)
    }

    method GenerateClientFinalMsg(password: bytes) returns (msg: bytes)
      modifies this`expectedServerFinal
      ensures msg == ClientFinal(crypto, SaltedPassword(password), Auth(), serverNonce)
      ensures expectedServerFinal == ServerFinal(crypto, SaltedPassword(password), Auth())
    {
      hide EncodeSpec, Xor;
      var bare := CHANNEL_NONCE + serverNonce;
      var salted := SaltedPassword(password);
      var clientKey := crypto.hmac(salted, CLIENT_KEY);
      var storedKey := crypto.h(clientKey);
      var auth := clientFirstBare + ([COMMA] + (serverFirst + ([COMMA] + bare)));
      var clientSignature := crypto.hmac(storedKey, auth);
      var clientProof := Xor(clientKey, clientSignature);
      var serverKey := crypto.hmac(salted, SERVER_KEY);
      var serverSignature := crypto.hmac(serverKey, auth);
      var verifier := Base64Encode(serverSignature);
      expectedServerFinal := VERIFIER + verifier;
      var encoded := Base64Encode(clientProof);
      Assoc(CHANNEL_NONCE, serverNonce, COMMA_PROOF + encoded);
      return bare + (COMMA_PROOF + encoded);
    }

    method VerifyServerFinalMsg(msg: bytes) returns (ok: bool)
      ensures ok <==> msg == expectedServerFinal
    {
      return msg == expectedServerFinal;
    }
  }

  /** The loop of `resolve_server_first_msg`. */
  method SplitValues(msg: bytes) returns (params: seq<bytes>)
    ensures params == MessageValues(msg)
  {
    hide *;
    params := [];
    var start: nat, i: nat := 2, 2;
    ValuesStart(msg);
    while i <= |msg|
      invariant 2 <= start <= i && (i > |msg| ==> start > |msg|)
      invariant i <= |msg| ==> NoComma(msg, start, i)
      invariant MessageValues(msg) == params + ValuesFrom(msg, start)
      decreases |msg| + 3 - i
    {
      if i == |msg| || msg[i] == COMMA {
        ValuesAt(msg, start, i);
        params := params + [msg[start..i]];
        i := i + 3;
        start := i;
        NoCommaYet(msg, start);
      } else {
        NoCommaStep(msg, start, i);
        i := i + 1;
      }
    }
    NoValues(msg, start);
    assert params + [] == params;
  }

  ghost predicate NoComma(msg: bytes, start: nat, i: nat) {
    start <= i <= |msg| && forall j :: start <= j < i ==> msg[j] != COMMA
  }

  lemma NoCommaYet(msg: bytes, start: nat)
    ensures start <= |msg| ==> NoComma(msg, start, start)
  {
  }

  lemma NoCommaStep(msg: bytes, start: nat, i: nat)
    requires i < |msg| && msg[i] != COMMA && NoComma(msg, start, i)
    ensures NoComma(msg, start, i + 1)
  {
  }

  lemma ValuesStart(msg: bytes)
    ensures MessageValues(msg) == [] + ValuesFrom(msg, 2)
    ensures 2 <= |msg| ==> NoComma(msg, 2, 2)
  {
  }

  lemma NoValues(msg: bytes, start: nat)
    requires start > |msg|
    ensures ValuesFrom(msg, start) == []
  {
  }

  /** The values from an offset on; none once the offset is past the end. */
  function ValuesFrom(msg: bytes, start: nat): seq<bytes> {
    if start <= |msg| then Values(msg[start..]) else []
  }

  lemma ValuesAt(msg: bytes, start: nat, i: nat)
    requires NoComma(msg, start, i) && (i < |msg| ==> msg[i] == COMMA)
    ensures ValuesFrom(msg, start) == [msg[start..i]] + ValuesFrom(msg, i + 3)
  {
    var s := msg[start..];
    assert s[..i - start] == msg[start..i];
    IndexOfUnique(s, COMMA, i - start);
    assert i + 3 <= |msg| ==> s[i - start + 3..] == msg[i + 3..];
  }

  method ConvertNum(s: bytes) returns (r: Outcome<int>)
    ensures r == ConvertToNum(s)
  {
    var n: int := 0;
    NumFrom(s, 0);
    for i := 0 to |s|
      invariant ConvertToNum(s[..i]) == Ok(n)
    {
      NumFrom(s, i);
      var next := NextNum(n, s[i]);
      if next.Throw? {
        NumFails(s, i + 1);
        return Throw(OutOfBounds);
      }
      n := next.value;
    }
    assert s[..|s|] == s;
    return Ok(n);
  }

  lemma NumFrom(s: bytes, i: nat)
    requires i <= |s|
    ensures ConvertToNum(s[..0]) == Ok(0)
    ensures i < |s| ==>
      ConvertToNum(s[..i + 1]) == (match ConvertToNum(s[..i]) case Throw(e) => Throw(e) case Ok(n) => NextNum(n, s[i]))
  {
    hide NextNum;
    assert s[..0] == [];
    if i < |s| {
      assert s[..i + 1][..i] == s[..i];
    }
  }

  /** Once it has overflowed, no further character helps. */
  lemma {:induction false} NumFails(s: bytes, i: nat)
    requires i <= |s| && ConvertToNum(s[..i]) == Throw(OutOfBounds)
    ensures ConvertToNum(s) == Throw(OutOfBounds)
    decreases |s| - i
  {
    if i < |s| {
      NumFrom(s, i);
      NumFails(s, i + 1);
    } else {
      assert s[..i] == s;
    }
  }

  /**
   * The honest run, for any hash, keyed hash and key derivation: from the printed
   * server-first message the client makes a final message that the server accepts, and
   * then it accepts exactly the server's matching verifier.
   */
  method HonestRun(crypto: Crypto, user: bytes, password: bytes, clientNonce: bytes, serverNonce: bytes,
                   salt: bytes, iterations: nat, reply: bytes) returns (final: bytes, accepted: bool)
    requires COMMA !in clientNonce && COMMA !in serverNonce && iterations <= LONG_MAX
    ensures var salted := crypto.hi(password, salt, iterations);
      var nonce := clientNonce + serverNonce;
      var auth := AuthMessage(ClientFirstBare(user, clientNonce), ServerFirst(nonce, salt, iterations), nonce);
      && ServerAccepts(crypto, StoredKey(crypto, salted), auth, nonce, final)
      && (accepted <==> reply == ServerFinal(crypto, salted, auth))
  {
    hide EncodeSpec, NatToChars, ResolveSpec, ServerFirst, ServerAccepts;
    var client := new ScramClient(crypto);
    var first := client.GenerateClientFirstMsg(user, clientNonce);
    var nonce := clientNonce + serverNonce;
    ServerFirstRoundTrip(clientNonce, serverNonce, salt, iterations);
    var resolved := client.ResolveServerFirstMsg(ServerFirst(nonce, salt, iterations));
    assert resolved.Ok?;
    final := client.GenerateClientFinalMsg(password);
    ServerAcceptsClient(crypto, client.SaltedPassword(password), client.Auth(), nonce);
    accepted := client.VerifyServerFinalMsg(reply);
  }
}
