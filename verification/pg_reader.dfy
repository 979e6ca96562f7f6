/**
 * What a server reads from the octets of a client, message by message: sections 55.2 and
 * 55.7 of the PostgreSQL 16 documentation.
 */
module PgReaders {
  import opened Bytes
  import opened PgWire
  import opened PgValues

  // ------------------------------------------------------------ the reader

  /** The frontend messages of simple and extended queries, and the answers to authentication. */
  datatype Request =
    | SimpleQuery(text: bytes)
    | ParseRequest(statement: bytes, text: bytes, types: seq<nat>)
    | BindRequest(portal: bytes, statement: bytes, formats: seq<nat>, params: seq<Option<bytes>>, results: seq<nat>)
    | ExecuteRequest(portal: bytes, limit: int)
    | FlushRequest
    | CloseRequest(what: byte, name: bytes)
    | SyncRequest
    | PasswordMessage(payload: bytes)

  function Word16(s: bytes): nat
    requires |s| >= 2
  {
    s[0] as nat * 256 + s[1] as nat
  }

  function Word32(s: bytes): nat
    requires |s| >= 4
  {
    s[0] as nat * 16777216 + s[1] as nat * 65536 + s[2] as nat * 256 + s[3] as nat
  }

  function Signed(v: nat): int {
    if v < 2147483648 then v else v - 4294967296
  }

  /** Octets up to a NUL, and what follows it. */
  function ReadString(s: bytes): (r: Option<(bytes, bytes)>)
    ensures r.Some? ==> |r.value.1| < |s|
  {
    var k := IndexOf(s, 0);
    if k == |s| then None else Some((s[..k], s[k + 1..]))
  }

  /** n numbers of this many octets. */
  function ReadNumbers(s: bytes, n: nat, width: nat): Option<(seq<nat>, bytes)>
    requires width == 2 || width == 4
    decreases n
  {
    if n == 0 then Some(([], s))
    else if |s| < width then None
    else
      match ReadNumbers(s[width..], n - 1, width)
      case None => None
      case Some((ns, rest)) => Some(([if width == 2 then Word16(s) else Word32(s)] + ns, rest))
  }

  /** A 16-bit count and as many numbers. */
  function ReadList(s: bytes, width: nat): Option<(seq<nat>, bytes)>
    requires width == 2 || width == 4
  {
    if |s| < 2 then None else ReadNumbers(s[2..], Word16(s), width)
  }

  /** n values, each with its length in front, -1 for NULL. */
  function ReadCells(s: bytes, n: nat): Option<(seq<Option<bytes>>, bytes)>
    decreases n
  {
    if n == 0 then Some(([], s))
    else if |s| < 4 then None
    else
      var len := Signed(Word32(s));
      if len == -1 then
        match ReadCells(s[4..], n - 1)
        case None => None
        case Some((cells, rest)) => Some(([None] + cells, rest))
      else if len < 0 || |s| < 4 + len then None
      else
        match ReadCells(s[4 + len..], n - 1)
        case None => None
        case Some((cells, rest)) => Some(([Some(s[4..4 + len])] + cells, rest))
  }

  function ReadParse(body: bytes): Option<Request> {
    match ReadString(body)
    case None => None
    case Some((statement, s1)) =>
      match ReadString(s1)
      case None => None
      case Some((text, s2)) =>
        match ReadList(s2, 4)
        case None => None
        case Some((types, rest)) => if rest == [] then Some(ParseRequest(statement, text, types)) else None
  }

  function ReadBind(body: bytes): Option<Request> {
    match ReadString(body)
    case None => None
    case Some((portal, s1)) =>
      match ReadString(s1)
      case None => None
      case Some((statement, s2)) =>
        match ReadList(s2, 2)
        case None => None
        case Some((formats, s3)) =>
          match ReadValues(s3)
          case None => None
          case Some((params, s4)) =>
            match ReadList(s4, 2)
            case None => None
            case Some((results, rest)) =>
              if rest == [] then Some(BindRequest(portal, statement, formats, params, results)) else None
  }

  /** A 16-bit count and as many values. */
  function ReadValues(s: bytes): Option<(seq<Option<bytes>>, bytes)> {
    if |s| < 2 then None else ReadCells(s[2..], Word16(s))
  }

  function ReadExecute(body: bytes): Option<Request> {
    match ReadString(body)
    case None => None
    case Some((portal, rest)) =>
      if |rest| == 4 then Some(ExecuteRequest(portal, Signed(Word32(rest)))) else None
  }

  /** A string and nothing after it. */
  function ReadLastString(s: bytes): Option<bytes> {
    match ReadString(s)
    case None => None
    case Some((text, rest)) => if rest == [] then Some(text) else None
  }

  function ReadRequest(kind: byte, body: bytes): Option<Request> {
    if kind == 'Q' as int then
      match ReadLastString(body) case None => None case Some(text) => Some(SimpleQuery(text))
    else if kind == 'P' as int then ReadParse(body)
    else if kind == 'B' as int then ReadBind(body)
    else if kind == 'E' as int then ReadExecute(body)
    else if kind == 'H' as int then (if body == [] then Some(FlushRequest) else None)
    else if kind == 'S' as int then (if body == [] then Some(SyncRequest) else None)
    else if kind == 'C' as int then
      if body == [] then None
      else match ReadLastString(body[1..]) case None => None case Some(name) => Some(CloseRequest(body[0], name))
    else if kind == 'p' as int then Some(PasswordMessage(body))
    else None
  }

  /** All the messages; none if the octets are not a whole number of them. */
  function ReadSession(s: bytes): Option<seq<Request>>
    decreases |s|
  {
    if s == [] then Some([])
    else if |s| < 5 then None
    else
      var len := Word32(s[1..]);
      if len < 4 || |s| < 1 + len then None
      else
        match (ReadRequest(s[0], s[5..1 + len]), ReadSession(s[1 + len..]))
        case (Some(r), Some(rs)) => Some([r] + rs)
        case _ => None
  }

  /** Names and values, each ended by NUL, up to an empty name. */
  function ReadPairs(s: bytes): Option<seq<(bytes, bytes)>>
    decreases |s|
  {
    match ReadString(s)
    case None => None
    case Some((name, s1)) =>
      if name == [] then if s1 == [] then Some([]) else None
      else
        match ReadString(s1)
        case None => None
        case Some((value, s2)) =>
          match ReadPairs(s2)
          case None => None
          case Some(pairs) => Some([(name, value)] + pairs)
  }

  /** The startup packet of protocol version 3.0: its parameters, and what follows it. */
  function ReadStartup(s: bytes): Option<(seq<(bytes, bytes)>, bytes)> {
    if |s| < 8 then None
    else
      var len := Word32(s);
      if len < 8 || |s| < len || Word32(s[4..]) != 3 * 65536 then None
      else
        match ReadPairs(s[8..len])
        case None => None
        case Some(pairs) => Some((pairs, s[len..]))
  }

  /** The first answer to a SASL request: the mechanism, and the response with its length. */
  function ReadInitialResponse(payload: bytes): Option<(bytes, bytes)> {
    match ReadString(payload)
    case None => None
    case Some((mechanism, rest)) =>
      if |rest| < 4 || Word32(rest) != |rest| - 4 then None else Some((mechanism, rest[4..]))
  }

  // ------------------------------------------------------------ what is printed is read

  lemma WordsAgree(s: bytes)
    ensures |s| >= 2 ==> Word16(s) == U16(s)
    ensures |s| >= 4 ==> Word32(s) == U32(s)
  {
  }

  lemma WordIsRead(v: int, rest: bytes)
    ensures Word16(U16Be(v) + rest) == v % 0x1_0000 && (U16Be(v) + rest)[2..] == rest
    ensures Word32(U32Be(v) + rest) == v % WORD32 && (U32Be(v) + rest)[4..] == rest
  {
    hide U16, U32, U16Be, U32Be, Word16, Word32;
    WordsAgree(U16Be(v) + rest);
    WordsAgree(U32Be(v) + rest);
    U16RoundTrip(v, rest);
    U32RoundTrip(v, rest);
  }

  lemma StringIsRead(text: bytes, rest: bytes)
    requires 0 !in text
    ensures ReadString(text + ([0] + rest)) == Some((text, rest))
    ensures ReadLastString(text + [0]) == Some(text)
  {
    var s := text + ([0] + rest);
    assert s[..|text|] == text && s[|text| + 1..] == rest;
    IndexOfUnique(s, 0, |text|);
    var last := text + [0];
    assert last[..|text|] == text && last[|text| + 1..] == [];
    IndexOfUnique(last, 0, |text|);
  }

  lemma ParseFieldsAreRead(statement: bytes, text: bytes)
    requires 0 !in statement && 0 !in text
    ensures ReadParse(statement + ([0] + (text + ([0] + [0, 0])))) == Some(ParseRequest(statement, text, []))
  {
    hide ReadString, ReadList;
    StringIsRead(statement, text + ([0] + [0, 0]));
    StringIsRead(text, [0, 0]);
    var none: bytes := [];
    assert [0, 0] + none == [0, 0];
    NoNumbers(none, 4);
  }

  lemma NoNumbers(rest: bytes, width: nat)
    requires width == 2 || width == 4
    ensures ReadList([0, 0] + rest, width) == Some(([], rest))
  {
    assert ([0, 0] + rest)[2..] == rest;
  }

  lemma CellIsRead(cell: Cell, rest: bytes)
    requires cell.Some? ==> |cell.value| < 0x8000_0000
    ensures
      var s := if cell.None? then U32Be(-1) + rest else U32Be(|cell.value|) + (cell.value + rest);
      && |s| >= 4
      && var len := Signed(Word32(s));
         if cell.None? then len == -1 && s[4..] == rest
         else len == |cell.value| && |s| >= 4 + len && s[4..4 + len] == cell.value && s[4 + len..] == rest
  {
    hide U32Be, Word32;
    if cell.None? {
      WordIsRead(-1, rest);
    } else {
      WordIsRead(|cell.value|, cell.value + rest);
      var s, n := U32Be(|cell.value|) + (cell.value + rest), |cell.value|;
      assert s[4..4 + n] == s[4..][..n] == cell.value;
      assert s[4 + n..] == s[4..][n..] == rest;
    }
  }

  /** Printed values are read back. */
  lemma {:induction false} CellsAreRead(row: Row, tail: bytes)
    requires CellsFit(row)
    ensures ReadCells(CellsOnWire(row, tail), |row|) == Some((row, tail))
    decreases |row|
  {
    if row != [] {
      var rest := CellsOnWire(row[1..], tail);
      FirstPrinted(row, tail);
      hide *;
      FitRest(row);
      CellsAreRead(row[1..], tail);
      CellThenCells(row[0], rest, |row|, row[1..], tail);
      assert [row[0]] + row[1..] == row;
    }
  }

  lemma FirstPrinted(row: Row, tail: bytes)
    requires row != []
    ensures CellsOnWire(row, tail) ==
      var rest := CellsOnWire(row[1..], tail);
      if row[0].None? then U32Be(-1) + rest else U32Be(|row[0].value|) + (row[0].value + rest)
  {
    hide U32Be;
  }

  lemma FitRest(row: Row)
    requires row != [] && CellsFit(row)
    ensures CellsFit(row[1..]) && (row[0].Some? ==> |row[0].value| < 0x8000_0000)
  {
  }

  /** One value in front of others. */
  lemma CellThenCells(cell: Cell, rest: bytes, n: nat, cells: seq<Option<bytes>>, after: bytes)
    requires n > 0 && (cell.Some? ==> |cell.value| < 0x8000_0000)
    requires ReadCells(rest, n - 1) == Some((cells, after))
    ensures
      var s := if cell.None? then U32Be(-1) + rest else U32Be(|cell.value|) + (cell.value + rest);
      ReadCells(s, n) == Some(([cell] + cells, after))
  {
    hide U32Be, Word32, Signed;
    CellIsRead(cell, rest);
  }

  lemma ValuesAreRead(row: Row, tail: bytes)
    requires CellsFit(row) && |row| < 0x1_0000
    ensures ReadValues((U16Be(|row|) + CellsOnWire(row, [])) + tail) == Some((row, tail))
  {
    hide *;
    CellsTail(row, tail);
    Assoc(U16Be(|row|), CellsOnWire(row, []), tail);
    WordIsRead(|row|, CellsOnWire(row, tail));
    CountThenValues(U16Be(|row|), CellsOnWire(row, tail));
    CellsAreRead(row, tail);
  }

  lemma CountThenValues(count: bytes, rest: bytes)
    requires |count| == 2
    ensures |count + rest| >= 2 && ReadValues(count + rest) == ReadCells((count + rest)[2..], Word16(count + rest))
  {
    hide ReadCells, Word16;
  }

  lemma {:induction false} CellsTail(row: Row, tail: bytes)
    ensures CellsOnWire(row, []) + tail == CellsOnWire(row, tail)
    decreases |row|
  {
    hide U32Be;
    if row == [] {
      Unit(tail);
    } else {
      CellsTail(row[1..], tail);
      var rest := CellsOnWire(row[1..], []);
      if row[0].None? {
        Assoc(U32Be(-1), rest, tail);
      } else {
        Assoc(U32Be(|row[0].value|), row[0].value + rest, tail);
        Assoc(row[0].value, rest, tail);
      }
    }
  }

  /** The reading of each message of a sequence. */
  ghost predicate AllRead(ms: seq<Msg>, rs: seq<Request>) {
    |ms| == |rs| && forall i :: 0 <= i < |ms| ==> ReadRequest(ms[i].kind, ms[i].body) == Some(rs[i])
  }

  lemma AllReadAppend(ms: seq<Msg>, rs: seq<Request>, ms1: seq<Msg>, rs1: seq<Request>)
    requires AllRead(ms, rs) && AllRead(ms1, rs1)
    ensures AllRead(ms + ms1, rs + rs1)
  {
    hide ReadRequest;
  }

  lemma FirstMessage(m: Msg, rest: bytes)
    requires m.Fits()
    ensures
      var s := m.OnWire(rest);
      && |s| >= 5 && s[0] == m.kind && Word32(s[1..]) == |m.body| + 4
      && |s| >= 1 + (|m.body| + 4) && s[5..1 + (|m.body| + 4)] == m.body && s[1 + (|m.body| + 4)..] == rest
  {
    hide U32Be, Word32;
    var s, n, after := m.OnWire(rest), |m.body|, m.body + rest;
    assert s[1..] == U32Be(n + 4) + after;
    WordIsRead(n + 4, after);
    assert s[5..] == s[1..][4..] == after;
    assert s[5..5 + n] == after[..n] == m.body;
    assert s[5 + n..] == after[n..] == rest;
  }

  /** The octets of messages that fit are read message by message. */
  lemma {:induction false} SessionIsRead(ms: seq<Msg>, rs: seq<Request>)
    requires AllFit(ms) && AllRead(ms, rs)
    ensures ReadSession(MessagesOnWire(ms, [])) == Some(rs)
    decreases |ms|
  {
    hide ReadRequest, Word32, Msg.OnWire;
    if ms != [] {
      FirstMessage(ms[0], MessagesOnWire(ms[1..], []));
      assert forall i :: 0 <= i < |ms[1..]| ==> ms[1..][i] == ms[i + 1] && rs[1..][i] == rs[i + 1];
      SessionIsRead(ms[1..], rs[1..]);
      assert [rs[0]] + rs[1..] == rs;
    }
  }
}
