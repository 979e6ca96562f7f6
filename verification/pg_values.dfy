/** Parameters, rows, columns and the values in them. */
module PgValues {
  import opened Bytes
  import opened PgWire

  // ------------------------------------------------------------ rows

  /** A column of a row: NULL, or its octets. */
  type Cell = Option<bytes>
  type Row = seq<Cell>

  /** The two's-complement value of 32 bits. */
  function Signed32(v: int): int {
    if v < 0x8000_0000 then v else v - WORD32
  }

  /** One length-prefixed cell, and what follows it. */
  function NextCell(s: bytes): Outcome<(Cell, bytes)> {
    if |s| < 4 then Throw(OutOfBounds)
    else
      var len := Signed32(U32(s));
      var rest := s[4..];
      if len > |rest| then Throw(OutOfBounds)
      else if len < 0 then Ok((None, rest))
      else Ok((Some(rest[..len]), rest[len..]))
  }

  function ParseCells(s: bytes, n: nat): Outcome<Row>
    decreases n
  {
    if n == 0 then Ok([])
    else
      var (cell, rest) :- NextCell(s);
      var cells :- ParseCells(rest, n - 1);
      Ok([cell] + cells)
  }

  /** The DataRow branch of `populate_result`; leaving the message is undefined in C++. */
  function ParseRow(body: bytes): Outcome<Row> {
    if |body| < 2 then Throw(OutOfBounds) else ParseCells(body[2..], U16(body))
  }

  /** A row as the backend prints it. */
  function CellsOnWire(row: Row, tail: bytes): bytes {
    if row == [] then tail
    else
      match row[0]
      case None => U32Be(-1) + CellsOnWire(row[1..], tail)
      case Some(octets) => U32Be(|octets|) + (octets + CellsOnWire(row[1..], tail))
  }

  ghost predicate CellsFit(row: Row) {
    forall i :: 0 <= i < |row| && row[i].Some? ==> |row[i].value| < 0x8000_0000
  }

  /** The front cell of a printed row. */
  lemma FirstCell(cell: Cell, rest: bytes)
    requires cell.Some? ==> |cell.value| < 0x8000_0000
    ensures
      var s := if cell.None? then U32Be(-1) + rest else U32Be(|cell.value|) + (cell.value + rest);
      NextCell(s) == Ok((cell, rest))
  {
    hide U32, U32Be;
    if cell.None? {
      U32RoundTrip(-1, rest);
      assert (U32Be(-1) + rest)[4..] == rest;
    } else {
      var more := cell.value + rest;
      U32RoundTrip(|cell.value|, more);
      assert (U32Be(|cell.value|) + more)[4..] == more;
      assert more[..|cell.value|] == cell.value && more[|cell.value|..] == rest;
    }
  }

  /** Any negative length stands for NULL; one that exceeds what is there leaves the message. */
  lemma LengthDecides(n: int, rest: bytes)
    requires -0x8000_0000 <= n < 0x8000_0000
    ensures NextCell(U32Be(n) + rest) ==
      if n < 0 then Ok((None, rest))
      else if n > |rest| then Throw(OutOfBounds)
      else Ok((Some(rest[..n]), rest[n..]))
  {
    hide U32, U32Be;
    U32RoundTrip(n, rest);
    assert (U32Be(n) + rest)[4..] == rest;
  }

  lemma {:induction false} CellsRoundTrip(row: Row, tail: bytes, n: nat)
    requires CellsFit(row) && n <= |row|
    ensures ParseCells(CellsOnWire(row, tail), n) == Ok(row[..n])
    decreases |row|
  {
    hide NextCell, U32Be;
    if n > 0 {
      FirstCell(row[0], CellsOnWire(row[1..], tail));
      CellsRoundTrip(row[1..], tail, n - 1);
      assert [row[0]] + row[1..][..n - 1] == row[..n];
    }
  }

  /** A printed row is read back whole exactly when its count fits into 16 bits. */
  lemma RowRoundTripIff(row: Row)
    requires CellsFit(row)
    ensures ParseRow(U16Be(|row|) + CellsOnWire(row, [])) == Ok(row) <==> |row| < 0x1_0000
    ensures ParseRow(U16Be(|row|) + CellsOnWire(row, [])) == Ok(row[..|row| % 0x1_0000])
  {
    hide U16, U16Be, CellsOnWire, ParseCells;
    var k := |row| % 0x1_0000;
    CountedCells(|row|, CellsOnWire(row, []));
    CellsRoundTrip(row, [], k);
    if |row| < 0x1_0000 {
      assert row[..k] == row;
    } else {
      assert |row[..k]| < |row|;
    }
  }

  /** The count is read modulo 2^16, and the cells come after it. */
  lemma CountedCells(n: nat, cells: bytes)
    ensures ParseRow(U16Be(n) + cells) == ParseCells(cells, n % 0x1_0000)
  {
    hide U16, U16Be, ParseCells;
    U16RoundTrip(n, cells);
    assert (U16Be(n) + cells)[2..] == cells;
  }

  /** The loop over the columns of a DataRow message. */
  method ReadRow(body: bytes) returns (r: Outcome<Row>)
    ensures r == ParseRow(body)
  {
    hide ParseCells, NextCell, U32, U16;
    if |body| < 2 {
      return Throw(OutOfBounds);
    }
    var numCols := U16(body);
    var p: nat := 2;
    var row: Row := [];
    ghost var whole := ParseCells(body[2..], numCols);
    PrependNoCells(row, whole);
    var i: nat := 0;
    while i < numCols
      invariant i <= numCols && p <= |body|
      invariant whole == Prepend(row, ParseCells(body[p..], numCols - i))
    {
      CellStep(row, body[p..], numCols - i);
      CellAt(body, p);
      if |body| < p + 4 {
        return Throw(OutOfBounds);
      }
      var len := Signed32(U32(body[p..]));
      p := p + 4;
      if len > |body| - p {
        return Throw(OutOfBounds);
      }
      row := row + [if len < 0 then None else Some(body[p..p + len])];
      if len > 0 {
        p := p + len;
      }
      i := i + 1;
    }
    PrependNoCells(row, ParseCells(body[p..], 0));
    return Ok(row);
  }

  lemma PrependNoCells(a: Row, r: Outcome<Row>)
    ensures Prepend([], r) == r
    ensures forall s :: Prepend(a, ParseCells(s, 0)) == Ok(a)
  {
    assert a + [] == a && (r.Ok? ==> [] + r.value == r.value);
  }

  lemma CellStep(row: Row, s: bytes, n: nat)
    requires n > 0
    ensures Prepend(row, ParseCells(s, n)) ==
      match NextCell(s)
      case Throw(e) => Throw(e)
      case Ok((cell, rest)) => Prepend(row + [cell], ParseCells(rest, n - 1))
  {
    hide NextCell;
    if NextCell(s).Ok? {
      var (cell, rest) := NextCell(s).value;
      var cells := ParseCells(rest, n - 1);
      if cells.Ok? {
        assert row + ([cell] + cells.value) == (row + [cell]) + cells.value;
      }
    }
  }

  /** The cell at an offset into the message. */
  lemma CellAt(body: bytes, p: nat)
    requires p <= |body|
    ensures NextCell(body[p..]) ==
      if |body| < p + 4 then Throw(OutOfBounds)
      else
        var len := Signed32(U32(body[p..]));
        if len > |body| - (p + 4) then Throw(OutOfBounds)
        else if len < 0 then Ok((None, body[p + 4..]))
        else Ok((Some(body[p + 4..p + 4 + len]), body[p + 4 + len..]))
  {
    var s := body[p..];
    if |s| >= 4 {
      var len := Signed32(U32(s));
      hide U32;
      assert s[4..] == body[p + 4..];
      if 0 <= len <= |s| - 4 {
        assert s[4..][..len] == body[p + 4..p + 4 + len] && s[4..][len..] == body[p + 4 + len..];
      }
    }
  }

  // ------------------------------------------------------------ values

  datatype SqlValue = Integer(n: int) | Text(s: bytes) | Boolean(b: bool)

  /** The C++ type of a parameter or of a destination. */
  datatype SqlType = IntType(lo: int, hi: int) | TextType | BoolType

  const TRUE_CHAR: byte := 116
  const FALSE_CHAR: byte := 102

  /** `pg_serializer::serialize`, without its length prefix. */
  function Serialize(v: SqlValue): bytes {
    match v
    case Integer(n) => ToChars(n, 10)
    case Text(s) => s
    case Boolean(b) => [if b then TRUE_CHAR else FALSE_CHAR]
  }

  /** `pg_parser::parse`. */
  function ParseAs(t: SqlType, s: bytes): Outcome<SqlValue> {
    match t
    case IntType(lo, hi) =>
      (match FromChars(s, 10, lo, hi)
       case Parsed(n) => Ok(Integer(n))
       case _ => Throw(ParseFailure))
    case TextType => Ok(Text(s))
    case BoolType =>
      if |s| != 1 then Throw(ParseFailure)
      else if s[0] == TRUE_CHAR then Ok(Boolean(true))
      else if s[0] == FALSE_CHAR then Ok(Boolean(false))
      else Throw(ParseFailure)
  }

  predicate HasType(v: SqlValue, t: SqlType) {
    match v
    case Integer(n) => t.IntType? && t.lo <= n <= t.hi
    case Text(_) => t.TextType?
    case Boolean(_) => t.BoolType?
  }

  /** A value printed as a parameter is parsed back at its own type. */
  lemma ValueRoundTrip(v: SqlValue, t: SqlType)
    requires HasType(v, t)
    ensures ParseAs(t, Serialize(v)) == Ok(v)
  {
    if v.Integer? {
      ToCharsFromChars(v.n, 10, t.lo, t.hi, []);
      Unit(ToChars(v.n, 10));
      hide FromChars, ToChars;
    }
  }

  /** Booleans are one letter, and no other octets are booleans. */
  lemma BooleansAreLetters(s: bytes, b: bool)
    ensures Serialize(Boolean(b)) == Lit(if b then "t" else "f")
    ensures ParseAs(BoolType, s) == Ok(Boolean(b)) <==> s == Lit(if b then "t" else "f")
    ensures ParseAs(BoolType, s).Ok? <==> s == Lit("t") || s == Lit("f")
  {
  }

  /** A value that is not of the type asked for, or out of its range, is refused; text never is. */
  lemma IntegersAreNumbers(s: bytes, lo: int, hi: int)
    ensures ParseAs(IntType(lo, hi), s).Ok? <==> FromChars(s, 10, lo, hi).Parsed?
    ensures forall n :: ParseAs(IntType(lo, hi), s) == Ok(Integer(n)) ==> lo <= n <= hi
    ensures ParseAs(TextType, s) == Ok(Text(s))
  {
  }

  // ------------------------------------------------------------ parameters

  function ToCell(v: Option<SqlValue>): Cell {
    if v.Some? then Some(Serialize(v.value)) else None
  }

  function ToRow(vs: seq<Option<SqlValue>>): (row: Row)
    ensures |row| == |vs|
  {
    seq(|vs|, i requires 0 <= i < |vs| => ToCell(vs[i]))
  }

  lemma {:induction false} CellsAppend(row: Row, cell: Cell)
    ensures CellsOnWire(row + [cell], []) == CellsOnWire(row, []) + CellsOnWire([cell], [])
  {
    if row == [] {
      assert [] + [cell] == [cell];
    } else {
      assert (row + [cell])[1..] == row[1..] + [cell];
      CellsAppend(row[1..], cell);
      var rest, last := CellsOnWire(row[1..], []), CellsOnWire([cell], []);
      if row[0].None? {
        Assoc(U32Be(-1), rest, last);
      } else {
        Assoc(U32Be(|row[0].value|), row[0].value + rest, last);
        Assoc(row[0].value, rest, last);
      }
    }
  }

  class PgParams {
    var count: nat
    var buffer: bytes
    ghost var stored: seq<Option<SqlValue>>

    /** The buffer is the count, truncated to 16 bits, and the stored values as a row. */
    ghost predicate Valid()
      reads this
    {
      count == |stored| && buffer == U16Be(count) + CellsOnWire(ToRow(stored), [])
    }

    constructor ()
      ensures Valid() && stored == []
    {
      count, buffer, stored := 0, [0, 0], [];
    }

    method Increment()
      requires |buffer| >= 2
      modifies this
      ensures count == old(count) + 1 && buffer == U16Be(count) + old(buffer)[2..] && stored == old(stored)
    {
      count := count + 1;
      buffer := U16Be(count) + buffer[2..];
    }

    /** The overloads of `store`, one value at a time. */
    method Store(v: Option<SqlValue>)
      requires Valid()
      modifies this
      ensures Valid() && stored == old(stored) + [v]
    {
      hide Serialize;
      assert buffer[2..] == CellsOnWire(ToRow(stored), []);
      Increment();
      CellsAppend(ToRow(stored), ToCell(v));
      assert ToRow(stored + [v]) == ToRow(stored) + [ToCell(v)];
      match v {
        case None =>
          buffer := buffer + U32Be(-1);
          Unit(U32Be(-1));
        case Some(value) =>
          var text := Serialize(value);
          buffer := buffer + (U32Be(|text|) + text);
          Unit(text);
      }
      Assoc(U16Be(count), CellsOnWire(ToRow(stored), []), CellsOnWire([ToCell(v)], []));
      stored := stored + [v];
    }
  }

  // ------------------------------------------------------------ reading a row

  /** The destination of one `get_row` argument: a plain variable, or an optional and what it holds. */
  datatype Target = Plain(t: SqlType) | Optional(t: SqlType, current: Option<SqlValue>)

  /** One value of `get_row`: NULL is refused by a plain variable and ignored by an optional. */
  function GetCell(cell: Cell, target: Target): Outcome<Option<SqlValue>> {
    match cell
    case None => if target.Plain? then Throw(NullValue) else Ok(target.current)
    case Some(s) =>
      var v :- ParseAs(target.t, s);
      Ok(Some(v))
  }

  /** NULL is for optionals only, and leaves them as they were; any other value is parsed at the type. */
  lemma NullsAndValues(t: SqlType, current: Option<SqlValue>, s: bytes)
    ensures GetCell(None, Plain(t)) == Throw(NullValue) && GetCell(None, Optional(t, current)) == Ok(current)
    ensures GetCell(Some(s), Plain(t)) == GetCell(Some(s), Optional(t, current))
    ensures forall v :: GetCell(Some(s), Plain(t)) == Ok(Some(v)) <==> ParseAs(t, s) == Ok(v)
  {
    hide ParseAs;
  }

  /** `get_row` from a column on; a missing column is undefined in C++. */
  function GetRowFrom(row: Row, index: nat, targets: seq<Target>): Outcome<seq<Option<SqlValue>>>
    decreases |targets|
  {
    if targets == [] then Ok([])
    else if index >= |row| then Throw(OutOfBounds)
    else
      var v :- GetCell(row[index], targets[0]);
      var vs :- GetRowFrom(row, index + 1, targets[1..]);
      Ok([v] + vs)
  }

  /** The destinations suit the values: of their types, and empty optionals where there may be NULLs. */
  ghost predicate Suits(vs: seq<Option<SqlValue>>, targets: seq<Target>) {
    && |targets| == |vs|
    && forall i :: 0 <= i < |vs| ==>
         if vs[i].Some? then HasType(vs[i].value, targets[i].t)
         else targets[i].Optional? && targets[i].current == None
  }

  lemma {:induction false} GetRowRoundTrip(vs: seq<Option<SqlValue>>, index: nat, targets: seq<Target>)
    requires index <= |vs| && Suits(vs[index..], targets)
    ensures GetRowFrom(ToRow(vs), index, targets) == Ok(vs[index..])
    decreases |targets|
  {
    if targets != [] {
      var v := vs[index];
      assert v == vs[index..][0];
      if v.Some? {
        ValueRoundTrip(v.value, targets[0].t);
      }
      var now, next := vs[index..], vs[index + 1..];
      assert next == now[1..] && forall i {:trigger next[i]} :: 0 <= i < |next| ==> next[i] == now[i + 1];
      GetRowRoundTrip(vs, index + 1, targets[1..]);
      hide ParseAs, Serialize;
      assert [v] + vs[index + 1..] == vs[index..];
    }
  }

  /**
   * Whatever was stored, up to 65535 values with lengths below 2^31, is what the DataRow
   * branch and `get_row` give back: the count, the NULLs and the values.
   */
  lemma ParamsRoundTrip(p: PgParams, targets: seq<Target>)
    requires p.Valid() && p.count < 0x1_0000 && CellsFit(ToRow(p.stored)) && Suits(p.stored, targets)
    ensures ParseRow(p.buffer) == Ok(ToRow(p.stored))
    ensures GetRowFrom(ParseRow(p.buffer).value, 0, targets) == Ok(p.stored)
  {
    RowRoundTripIff(ToRow(p.stored));
    assert p.stored[0..] == p.stored;
    GetRowRoundTrip(p.stored, 0, targets);
    hide ParseRow, GetRowFrom, CellsOnWire;
  }

  // ------------------------------------------------------------ columns

  datatype Column = Column(name: bytes, code: int)

  const COLUMN_NUMBERS: nat := 16  // table, attribute, type and modifier fields

  /** One column, and what follows it. */
  function NextColumn(s: bytes): Outcome<(Column, bytes)> {
    var k := IndexOf(s, 0);
    var p := k + 1 + COLUMN_NUMBERS;
    if |s| < p + 2 then Throw(OutOfBounds) else Ok((Column(s[..k], U16(s[p..])), s[p + 2..]))
  }

  function ParseColumnsFrom(s: bytes, n: nat): Outcome<seq<Column>>
    decreases n
  {
    if n == 0 then Ok([])
    else
      var (column, rest) :- NextColumn(s);
      var columns :- ParseColumnsFrom(rest, n - 1);
      Ok([column] + columns)
  }

  /** The RowDescription branch of `populate_result`. */
  function ParseColumns(body: bytes): Outcome<seq<Column>> {
    if |body| < 2 then Throw(OutOfBounds) else ParseColumnsFrom(body[2..], U16(body))
  }

  /** A column as the backend prints it; `numbers` are the fields the client skips. */
  datatype SentColumn = SentColumn(name: bytes, numbers: bytes, code: int) {
    predicate WellFormed() {
      0 !in name && |numbers| == COLUMN_NUMBERS && 0 <= code < 0x1_0000
    }
  }

  function ColumnsOnWire(cs: seq<SentColumn>, tail: bytes): bytes {
    if cs == [] then tail
    else cs[0].name + ([0] + (cs[0].numbers + (U16Be(cs[0].code) + ColumnsOnWire(cs[1..], tail))))
  }

  function Received(cs: seq<SentColumn>): (r: seq<Column>)
    ensures |r| == |cs| && forall i :: 0 <= i < |cs| ==> r[i] == Column(cs[i].name, cs[i].code)
  {
    if cs == [] then [] else [Column(cs[0].name, cs[0].code)] + Received(cs[1..])
  }

  lemma FirstColumn(c: SentColumn, rest: bytes)
    requires c.WellFormed()
    ensures NextColumn(c.name + ([0] + (c.numbers + (U16Be(c.code) + rest)))) == Ok((Column(c.name, c.code), rest))
  {
    hide U16, U16Be, IndexOf;
    var s := c.name + ([0] + (c.numbers + (U16Be(c.code) + rest)));
    assert s[..|c.name|] == c.name && s[|c.name|] == 0;
    IndexOfUnique(s, 0, |c.name|);
    var front := c.name + [0] + c.numbers;
    assert s == front + (U16Be(c.code) + rest);
    assert s[|front|..] == U16Be(c.code) + rest;
    assert s[|front| + 2..] == rest;
    U16RoundTrip(c.code, rest);
  }

  /** A printed row description is read back: the names and the format codes. */
  lemma {:induction false} ColumnsRoundTrip(cs: seq<SentColumn>, tail: bytes)
    requires forall i :: 0 <= i < |cs| ==> cs[i].WellFormed()
    ensures ParseColumnsFrom(ColumnsOnWire(cs, tail), |cs|) == Ok(Received(cs))
    decreases |cs|
  {
    hide NextColumn, U16Be;
    if cs != [] {
      FirstColumn(cs[0], ColumnsOnWire(cs[1..], tail));
      ColumnsRoundTrip(cs[1..], tail);
    }
  }

  /** The fields of one column as section 55.7 of the documentation has them: only name and format are kept. */
  lemma ColumnIsRead(
    name: bytes, table: bytes, attribute: bytes, kind: bytes, size: bytes, modifier: bytes, code: int, rest: bytes)
    requires 0 !in name && |table| == |kind| == |modifier| == 4 && |attribute| == |size| == 2 && 0 <= code < 0x1_0000
    ensures
      var numbers := table + (attribute + (kind + (size + modifier)));
      NextColumn(name + ([0] + (numbers + (U16Be(code) + rest)))) == Ok((Column(name, code), rest))
  {
    FirstColumn(SentColumn(name, table + (attribute + (kind + (size + modifier))), code), rest);
  }

  lemma PrependNoColumns(a: seq<Column>, s: bytes, r: Outcome<seq<Column>>)
    ensures Prepend([], r) == r
    ensures Prepend(a, ParseColumnsFrom(s, 0)) == Ok(a)
  {
    assert a + [] == a && (r.Ok? ==> [] + r.value == r.value);
  }

  lemma ColumnStep(a: seq<Column>, s: bytes, n: nat)
    requires n > 0
    ensures Prepend(a, ParseColumnsFrom(s, n)) ==
      match NextColumn(s)
      case Throw(e) => Throw(e)
      case Ok((column, rest)) => Prepend(a + [column], ParseColumnsFrom(rest, n - 1))
  {
    hide NextColumn;
    if NextColumn(s).Ok? {
      var (column, rest) := NextColumn(s).value;
      var columns := ParseColumnsFrom(rest, n - 1);
      if columns.Ok? {
        assert a + ([column] + columns.value) == (a + [column]) + columns.value;
      }
    }
  }

  /** The column at an offset into the message, its name ending at k. */
  lemma ColumnAt(body: bytes, p: nat, k: nat)
    requires p <= k <= |body| && (forall j :: p <= j < k ==> body[j] != 0) && (k < |body| ==> body[k] == 0)
    ensures var q := k + 1 + COLUMN_NUMBERS;
      NextColumn(body[p..]) ==
        if |body| < q + 2 then Throw(OutOfBounds)
        else Ok((Column(body[p..k], U16(body[q..])), body[q + 2..]))
  {
    hide U16, IndexOf;
    var s, q := body[p..], k + 1 + COLUMN_NUMBERS;
    assert s[..k - p] == body[p..k];
    IndexOfUnique(s, 0, k - p);
    if |body| >= q + 2 {
      assert s[q - p..] == body[q..] && s[q - p + 2..] == body[q + 2..];
    }
  }

  /** The loop over the columns of a RowDescription message. */
  method ReadColumns(body: bytes) returns (r: Outcome<seq<Column>>)
    ensures r == ParseColumns(body)
  {
    hide ParseColumnsFrom, NextColumn, U16;
    if |body| < 2 {
      return Throw(OutOfBounds);
    }
    var numCols := U16(body);
    var p: nat := 2;
    var columns: seq<Column> := [];
    ghost var whole := ParseColumnsFrom(body[2..], numCols);
    PrependNoColumns(columns, [], whole);
    var i: nat := 0;
    while i < numCols
      invariant i <= numCols && p <= |body|
      invariant whole == Prepend(columns, ParseColumnsFrom(body[p..], numCols - i))
    {
      var nameLen: nat := 0;
      while p + nameLen < |body| && body[p + nameLen] != 0
        invariant p + nameLen <= |body| && forall j :: p <= j < p + nameLen ==> body[j] != 0
      {
        nameLen := nameLen + 1;
      }
      ColumnStep(columns, body[p..], numCols - i);
      ColumnAt(body, p, p + nameLen);
      var name := body[p..p + nameLen];
      p := p + nameLen + 1 + COLUMN_NUMBERS;
      if |body| < p + 2 {
        return Throw(OutOfBounds);
      }
      columns := columns + [Column(name, U16(body[p..]))];
      p := p + 2;
      i := i + 1;
    }
    PrependNoColumns(columns, body[p..], whole);
    return Ok(columns);
  }
}
