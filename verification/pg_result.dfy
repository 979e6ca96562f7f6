/** The result of one command, as the message loops build it and as callers read it. */
module PgResults {
  import opened Bytes
  import opened PgValues

  datatype ResultType = PENDING | SUCCESS | SUSPENDED | ERROR

  /** What a result holds. */
  datatype ResultValue = ResultValue(tag: bytes, columns: seq<Column>, rows: seq<Row>, kind: ResultType)

  const EMPTY_RESULT: ResultValue := ResultValue([], [], [], PENDING)

  class PgResult {
    var tag: bytes
    var columns: seq<Column>
    var rows: seq<Row>
    var kind: ResultType

    function Value(): ResultValue
      reads this
    {
      ResultValue(tag, columns, rows, kind)
    }

    constructor ()
      ensures Value() == EMPTY_RESULT
    {
      tag, columns, rows, kind := [], [], [], PENDING;
    }

    method SetError()
      modifies this
      ensures Value() == old(Value()).(kind := ERROR)
    {
      kind := ERROR;
    }

    method SetSuspended()
      modifies this
      ensures Value() == old(Value()).(kind := SUSPENDED)
    {
      kind := SUSPENDED;
    }

    method SetCommandTag(tag: bytes)
      modifies this
      ensures Value() == old(Value()).(tag := tag, kind := SUCCESS)
    {
      this.tag := tag;
      kind := SUCCESS;
    }

    method AddColumns(more: seq<Column>)
      modifies this
      ensures Value() == old(Value()).(columns := old(columns) + more)
    {
      columns := columns + more;
    }

    method AddRow(row: Row)
      modifies this
      ensures Value() == old(Value()).(rows := old(rows) + [row])
    {
      rows := rows + [row];
    }

    /**
     * `get_row` into its reference arguments, from the first column on.  When it throws,
     * the arguments before the offending one have been written already.
     */
    method GetRow(rowIndex: nat, targets: seq<Target>, dest: array<Option<SqlValue>>) returns (r: Outcome<()>)
      requires dest.Length == |targets|
      requires forall i :: 0 <= i < |targets| && targets[i].Optional? ==> targets[i].current == dest[i]
      modifies dest
      ensures rowIndex >= |rows| ==> r == Throw(OutOfBounds) && dest[..] == old(dest[..])
      ensures rowIndex < |rows| ==>
        match GetRowFrom(rows[rowIndex], 0, targets)
        case Ok(vs) => r.Ok? && dest[..] == vs
        case Throw(e) => r == Throw(e)
      ensures r.Throw? && rowIndex < |rows| ==>
        exists k | 0 <= k < |targets| ::
          && (forall i :: k <= i < |targets| ==> dest[i] == old(dest[i]))
          && (k < |rows[rowIndex]| ==> GetCell(rows[rowIndex][k], targets[k]) == Throw(r.error))
          && k <= |rows[rowIndex]|
          && (forall i :: 0 <= i < k ==> GetCell(rows[rowIndex][i], targets[i]) == Ok(dest[i]))
    {
      if rowIndex >= |rows| {
        return Throw(OutOfBounds);
      }
      hide GetCell, GetRowFrom;
      var row := rows[rowIndex];
      ghost var whole := GetRowFrom(row, 0, targets);
      var i := 0;
      assert targets[0..] == targets;
      AppendNothing(whole);
      while i < |targets|
        invariant 0 <= i <= |targets| && i <= |row|
        invariant whole == Prepend(dest[..i], GetRowFrom(row, i, targets[i..]))
        invariant forall j :: i <= j < |targets| ==> dest[j] == old(dest[j])
        invariant forall j :: 0 <= j < i ==> GetCell(row[j], targets[j]) == Ok(dest[j])
      {
        GetRowTurn(dest[..i], row, i, targets);
        if i >= |row| {
          return Throw(OutOfBounds);
        }
        var v := GetCell(row[i], targets[i]);
        if v.Throw? {
          return Throw(v.error);
        }
        ghost var before := dest[..i];
        dest[i] := v.value;
        assert dest[..i + 1] == before + [v.value];
        i := i + 1;
      }
      GetRowEnd(dest[..i], row, i, targets);
      assert dest[..i] == dest[..];
      return Ok(());
    }
  }

  lemma AppendNothing(r: Outcome<seq<Option<SqlValue>>>)
    ensures Prepend([], r) == r
  {
    assert r.Ok? ==> [] + r.value == r.value;
  }

  lemma GetRowEnd(front: seq<Option<SqlValue>>, row: Row, i: nat, targets: seq<Target>)
    requires i == |targets|
    ensures Prepend(front, GetRowFrom(row, i, targets[i..])) == Ok(front)
  {
    assert targets[i..] == [] && front + [] == front;
  }

  lemma GetRowTurn(front: seq<Option<SqlValue>>, row: Row, i: nat, targets: seq<Target>)
    requires i < |targets|
    ensures i >= |row| ==> Prepend(front, GetRowFrom(row, i, targets[i..])) == Throw(OutOfBounds)
    ensures i < |row| ==>
      match GetCell(row[i], targets[i])
      case Throw(e) => Prepend(front, GetRowFrom(row, i, targets[i..])) == Throw(e)
      case Ok(v) =>
        Prepend(front, GetRowFrom(row, i, targets[i..]))
        == Prepend(front + [v], GetRowFrom(row, i + 1, targets[i + 1..]))
  {
    hide GetCell;
    assert targets[i..][0] == targets[i] && targets[i..][1..] == targets[i + 1..];
    if i < |row| && GetCell(row[i], targets[i]).Ok? {
      var v := GetCell(row[i], targets[i]).value;
      var vs := GetRowFrom(row, i + 1, targets[i + 1..]);
      if vs.Ok? {
        assert front + ([v] + vs.value) == (front + [v]) + vs.value;
      }
    }
  }
}
