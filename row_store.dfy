/** The in-memory table (RowStore): rows kept in insertion order, checked
    against the schema on insert and update, and read, updated and deleted
    by position or by predicate. Predicates and update functions are
    ordinary function values. */
module Store {
  import opened Types
  import opened Seqs

  // ---------------------------------------------------------------------
  // validateRow

  /** One column of validateRow's switch as written. The cases have no
      break, so an INT column falls through to the double and the string
      checks, and a DOUBLE column falls through to the string check. A
      field never holds two alternatives, so exactly one case is left
      acceptable: a string in a STRING column. */
  predicate ColumnAccepts(f: Field, t: Ty): (ok: bool)
    ensures ok <==> t == STRING && HasType(f, t)
  {
    match t
    case INT => f.I? && f.D? && f.S?
    case DOUBLE => f.D? && f.S?
    case STRING => f.S?
  }

  /** The rows validateRow accepts, as written. Whatever the schema, an
      accepted row conforms to it. */
  predicate ValidAsWritten(row: Row, schema: Schema): (ok: bool)
    ensures ok ==> Conforms(row, schema)
  {
    |row| == |schema| && forall i :: 0 <= i < |row| ==> ColumnAccepts(row[i], schema[i].ty)
  }

  /** Every column of the schema is declared STRING. */
  predicate StringsOnly(schema: Schema)
  {
    forall i :: 0 <= i < |schema| ==> schema[i].ty == STRING
  }

  /** validateRow accepts exactly the conforming rows of all-STRING
      schemas: a schema with an INT or DOUBLE column accepts no row. */
  lemma {:induction false} ValidAsWrittenIff(row: Row, schema: Schema)
    ensures ValidAsWritten(row, schema) <==> Conforms(row, schema) && StringsOnly(schema)
  {
    if ValidAsWritten(row, schema) {
      forall i | 0 <= i < |row|
        ensures HasType(row[i], schema[i].ty) && schema[i].ty == STRING
      {
        assert ColumnAccepts(row[i], schema[i].ty);
      }
    }
    if Conforms(row, schema) && StringsOnly(schema) {
      forall i | 0 <= i < |row|
        ensures ColumnAccepts(row[i], schema[i].ty)
      {
        assert HasType(row[i], schema[i].ty) && schema[i].ty == STRING;
      }
    }
  }

  /** A row of the wrong length is refused whatever it holds. */
  lemma LengthMismatchRejected(row: Row, schema: Schema)
    requires |row| != |schema|
    ensures !ValidAsWritten(row, schema)
  {
  }

  /** The schema of the unit tests: id INT, name STRING, score DOUBLE. */
  const TEST_SCHEMA: Schema := [Column("id", INT), Column("name", STRING), Column("score", DOUBLE)]

  /** The row (1, "Alice", 95.5) conforms to the test schema, yet validateRow
      as written refuses it (95.5 is the IEEE-754 pattern 0x4057E00000000000). */
  lemma TestRowRejected()
    ensures var row := [I(1), S([65, 108, 105, 99, 101]), D(0x4057E00000000000)];
      Conforms(row, TEST_SCHEMA) && !ValidAsWritten(row, TEST_SCHEMA)
  {
    var row: Row := [I(1), S([65, 108, 105, 99, 101]), D(0x4057E00000000000)];
    assert TEST_SCHEMA[0].ty == INT;
  }

  // ---------------------------------------------------------------------
  // Specifications of the bulk operations

  /** The rows updateWhere replaces: the predicate holds and the
      replacement passes validateRow. */
  function Replaces(p: Row -> bool, f: Row -> Row, schema: Schema): Row -> bool
  {
    r => p(r) && ValidAsWritten(f(r), schema)
  }

  /** What updateWhere leaves at one position. */
  function UpdatedRow(r: Row, p: Row -> bool, f: Row -> Row, schema: Schema): Row
  {
    if Replaces(p, f, schema)(r) then f(r) else r
  }

  /** The table after updateWhere: every row is updated in its own place. */
  function UpdatedRows(data: TableData, p: Row -> bool, f: Row -> Row, schema: Schema): (r: TableData)
    ensures |r| == |data|
  {
    seq(|data|, j requires 0 <= j < |data| => UpdatedRow(data[j], p, f, schema))
  }

  /** Only rows satisfying the predicate are ever replaced, so updateWhere
      reports at most as many as select would return. */
  lemma UpdateCountBound(data: TableData, p: Row -> bool, f: Row -> Row, schema: Schema)
    ensures |Filter(data, Replaces(p, f, schema))| <= |Filter(data, p)|
  {
    FilterStronger(data, Replaces(p, f, schema), p);
  }

  /** A table of rows validateRow accepts stays so under updateWhere. */
  lemma UpdateKeepsValid(data: TableData, p: Row -> bool, f: Row -> Row, schema: Schema)
    requires forall j :: 0 <= j < |data| ==> ValidAsWritten(data[j], schema)
    ensures forall j :: 0 <= j < |data| ==> ValidAsWritten(UpdatedRows(data, p, f, schema)[j], schema)
  {
  }

  /** When no row matches, updateWhere changes nothing and reports 0. */
  lemma UpdateNoMatch(data: TableData, p: Row -> bool, f: Row -> Row, schema: Schema)
    requires forall j :: 0 <= j < |data| ==> !p(data[j])
    ensures UpdatedRows(data, p, f, schema) == data
    ensures Filter(data, Replaces(p, f, schema)) == []
  {
    FilterNone(data, Replaces(p, f, schema));
  }

  /** One more position of updateWhere's loop. */
  lemma UpdateStep(data: TableData, i: nat, p: Row -> bool, f: Row -> Row, schema: Schema)
    requires i < |data|
    ensures |Filter(data[..i + 1], Replaces(p, f, schema))|
      == |Filter(data[..i], Replaces(p, f, schema))| + (if Replaces(p, f, schema)(data[i]) then 1 else 0)
  {
    TakeSnoc(data, i);
    FilterConcat(data[..i], [data[i]], Replaces(p, f, schema));
  }

  /** Position i of updateWhere's loop: the rows before it are updated,
      those from it on are still the original ones. */
  lemma UpdateInPlace(t: TableData, data: TableData, i: nat, p: Row -> bool, f: Row -> Row, schema: Schema)
    requires i < |data| && t == UpdatedRows(data[..i], p, f, schema) + data[i..]
    ensures t[i] == data[i] && t[i := data[i]] == t
    ensures t[i := UpdatedRow(data[i], p, f, schema)] == UpdatedRows(data[..i + 1], p, f, schema) + data[i + 1..]
  {
    var u := UpdatedRows(data[..i + 1], p, f, schema) + data[i + 1..];
    assert |u| == |t|;
    forall j | 0 <= j < |t|
      ensures t[i := UpdatedRow(data[i], p, f, schema)][j] == u[j]
    {
      if j < i {
        assert data[..i + 1][j] == data[..i][j];
      }
    }
  }

  /** The table after erasing position i: later rows move down by one. */
  function RemoveAt(data: TableData, i: nat): (r: TableData)
    requires i < |data|
    ensures |r| == |data| - 1
    ensures forall j :: 0 <= j < |r| ==> r[j] == (if j < i then data[j] else data[j + 1])
  {
    data[..i] + data[i + 1..]
  }

  /** After deleteWhere no remaining row satisfies the predicate. */
  lemma DeletedNoneMatch(data: TableData, p: Row -> bool)
    ensures Filter(Filter(data, Complement(p)), p) == []
  {
    var kept := Filter(data, Complement(p));
    forall i | 0 <= i < |kept|
      ensures !p(kept[i])
    {
      FilterMembers(data, Complement(p), kept[i]);
    }
    FilterNone(kept, p);
  }

  /** deleteWhere keeps exactly the rows that do not satisfy the predicate,
      and select and deleteWhere split the table between them. */
  lemma DeleteWhereSplits(data: TableData, p: Row -> bool)
    ensures forall r :: r in Filter(data, Complement(p)) <==> r in data && !p(r)
    ensures |Filter(data, p)| + |Filter(data, Complement(p))| == |data|
  {
    forall r
      ensures r in Filter(data, Complement(p)) <==> r in data && !p(r)
    {
      FilterMembers(data, Complement(p), r);
    }
    FilterPartition(data, p);
  }

  // ---------------------------------------------------------------------
  // The store

  class RowStore {
    const schema: Schema
    /** The rows, in insertion order. */
    var tableData: TableData

    constructor (schema: Schema)
      ensures this.schema == schema && tableData == []
    {
      this.schema := schema;
      tableData := [];
    }

    /** validateRow: the length check, then each column's switch with its
        fall-through into the checks of the following cases. */
    method ValidateRow(row: Row) returns (ok: bool)
      ensures ok == ValidAsWritten(row, schema)
    {
      if |row| != |schema| {
        return false;
      }
      var i := 0;
      while i < |schema|
        invariant 0 <= i <= |schema|
        invariant forall j :: 0 <= j < i ==> ColumnAccepts(row[j], schema[j].ty)
      {
        var t := schema[i].ty;
        if t == INT && !row[i].I? {
          return false;
        }
        if (t == INT || t == DOUBLE) && !row[i].D? {
          return false;
        }
        if !row[i].S? {
          return false;
        }
        i := i + 1;
      }
      return true;
    }

    /** loadData: the contents are replaced wholesale, unchecked. */
    method LoadData(data: TableData)
      modifies this
      ensures tableData == data
    {
      tableData := data;
    }

    method Clear()
      modifies this
      ensures tableData == []
    {
      tableData := [];
    }

    function RowCount(): nat
      reads this
    {
      |tableData|
    }

    /** insert: appends a row validateRow accepts; refuses any other and
        leaves the table as it was. */
    method Insert(row: Row) returns (ok: bool)
      modifies this
      ensures ok == ValidAsWritten(row, schema)
      ensures ok ==> tableData == old(tableData) + [row] && RowCount() == old(RowCount()) + 1
      ensures ok ==> GetRow(old(RowCount())) == Some(row)
      ensures ok ==> forall j: nat :: j < old(RowCount()) ==> GetRow(j) == old(GetRow(j))
      ensures !ok ==> tableData == old(tableData)
    {
      ok := ValidateRow(row);
      if ok {
        tableData := tableData + [row];
      }
    }

    /** getRow: the row at index, or nothing past the end. */
    function GetRow(index: nat): (r: Option<Row>)
      reads this
      ensures r.Some? <==> index < RowCount()
      ensures r.Some? ==> r.value == tableData[index]
    {
      if index >= |tableData| then None else Some(tableData[index])
    }

    /** select: the rows satisfying p, in table order; the table is untouched. */
    method Select(p: Row -> bool) returns (result: TableData)
      ensures result == Filter(tableData, p)
      ensures forall r :: r in result <==> r in tableData && p(r)
    {
      result := [];
      var i := 0;
      while i < |tableData|
        invariant 0 <= i <= |tableData|
        invariant result == Filter(tableData[..i], p)
      {
        TakeSnoc(tableData, i);
        FilterConcat(tableData[..i], [tableData[i]], p);
        if p(tableData[i]) {
          result := result + [tableData[i]];
        }
        i := i + 1;
      }
      assert tableData[..i] == tableData;
      forall r
        ensures r in result <==> r in tableData && p(r)
      {
        FilterMembers(tableData, p, r);
      }
    }

    /** update: replaces the row at index by a row validateRow accepts;
        otherwise refuses and leaves the table as it was. */
    method Update(index: nat, newRow: Row) returns (ok: bool)
      modifies this
      ensures ok <==> index < |old(tableData)| && ValidAsWritten(newRow, schema)
      ensures ok ==> tableData == old(tableData)[index := newRow]
      ensures ok ==> GetRow(index) == Some(newRow)
      ensures ok ==> forall j: nat :: j != index ==> GetRow(j) == old(GetRow(j))
      ensures !ok ==> tableData == old(tableData)
    {
      if index >= |tableData| {
        return false;
      }
      ok := ValidateRow(newRow);
      if ok {
        tableData := tableData[index := newRow];
      }
    }

    /** One round of updateWhere's loop: the row at position i is replaced
        by f of it when p holds of it and validateRow accepts the result. */
    method UpdateAt(i: nat, p: Row -> bool, f: Row -> Row, ghost data: TableData) returns (replaced: bool)
      requires i < |data| && tableData == UpdatedRows(data[..i], p, f, schema) + data[i..]
      modifies this
      ensures replaced == Replaces(p, f, schema)(data[i])
      ensures tableData == UpdatedRows(data[..i + 1], p, f, schema) + data[i + 1..]
    {
      UpdateInPlace(tableData, data, i, p, f, schema);
      replaced := false;
      var row := tableData[i];
      if p(row) {
        var newRow := f(row);
        var valid := ValidateRow(newRow);
        if valid {
          tableData := tableData[i := newRow];
          replaced := true;
        }
      }
    }

    /** updateWhere: each row satisfying p is replaced in place by f of it
        when that passes validateRow; the result counts the replacements. */
    method UpdateWhere(p: Row -> bool, f: Row -> Row) returns (count: nat)
      modifies this
      ensures tableData == UpdatedRows(old(tableData), p, f, schema)
      ensures count == |Filter(old(tableData), Replaces(p, f, schema))|
    {
      ghost var data := tableData;
      count := 0;
      var i := 0;
      while i < |tableData|
        invariant 0 <= i <= |data| && |tableData| == |data|
        invariant tableData == UpdatedRows(data[..i], p, f, schema) + data[i..]
        invariant count == |Filter(data[..i], Replaces(p, f, schema))|
      {
        UpdateStep(data, i, p, f, schema);
        var replaced := UpdateAt(i, p, f, data);
        if replaced {
          count := count + 1;
        }
        i := i + 1;
      }
      assert data[..i] == data && data[i..] == [];
      assert tableData == UpdatedRows(data, p, f, schema) + [];
    }

    /** deleteRow: erases the row at index, moving the later rows down;
        past the end it refuses and leaves the table as it was. */
    method DeleteRow(index: nat) returns (ok: bool)
      modifies this
      ensures ok <==> index < |old(tableData)|
      ensures ok ==> tableData == RemoveAt(old(tableData), index) && RowCount() == old(RowCount()) - 1
      ensures ok ==> forall j: nat :: j < index ==> GetRow(j) == old(GetRow(j))
      ensures ok ==> forall j: nat :: index <= j ==> GetRow(j) == old(GetRow(j + 1))
      ensures !ok ==> tableData == old(tableData)
    {
      if index >= |tableData| {
        return false;
      }
      tableData := tableData[..index] + tableData[index + 1..];
      return true;
    }

    /** deleteWhere: the stable erase-remove_if, keeping the rows p rejects
        in order; the result is the number of rows removed. */
    method DeleteWhere(p: Row -> bool) returns (count: nat)
      modifies this
      ensures tableData == Filter(old(tableData), Complement(p))
      ensures count == |Filter(old(tableData), p)|
    {
      var initialSize := |tableData|;
      FilterPartition(tableData, p);
      tableData := Filter(tableData, Complement(p));
      count := initialSize - |tableData|;
    }
  }
}
