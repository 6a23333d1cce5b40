/** The typed-cell model: column types, fields, rows and schemas. */
module Types {
  import opened Bytes

  datatype Option<T> = None | Some(value: T)

  /** The three column types a schema may declare. */
  datatype Ty = INT | DOUBLE | STRING

  datatype Column = Column(name: string, ty: Ty)

  /** Ordered column declarations; never stored in the file. */
  type Schema = seq<Column>

  /** A cell holds one alternative: a 32-bit int, a double (kept as its
      64-bit IEEE-754 pattern and never computed with) or the raw bytes of
      a string. */
  datatype Field = I(i: int32) | D(bits: uint64) | S(text: seq<byte>)

  type Row = seq<Field>

  type TableData = seq<Row>

  /** The field holds exactly the alternative the type names. */
  predicate HasType(f: Field, t: Ty)
  {
    match t
    case INT => f.I?
    case DOUBLE => f.D?
    case STRING => f.S?
  }

  /** The row has one field per column, each of the declared type. */
  predicate Conforms(row: Row, schema: Schema)
  {
    |row| == |schema| && forall i :: 0 <= i < |row| ==> HasType(row[i], schema[i].ty)
  }
}
