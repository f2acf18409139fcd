/** Values shared by the descriptor, the compiler, the cache and the builder. */
module Common {

  datatype Option<T> = None | Some(value: T)

  /** A value bound to a placeholder or inlined into a statement (PHP's mixed scalars). */
  datatype Value = Str(s: string) | Int(i: int) | Null

  /** What the database hands back to one of the four fetch calls. */
  datatype Fetched =
    | Scalar(v: Value)                                  // fetchColumn
    | Row(cells: map<string, Value>)                    // fetch(FETCH_ASSOC)
    | Rows(rows: seq<map<string, Value>>)               // fetchAll(FETCH_ASSOC)
    | Keyed(byFirst: map<Value, map<string, Value>>)    // fetchAll(FETCH_ASSOC | FETCH_UNIQUE)

  /** The descriptor fields, used to name the field a frozen setter refused. */
  datatype Field =
    TableField | SelectField | WhereField | WhereArgsField | OrderByField | LimitField
    | OffsetField | JoinField | JoinOnField | CompositeField | FetchTypeField

  /** The exceptions the builder and the descriptor throw. */
  datatype Error =
    | Frozen(field: Field)       // field already set and hash already computed
    | ResultAlreadySet
    | NotConnected               // no database connection
    | MissingTable
    | MissingSelect
    | MissingWhere

  /** Outcome of a call that returns nothing but may throw. */
  datatype Status = Done | Failed(error: Error)

  /** Outcome of a call that returns a value or throws. */
  datatype Result<T> = Ok(value: T) | Err(error: Error)

  /** PHP's string conversion of an optional string: null concatenates as "". */
  function OrEmpty(s: Option<string>): string
  {
    if s.Some? then s.value else ""
  }
}
