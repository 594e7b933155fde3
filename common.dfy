/**
 * Values shared by the storage engine and the statement executor: the typed
 * column values, the dictionaries built from them, the error kinds the engine
 * raises, and the Result/Outcome wrappers that stand for its exceptions.
 */
module Values {

  /** The source's `int32_t` (Value::n, the 4-byte INT column). */
  newtype int32 = x: int | -0x8000_0000 <= x < 0x8000_0000

  /** The parser's `int64_t` (Expr::ival). */
  newtype int64 = x: int | -0x8000_0000_0000_0000 <= x < 0x8000_0000_0000_0000

  /** Narrowing `int64_t` to `int32_t` keeps the low 32 bits (two's complement). */
  function ToInt32(i: int64): (r: int32)
    ensures r as int % 0x1_0000_0000 == i as int % 0x1_0000_0000
    ensures -0x8000_0000 <= i as int < 0x8000_0000 ==> r as int == i as int
  {
    var low := i as int % 0x1_0000_0000;
    (if low < 0x8000_0000 then low else low - 0x1_0000_0000) as int32
  }

  /** One byte of a block or of a marshalled row. */
  newtype byte = b: int | 0 <= b < 0x100

  type Identifier = string

  /** ColumnAttribute::DataType */
  datatype DataType = INT | TEXT | BOOLEAN

  /**
   * A column value: a type tag beside both payloads, the way the source's
   * Value struct carries `data_type`, `n` and `s` side by side.
   */
  datatype Value = Value(dataType: DataType, n: int32, s: string)

  function IntValue(n: int32): Value { Value(INT, n, "") }
  function TextValue(s: string): Value { Value(TEXT, 0, s) }
  /** A BOOLEAN keeps its truth value in `n` (0 is false), as the printer reads it. */
  function BoolValue(b: bool): Value { Value(BOOLEAN, if b then 1 else 0, "") }

  /** ColumnAttribute: the declared type of one column. */
  datatype ColumnAttribute = ColumnAttribute(dataType: DataType)

  /** Column name to value: a row, an equality predicate or a catalog row. */
  type ValueDict = map<Identifier, Value>

  /** The exception classes the modelled code throws, with their messages. */
  datatype DbError =
    | DbBlockNoRoomError(msg: string)
    | DbRelationError(msg: string)
    | SQLExecError(msg: string)

  datatype Result<+T> = Success(value: T) | Failure(error: DbError) {
    predicate IsFailure() { Failure? }
    function PropagateFailure<U>(): Result<U>
      requires Failure?
    {
      Failure(error)
    }
    function Extract(): T
      requires Success?
    {
      value
    }
  }

  datatype Outcome = Pass | Fail(error: DbError)

  datatype Option<+T> = None | Some(value: T)
}
