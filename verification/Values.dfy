/** SQL values and their types. A DOUBLE is its 64 bits; text is its bytes. */
module Values {
  import opened Basics
  import Dates

  datatype DataType = INT64 | DOUBLE | DATE | STRING

  datatype Value =
    | Null
    | Int64(integer: int)
    | Double(bits: nat)
    | Date(days: int)
    | Text(text: seq<Byte>)

  const I64: int := 0x8000_0000_0000_0000
  const U64: nat := 0x1_0000_0000_0000_0000

  /** Values a column of this type can hold, NULL included. */
  predicate Holds(kind: DataType, v: Value) {
    match v
    case Null => true
    case Int64(i) => kind == INT64 && -I64 <= i < I64
    case Double(bits) => kind == DOUBLE && bits < U64
    case Date(days) => kind == DATE && Dates.ValidDays(days)
    case Text(_) => kind == STRING
  }

  predicate Typed(kinds: seq<DataType>, row: seq<Value>) {
    |row| == |kinds| && forall i :: 0 <= i < |row| ==> Holds(kinds[i], row[i])
  }
}
