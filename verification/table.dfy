/** The tabular data the application works on: a row maps column names to
    scalar cells, and a dataset is an ordered sequence of rows. */
module Table {

  /** One cell of a pandas frame. `Missing` stands for NaN/None. */
  datatype Value = Num(x: real) | Text(s: string) | Flag(b: bool) | Missing

  datatype Option<T> = None | Some(value: T)

  type Column = string

  /** A row keyed by column name; a column the row lacks reads as `Missing`. */
  type Row = map<Column, Value>

  /** How a number is printed by `str(...)`; left uninterpreted. */
  type Fmt = real -> string

  /** The cell of `row` in `col`, `Missing` when the row has no such column
      (the `row.get(column, None)` access). */
  function Cell(row: Row, col: Column): (v: Value)
    ensures col !in row ==> v == Missing
    ensures col in row ==> v == row[col]
  {
    if col in row then row[col] else Missing
  }

  /** `str(v)` as `astype(str)` produces it: NaN prints as "nan", booleans as
      "True"/"False", text as itself. */
  function Str(v: Value, fmt: Fmt): string {
    match v
    case Num(x) => fmt(x)
    case Text(s) => s
    case Flag(b) => if b then "True" else "False"
    case Missing => "nan"
  }

  /** Python truthiness of a cell, as `if value:` reads it; NaN is truthy. */
  predicate Truthy(v: Value) {
    match v
    case Num(x) => x != 0.0
    case Text(s) => s != ""
    case Flag(b) => b
    case Missing => true
  }

  /** pandas element-wise `==`: NaN equals nothing, not even NaN. */
  predicate Equal(a: Value, b: Value) {
    a != Missing && a == b
  }

  /** True iff `wide` keeps every column of `narrow` with the same cell. */
  predicate Extends(wide: Row, narrow: Row) {
    forall c :: c in narrow ==> c in wide && wide[c] == narrow[c]
  }
}
