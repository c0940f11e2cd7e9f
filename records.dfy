/**
  The data model shared by the parsers and the aggregators: a cell value is
  a string, a number or `null`, and a row is a JavaScript object mapping
  column names to values, whose keys keep their insertion order.
 */
module Records {
  import opened JsText
  import opened JsNumber

  datatype Value = Str(s: string) | Num(n: real) | Null

  /** A row: its keys in insertion order and the value under each key. */
  datatype Row = Row(keys: seq<string>, cells: map<string, Value>)

  /** A dataset: rows in source line order. */
  type Dataset = seq<Row>

  predicate DistinctKeys(keys: seq<string>) {
    forall i, j :: 0 <= i < j < |keys| ==> keys[i] != keys[j]
  }

  /** What every JavaScript object satisfies: each key is listed once, and
      the listed keys are exactly the keys that hold a value. */
  predicate WellFormed(r: Row) {
    && DistinctKeys(r.keys)
    && (forall k :: k in r.cells ==> k in r.keys)
    && (forall k :: k in r.keys ==> k in r.cells)
  }

  /** The object literal `{}`. */
  function EmptyRow(): (r: Row)
    ensures WellFormed(r) && r.keys == [] && r.cells == map[]
  {
    Row([], map[])
  }

  /** `row[key] = v`: a new key is appended to the key order, an existing key
      keeps its place and takes the new value. */
  function Assign(r: Row, key: string, v: Value): (r': Row)
    ensures r'.cells == r.cells[key := v]
    ensures key in r.cells ==> r'.keys == r.keys
    ensures key !in r.cells ==> r'.keys == r.keys + [key]
    ensures WellFormed(r) ==> WellFormed(r')
  {
    if key in r.cells then Row(r.keys, r.cells[key := v])
    else Row(r.keys + [key], r.cells[key := v])
  }

  /** `String(v)`: a string as it is, a number in decimal, `null` as the
      four letters "null". */
  function CellText(v: Value): string {
    match v
    case Str(s) => s
    case Num(n) => NumberText(n)
    case Null => "null"
  }
}
