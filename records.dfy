/**
 * Catalog records as the table engine and the editor see them: a JSON
 * object whose values are absent, a scalar (its String() text) or an
 * array of strings (multi-valued fields such as Category, WI, Partners).
 */
module Records {
  import opened SeqUtil

  /** The value `row[col]` reads: undefined, a scalar, or an array of strings. */
  datatype Cell = Missing | Scalar(text: string) | Multi(items: seq<string>)

  /** A JSON object: its keys in Object.keys order and its values. */
  datatype Record = Record(keys: seq<string>, fields: map<string, Cell>) {

    /** Each key listed once, and exactly the keys that have a value. */
    ghost predicate WellFormed() {
      Distinct(keys) && (forall k :: k in fields <==> k in keys)
    }

    /** `row[key]`: undefined when the key is absent. */
    function Get(key: string): Cell {
      if key in fields then fields[key] else Missing
    }

    /** `row[key] = c` and `{...row, [key]: c}`: an existing key keeps its place, a new one goes last. */
    function Set(key: string, c: Cell): (r: Record)
      ensures r.Get(key) == c
      ensures forall k :: k != key ==> r.Get(k) == Get(k)
      ensures WellFormed() ==> r.WellFormed()
      ensures key in fields ==> r.keys == keys
      ensures key !in fields ==> r.keys == keys + [key]
    {
      var r := Record(if key in fields then keys else keys + [key], fields[key := c]);
      assert WellFormed() && key !in fields ==> Distinct(r.keys) by {
        if WellFormed() && key !in fields {
          forall i, j | 0 <= i < j < |r.keys| ensures r.keys[i] != r.keys[j] {
            if j == |keys| {
              assert r.keys[i] == keys[i] && keys[i] in fields;
            }
          }
        }
      }
      r
    }
  }

  /** `{}` */
  const EmptyRecord: Record := Record([], map[])

  /** `String(cell ?? '')` and `(cell || '').toString()`: an array is joined with commas. */
  function DisplayText(c: Cell): string {
    match c
    case Missing => ""
    case Scalar(t) => t
    case Multi(items) => Join(items, ",")
  }

  /** JavaScript truthiness of a cell: undefined and the empty string are falsy, arrays are truthy. */
  predicate Truthy(c: Cell) {
    match c
    case Missing => false
    case Scalar(t) => t != ""
    case Multi(_) => true
  }

  /** A single value of a column, as the value pickers collect them. */
  datatype Value = Undef | Str(s: string)

  /** `Array.isArray(v) ? v : [v]`: the values a cell contributes to its column. */
  function CellValues(c: Cell): (r: seq<Value>)
    ensures c.Multi? ==> |r| == |c.items| && forall i :: 0 <= i < |r| ==> r[i] == Str(c.items[i])
    ensures c.Scalar? ==> r == [Str(c.text)]
    ensures c.Missing? ==> r == [Undef]
  {
    match c
    case Missing => [Undef]
    case Scalar(t) => [Str(t)]
    case Multi(items) => seq(|items|, i requires 0 <= i < |items| => Str(items[i]))
  }

  /** `rows.flatMap(r => Array.isArray(r[col]) ? r[col] : [r[col]])`. */
  function ColumnValues(rows: seq<Record>, col: string): (r: seq<Value>)
    ensures forall v :: v in r <==> exists row :: row in rows && v in CellValues(row.Get(col))
  {
    if rows == [] then []
    else
      assert forall row :: row in rows <==> row == rows[0] || row in rows[1..];
      CellValues(rows[0].Get(col)) + ColumnValues(rows[1..], col)
  }
}
