/** Values of the list items the grid shows, and the per-column configuration
    an author edits in the web part's property pane. */
module Records {

  datatype Option<T> = None | Some(value: T)

  /** A value held under one key of a fetched list item. `Null` also stands
      for a key the item does not have (`undefined` when read). `Obj` is any
      object-valued field (a lookup, a person), whose contents the grid never
      inspects. */
  datatype Value = Null | Bool(b: bool) | Num(n: real) | Str(s: string) | Obj

  /** A fetched list item: field key to value. */
  type Record = map<string, Value>

  /** `item[key]`: a missing key reads as `Null`. */
  function Lookup(item: Record, key: string): (v: Value)
    ensures key !in item ==> v == Null
    ensures key in item ==> v == item[key]
  {
    if key in item then item[key] else Null
  }

  /** JavaScript truthiness of a value (NaN is not modelled). */
  predicate Truthy(v: Value)
  {
    match v
    case Null => false
    case Bool(b) => b
    case Num(n) => n != 0.0
    case Str(s) => s != ""
    case Obj => true
  }

  /** One configured column: its heading, the item key it shows, the key it
      groups by (empty when it does not group), its width in percent and its
      position in the display order. */
  datatype SelectedField = SelectedField(
    title: string,
    field: string,
    groupByField: string,
    width: real,
    sortIdx: int)
}
