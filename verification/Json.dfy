/** JSON values as Python's `json` module reads them. */
module Json {
  datatype Json =
    | Null
    | Bool(b: bool)
    | Int(i: int)
    | Float(r: real)
    | Str(s: string)
    | Arr(items: seq<Json>)
    | Obj(fields: map<string, Json>)
  {
    /** `value.get(key)`, with None for an absent key. */
    function Get(key: string): Json
      requires Obj?
    {
      if key in fields then fields[key] else Null
    }

    predicate Has(key: string) {
      Obj? && key in fields
    }
  }
}
