/** JSON values as the Python code sees them: objects are dictionaries, so key order is not part of the value. */
module Json {

  datatype Json =
    | Null
    | Bool(b: bool)
    | Num(n: real)
    | Str(s: string)
    | Arr(items: seq<Json>)
    | Obj(fields: map<string, Json>)
  {
    /** `isinstance(node.get(key), str)` */
    predicate HasString(key: string) {
      Obj? && key in fields && fields[key].Str?
    }

    function StringAt(key: string): string
      requires HasString(key)
    {
      fields[key].s
    }
  }
}
