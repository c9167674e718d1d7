/** JSON values as Python's `json` module hands them over: objects become dicts,
    arrays lists. Numbers are kept as reals; nothing here does arithmetic on them. */
module Json {
  import opened Wrappers

  datatype Json =
    | JNull
    | JBool(b: bool)
    | JNum(x: real)
    | JStr(s: string)
    | JArr(items: seq<Json>)
    | JObj(fields: map<string, Json>)

  /** A JSON object: a Python dict with string keys. */
  type Object = map<string, Json>

  /** `obj.get(key)` */
  function Get(o: Object, key: string): Option<Json> {
    if key in o then Some(o[key]) else None
  }

  /** `[x for x in items if isinstance(x, dict)]` */
  function ObjectsIn(items: seq<Json>): (r: seq<Object>)
    ensures |r| <= |items|
    ensures forall o :: o in r <==> JObj(o) in items
    decreases |items|
  {
    if items == [] then []
    else (if items[0].JObj? then [items[0].fields] else []) + ObjectsIn(items[1..])
  }
}
