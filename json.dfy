/** Python's `None`-or-value and value-or-exception outcomes. */
module Wrappers {

  datatype Option<+T> = None | Some(value: T)

  /** The outcome of a call that either returns `value` or raises an exception described by `error`. */
  datatype Result<+T> = Ok(value: T) | Err(error: string)
}

/** Decoded JSON values, as Python's `json` module hands them to the application. */
module JsonValues {
  import opened Wrappers

  /** A decoded JSON document. Numbers and booleans are kept as the text Python's `str()` gives them. */
  datatype Json =
    | JNull
    | JStr(s: string)
    | JScalar(text: string)
    | JList(items: seq<Json>)
    | JObject(fields: map<string, Json>)

  /** `v[key]` where `v` must be a dict: `None` when the subscript raises (not a dict, or no such key). */
  function Get(v: Json, key: string): (r: Option<Json>)
    ensures r.Some? <==> v.JObject? && key in v.fields
  {
    if v.JObject? && key in v.fields then Some(v.fields[key]) else None
  }

  /** `v[key]` used as a `str` (a method such as `.lower()` is called on it): `None` when that raises. */
  function GetStr(v: Json, key: string): (r: Option<string>)
    ensures r.Some? <==> Get(v, key).Some? && Get(v, key).value.JStr?
    ensures r.Some? ==> Get(v, key) == Some(JStr(r.value))
  {
    match Get(v, key)
    case Some(JStr(s)) => Some(s)
    case _ => None
  }

  /** `key in v` for a dict `v`. */
  predicate HasKey(v: Json, key: string) {
    v.JObject? && key in v.fields
  }

  /** Python's `str(v)` for a decoded value. Lists and dicts render as a fixed marker. */
  function PyStr(v: Json): string {
    match v
    case JNull => "None"
    case JStr(s) => s
    case JScalar(t) => t
    case JList(_) => "[...]"
    case JObject(_) => "{...}"
  }

  /** A dict with exactly the string fields `name` and `hotkey`. */
  function HotkeyObject(name: string, hotkey: string): (v: Json)
    ensures GetStr(v, "name") == Some(name) && GetStr(v, "hotkey") == Some(hotkey)
    ensures v.JObject? && v.fields.Keys == {"name", "hotkey"}
  {
    JObject(map["name" := JStr(name), "hotkey" := JStr(hotkey)])
  }
}
