/**
 * Decoded JSON request bodies, and the few Python operations the grade
 * handler applies to them: truth testing, the `in` operator and binding a
 * value as an SQLite parameter.
 */
module JsonValues {
  import opened Optional

  /** A decoded JSON value. JSON numbers, integral or not, are modelled as reals. */
  datatype Json =
    | JNull
    | JBool(b: bool)
    | JNum(n: real)
    | JStr(s: string)
    | JArray(items: seq<Json>)
    | JObject(fields: map<string, Json>)

  /** Python's truth value of the decoded value (`if not v: ...`). */
  predicate Truthy(v: Json) {
    match v
    case JNull => false
    case JBool(b) => b
    case JNum(n) => n != 0.0
    case JStr(s) => s != ""
    case JArray(items) => items != []
    case JObject(fields) => fields != map[]
  }

  /** Python's `key in s` on two strings: `key` occurs as a contiguous part of `s`. */
  predicate IsSubstring(key: string, s: string)
    decreases |s|
  {
    key <= s || (s != [] && IsSubstring(key, s[1..]))
  }

  /**
   * Python's `key in container` for a string key. `None` stands for the
   * TypeError Python raises when the container is None, a bool or a number.
   */
  function Contains(container: Json, key: string): Option<bool> {
    match container
    case JObject(fields) => Some(key in fields)
    case JArray(items) => Some(JStr(key) in items)
    case JStr(s) => Some(IsSubstring(key, s))
    case _ => None
  }

  /** Values the sqlite3 module can bind as a statement parameter. */
  predicate Bindable(v: Json) {
    v.JNull? || v.JBool? || v.JNum? || v.JStr?
  }
}
