/** JSON values as `JSON.parse` produces them, and JavaScript truthiness,
    which decides every `if (x)` and `!x` test in the modelled code. */
module Json {
  import opened Wrappers

  datatype Json =
    | JNull
    | JBool(b: bool)
    | JNum(n: real)
    | JStr(s: string)
    | JArr(items: seq<Json>)
    | JObj(fields: map<string, Json>)

  /** A JSON value is falsy exactly when it is null, false, 0 or "". */
  predicate Truthy(v: Json) {
    match v
    case JNull => false
    case JBool(b) => b
    case JNum(n) => n != 0.0
    case JStr(s) => s != ""
    case JArr(_) => true
    case JObj(_) => true
  }

  /** `v.name` on a parsed value: a missing property reads as `undefined`. */
  function Property(v: Json, name: string): Option<Json> {
    if v.JObj? && name in v.fields then Some(v.fields[name]) else None
  }

  /** Truthiness of a property read, `undefined` being falsy. */
  predicate TruthyProperty(v: Json, name: string) {
    match Property(v, name)
    case None => false
    case Some(p) => Truthy(p)
  }
}

/** The outcome of an HTTP call made through axios or fetch: the server's
    status code and body, or a network-level failure with its message. */
module Http {
  import opened Json

  datatype Reply = Reply(status: int, data: Json) | NetworkError(message: string)

  /** axios resolves only for 2xx statuses and rejects for every other one. */
  predicate AxiosResolves(r: Reply) {
    r.Reply? && 200 <= r.status < 300
  }
}
