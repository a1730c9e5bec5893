/** A parsed JSON value and the few JavaScript operations the message
    handler applies to it: truthiness, property reads, `constructor === Array`
    and strict equality. */
module Json {
  import opened Wrappers
  import Decimal

  /** The result of `JSON.parse`. Objects are maps because `JSON.parse` keeps
      only the last of duplicate keys. */
  datatype Json =
    | JNull
    | JBool(b: bool)
    | JNum(n: real)
    | JStr(s: string)
    | JArr(items: seq<Json>)
    | JObj(fields: map<string, Json>)

  /** JavaScript truthiness of a property read (`None` is `undefined`). JSON
      has no NaN, so the falsy values are `undefined`, `null`, `false`, `0`
      and `""`. */
  predicate Truthy(v: Option<Json>) {
    match v
    case None => false
    case Some(JNull) => false
    case Some(JBool(b)) => b
    case Some(JNum(n)) => n != 0.0
    case Some(JStr(s)) => s != ""
    case Some(_) => true
  }

  /** `v.constructor === Array`: only parsed arrays have the Array constructor;
      a parsed object's own "constructor" key holds JSON data, never `Array`. */
  predicate IsArray(v: Option<Json>) {
    v.Some? && v.value.JArr?
  }

  /** `v[i]` for a value that is not `null` (reading a property of `null` throws,
      which callers model). Strings yield one-character strings, objects are
      looked up under the decimal key, numbers and booleans have no index. */
  function At(v: Json, i: nat): (r: Option<Json>)
    requires !v.JNull?
    ensures v.JArr? ==> (r.Some? <==> i < |v.items|)
    ensures r.Some? && v.JArr? ==> r.value == v.items[i]
    ensures IsArray(r) ==> v.JArr? || v.JObj?
    ensures v.JNum? || v.JBool? ==> r.None?
  {
    match v
    case JArr(items) => if i < |items| then Some(items[i]) else None
    case JStr(s) => if i < |s| then Some(JStr([s[i]])) else None
    case JObj(m) =>
      var key := Decimal.NatToString(i);
      if key in m then Some(m[key]) else None
    case _ => None
  }

  /** `v?.chanId`: only objects carry the field; `null?.chanId` is `undefined`. */
  function ChanIdOf(v: Json): (r: Option<Json>)
    ensures r.Some? <==> v.JObj? && "chanId" in v.fields
  {
    if v.JObj? && "chanId" in v.fields then Some(v.fields["chanId"]) else None
  }

  /** `a === b` where `b` is a stored value (never `undefined`). Scalars compare
      by value; arrays and objects by identity, and two values produced by
      separate parses (or separate positions of one parse) are never the same
      object. */
  predicate StrictEquals(a: Option<Json>, b: Json) {
    match (a, b)
    case (Some(JNull), JNull) => true
    case (Some(JBool(x)), JBool(y)) => x == y
    case (Some(JNum(x)), JNum(y)) => x == y
    case (Some(JStr(x)), JStr(y)) => x == y
    case _ => false
  }

  /** Strict equality holds exactly for identical scalar values. */
  lemma StrictEqualsMeansSameScalar(a: Option<Json>, b: Json)
    ensures StrictEquals(a, b) <==> a == Some(b) && !b.JArr? && !b.JObj?
  {
  }
}
