/** The JavaScript values the importer reads: what `JSON.parse` produces, and the handful of
    language operations the importer applies to them (truthiness, `typeof`, property reads,
    `Object.values`, `delete`, and the string helpers `toLowerCase` and `endsWith`). */
module JsValues {
  import opened Wrappers

  /** A parsed JSON value. */
  datatype Json =
    | JNull
    | JBool(b: bool)
    | JNumber(n: real)
    | JString(s: string)
    | JArray(items: seq<Json>)
    | JObject(members: Members)

  /** An object's own enumerable properties, in enumeration order. A value from `JSON.parse` has
      each key once (a repeated key in the text keeps only its last value), so reading the first
      member named k, as `Lookup` does, is reading that key. */
  datatype Members = NoMembers | Member(key: string, value: Json, rest: Members)

  /** `!!x`: null, false, 0 and the empty string are falsy; every array and object is truthy. */
  predicate Truthy(j: Json): (b: bool)
    ensures !b <==> j == JNull || j == JBool(false) || j == JNumber(0.0) || j == JString("")
  {
    match j
    case JNull => false
    case JBool(b) => b
    case JNumber(n) => n != 0.0
    case JString(s) => s != ""
    case JArray(_) => true
    case JObject(_) => true
  }

  /** `typeof v` for a value read from a property; None stands for `undefined`. */
  function TypeOf(v: Option<Json>): (t: string)
    ensures t == "object" <==> v.Some? && (v.value.JNull? || v.value.JArray? || v.value.JObject?)
    ensures t == "string" <==> v.Some? && v.value.JString?
    ensures t == "undefined" <==> v.None?
  {
    match v
    case None => "undefined"
    case Some(JNull) => "object"
    case Some(JBool(_)) => "boolean"
    case Some(JNumber(_)) => "number"
    case Some(JString(_)) => "string"
    case Some(JArray(_)) => "object"
    case Some(JObject(_)) => "object"
  }

  /** `x && typeof x === 'object'`: a truthy value of type object, i.e. an array or an object. */
  predicate IsObjectLike(x: Json) {
    Truthy(x) && TypeOf(Some(x)) == "object"
  }

  lemma ObjectLikeIsArrayOrObject(x: Json)
    ensures IsObjectLike(x) <==> x.JArray? || x.JObject?
  {
  }

  /** The value of the first member named k. */
  function Lookup(ms: Members, k: string): (r: Option<Json>)
  {
    match ms
    case NoMembers => None
    case Member(k', v, rest) => if k' == k then Some(v) else Lookup(rest, k)
  }

  /** `x[k]` on a value the importer has already checked to be an object. None of the keys the
      importer reads is an array index, `length`, or a member of Object.prototype or
      Array.prototype, so on an array (and on any primitive) the read gives `undefined`. */
  function Prop(x: Json, k: string): (r: Option<Json>)
    ensures r.Some? ==> x.JObject?
  {
    match x
    case JObject(ms) => Lookup(ms, k)
    case _ => None
  }

  /** The member values in order. */
  function Values(ms: Members): seq<Json> {
    match ms
    case NoMembers => []
    case Member(_, v, rest) => [v] + Values(rest)
  }

  /** `Object.values(x)` for an array or an object: the elements, or the member values in order. */
  function ObjectValues(x: Json): (vs: seq<Json>)
    requires x.JArray? || x.JObject?
    ensures x.JArray? ==> vs == x.items
    ensures x.JObject? ==> vs == Values(x.members)
  {
    match x
    case JArray(items) => items
    case JObject(ms) => Values(ms)
  }

  /** ms without its members named k, in order. */
  function WithoutKey(ms: Members, k: string): (r: Members)
    ensures forall k' :: Lookup(r, k') == if k' == k then None else Lookup(ms, k')
  {
    match ms
    case NoMembers => NoMembers
    case Member(k', v, rest) =>
      if k' == k then WithoutKey(rest, k) else Member(k', v, WithoutKey(rest, k))
  }

  lemma {:induction false} WithoutAbsentKey(ms: Members, k: string)
    requires Lookup(ms, k).None?
    ensures WithoutKey(ms, k) == ms
  {
    if ms.Member? {
      WithoutAbsentKey(ms.rest, k);
    }
  }

  /** `delete x[k]`: removes the own property k of an object; an array has no own property with
      the two names the importer deletes, and a primitive is left alone. */
  function DeleteKey(x: Json, k: string): (r: Json)
    ensures Prop(r, k).None?
    ensures forall k' :: k' != k ==> Prop(r, k') == Prop(x, k')
    ensures x.JObject? <==> r.JObject?
    ensures Truthy(r) == Truthy(x)
  {
    match x
    case JObject(ms) => JObject(WithoutKey(ms, k))
    case _ => x
  }

  /** ms with the member k: v in front. */
  function Put(k: string, v: Json, ms: Members): (r: Members)
    ensures forall k' :: Lookup(r, k') == if k' == k then Some(v) else Lookup(ms, k')
  {
    Member(k, v, ms)
  }

  /** ms with the member k: v in front when v is present (a property whose value is `undefined`
      is not part of a parsed object). */
  function PutOpt(k: string, v: Option<Json>, ms: Members): (r: Members)
    ensures forall k' :: Lookup(r, k') == if k' == k && v.Some? then v else Lookup(ms, k')
  {
    if v.Some? then Member(k, v.value, ms) else ms
  }

  /** ASCII `toLowerCase`. For the two comparisons the importer makes (with "chara" and with
      ".json") this agrees with the full Unicode mapping: no other code point lowers to one of
      the letters c, h, a, r, j, s, o, n. */
  function Lower(s: string): (r: string)
    ensures |r| == |s|
    ensures forall i :: 0 <= i < |s| ==> r[i] == LowerChar(s[i])
  {
    if s == [] then [] else [LowerChar(s[0])] + Lower(s[1..])
  }

  function LowerChar(c: char): char {
    if 'A' <= c <= 'Z' then (c as int + 32) as char else c
  }

  /** `s.endsWith(suffix)` */
  predicate EndsWith(s: string, suffix: string) {
    |suffix| <= |s| && s[|s| - |suffix|..] == suffix
  }
}
