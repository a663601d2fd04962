/**
 * JSON-like values as the gateway passes them around: tool arguments,
 * handler results and audit payloads. An object is the list of its
 * members in `Object.entries` order.
 */
module JsonValues {

  datatype Json =
    | Obj(members: seq<Member>)
    | Arr(items: seq<Json>)
    | Str(s: string)
    | Num(n: real)
    | Bool(b: bool)
    | Null

  /** One member of an object: a key and its value. */
  datatype Member = Member(key: string, value: Json)

  /** The member names of an object, in order. */
  function Keys(ms: seq<Member>): (ks: seq<string>)
    ensures |ks| == |ms|
    ensures forall i :: 0 <= i < |ms| ==> ks[i] == ms[i].key
  {
    if ms == [] then [] else Keys(ms[..|ms| - 1]) + [ms[|ms| - 1].key]
  }
}
