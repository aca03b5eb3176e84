/** JSON-like values as JavaScript handles them after `JSON.parse`, plus
    `undefined` (which `redactSecrets` also accepts). An object is the list of its
    own enumerable members in `Object.entries` order. */
module Json {
  import opened Wrappers

  datatype Json =
    | JNull
    | JUndefined
    | JBool(b: bool)
    | JNumber(n: real)
    | JString(s: string)
    | JArray(items: seq<Json>)
    | JObject(members: seq<(string, Json)>)

  /** The keys of an object's members, in order. */
  function Keys(ms: seq<(string, Json)>): (ks: seq<string>)
    ensures |ks| == |ms|
    ensures forall i | 0 <= i < |ms| :: ks[i] == ms[i].0
  {
    seq(|ms|, i requires 0 <= i < |ms| => ms[i].0)
  }

  /** A JavaScript object never holds two members with the same key. */
  predicate DistinctKeys(ms: seq<(string, Json)>) {
    forall i, j | 0 <= i < j < |ms| :: ms[i].0 != ms[j].0
  }

  /** The value stored under `k`, if any. */
  function Lookup(ms: seq<(string, Json)>, k: string): (r: Option<Json>)
    ensures r.Some? <==> k in Keys(ms)
  {
    if ms == [] then None
    else if ms[0].0 == k then Some(ms[0].1)
    else
      var rest := Lookup(ms[1..], k);
      assert Keys(ms) == [ms[0].0] + Keys(ms[1..]);
      rest
  }
}
