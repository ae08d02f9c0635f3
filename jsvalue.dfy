/**
 * JSON values as the pages see them after `JSON.parse`, with JavaScript's
 * truthiness, `a || b`, property reads and object spread (`{...x}`).
 * Numbers are integers here; fractional numbers and NaN are not modelled.
 */
module JsValue {
  import opened Wrappers
  import Text

  datatype Json =
    | JNull
    | JBool(b: bool)
    | JNum(n: int)
    | JStr(s: string)
    | JArr(items: seq<Json>)
    | JObj(fields: map<string, Json>)

  /** JavaScript truthiness: `null`, `false`, `0` and `""` are falsy, everything else truthy. */
  predicate Truthy(j: Json)
  {
    match j
    case JNull => false
    case JBool(b) => b
    case JNum(n) => n != 0
    case JStr(s) => s != ""
    case JArr(_) => true
    case JObj(_) => true
  }

  /** `a || d`, where `None` stands for `undefined`. */
  function Or(a: Option<Json>, d: Json): (r: Json)
    ensures a.Some? && Truthy(a.value) ==> r == a.value
    ensures (a.None? || !Truthy(a.value)) ==> r == d
  {
    if a.Some? && Truthy(a.value) then a.value else d
  }

  /** `j.key` on a value that is not `null` (reading a property of `null` throws).
      Only objects carry the keys the pages read; on anything else the read is `undefined`. */
  function Property(j: Json, key: string): (r: Option<Json>)
    requires !j.JNull?
    ensures r.Some? <==> j.JObj? && key in j.fields
    ensures r.Some? ==> r.value == j.fields[key]
  {
    if j.JObj? && key in j.fields then Some(j.fields[key]) else None
  }

  /** The own properties `{...items}` gives an array (or a string's characters): index keys. */
  function IndexMap(items: seq<Json>): map<string, Json>
  {
    if |items| == 0 then map[]
    else IndexMap(items[..|items| - 1])[Text.NatToDecimal(|items| - 1) := items[|items| - 1]]
  }

  lemma {:induction false} IndexMapAt(items: seq<Json>)
    ensures forall i :: 0 <= i < |items| ==>
      Text.NatToDecimal(i) in IndexMap(items) && IndexMap(items)[Text.NatToDecimal(i)] == items[i]
    ensures forall k :: k in IndexMap(items) ==> exists i :: 0 <= i < |items| && k == Text.NatToDecimal(i)
  {
    if |items| > 0 {
      var init := items[..|items| - 1];
      IndexMapAt(init);
      forall i | 0 <= i < |items| - 1
        ensures Text.NatToDecimal(i) != Text.NatToDecimal(|items| - 1)
      {
        if Text.NatToDecimal(i) == Text.NatToDecimal(|items| - 1) {
          Text.NatToDecimalInjective(i, |items| - 1);
        }
      }
      forall i | 0 <= i < |items| - 1 ensures init[i] == items[i] { }
    }
  }

  function Chars(s: string): seq<Json>
  {
    seq(|s|, i requires 0 <= i < |s| => JStr([s[i]]))
  }

  /** The properties `{...j}` copies. Spreading `null`, a boolean or a number copies nothing. */
  function Spread(j: Json): map<string, Json>
  {
    match j
    case JObj(m) => m
    case JArr(items) => IndexMap(items)
    case JStr(s) => IndexMap(Chars(s))
    case _ => map[]
  }
}
