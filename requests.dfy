/**
 * What the Flask routes of both backends see of a request body and what they answer.
 * `request.json` is `None` without a JSON body; the routes only index objects, so a body
 * is a map from keys to JSON values.
 */
module Requests {
  import opened Wrappers
  import JsValue

  type Body = Option<map<string, JsValue.Json>>

  /** A route's answer: the status and, for a refusal, the `error` text. */
  datatype Reply = Reply(status: int, error: Option<string>)

  /** Python's `not data`: no body, or an empty object. */
  predicate Falsy(data: Body)
  {
    data.None? || |data.value| == 0
  }

  /** `not data or key not in data`: the test shared by the folder routes and login. */
  predicate Lacks(data: Body, key: string)
  {
    Falsy(data) || key !in data.value
  }

  /** The `not data` half never decides anything on its own: a body fails the test exactly
      when it is missing or has no such key. */
  lemma EmptyBodyTestRedundant(data: Body, key: string)
    ensures Lacks(data, key) <==> data.None? || key !in data.value
  {
    if data.Some? && |data.value| == 0 {
      assert key !in data.value;
    }
  }
}
