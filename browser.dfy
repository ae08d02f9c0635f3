/**
 * What the pages use of the browser: `localStorage` as a map from keys to the
 * stored strings, and the outcome of a `fetch` call.
 */
module Browser {
  import opened Wrappers

  type Storage = map<string, string>

  const AUTH_TOKEN: string := "auth_token"
  const USER_DATA: string := "user_data"

  /** `if (localStorage.getItem(key))`: present and not the empty string. */
  predicate HasItem(st: Storage, key: string)
  {
    key in st && st[key] != ""
  }

  /** `removeItem("auth_token")` followed by `removeItem("user_data")`. */
  function ClearSession(st: Storage): (r: Storage)
    ensures AUTH_TOKEN !in r && USER_DATA !in r
    ensures forall k :: k in st && k != AUTH_TOKEN && k != USER_DATA ==> k in r && r[k] == st[k]
    ensures forall k :: k in r ==> k in st
  {
    st - {AUTH_TOKEN, USER_DATA}
  }

  /** What `await fetch(...)` and `await response.json()` produce: a network failure (the
      promise rejects), or a status code with the parsed body (`None` when the body does
      not parse). */
  datatype Fetched<T> = NetworkError | Response(status: int, body: Option<T>)

  /** `response.ok` */
  predicate IsOk(status: int)
  {
    200 <= status <= 299
  }
}
