/** The two attribute stores a handler sees: the session scope, which
    outlives a request, and the request scope, which lasts one request.
    Values are the strings handlers store there. */
module ScopeStore {
  import opened Wrappers

  datatype Scopes = Scopes(session: map<string, string>, request: map<string, string>)

  /** Reads a session attribute; `None` stands for Java's `null`. */
  function GetSession(sc: Scopes, key: string): (r: Option<string>)
    ensures r.Some? <==> key in sc.session
    ensures r.Some? ==> r.value == sc.session[key]
  {
    if key in sc.session then Some(sc.session[key]) else None
  }

  /** Reads a request attribute; `None` stands for Java's `null`. */
  function GetRequest(sc: Scopes, key: string): (r: Option<string>)
    ensures r.Some? <==> key in sc.request
    ensures r.Some? ==> r.value == sc.request[key]
  {
    if key in sc.request then Some(sc.request[key]) else None
  }

  /** Stores a request attribute, replacing any earlier value under the key;
      the session and every other request key are left alone. */
  function PutRequest(sc: Scopes, key: string, value: string): (r: Scopes)
    ensures r.session == sc.session
    ensures key in r.request && r.request[key] == value
    ensures forall k :: k != key ==> (k in r.request <==> k in sc.request)
    ensures forall k :: k != key && k in sc.request ==> r.request[k] == sc.request[k]
  {
    sc.(request := sc.request[key := value])
  }

  /** Deletes a session attribute, if present; the request and every other
      session key are left alone. */
  function RemoveSession(sc: Scopes, key: string): (r: Scopes)
    ensures r.request == sc.request
    ensures key !in r.session
    ensures forall k :: k != key ==> (k in r.session <==> k in sc.session)
    ensures forall k :: k != key && k in sc.session ==> r.session[k] == sc.session[k]
  {
    sc.(session := sc.session - {key})
  }
}
