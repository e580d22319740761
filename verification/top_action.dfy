/** The top page's default operation: hand a pending flash message from the
    session to the request, then render the top page. */
module TopAction {
  import opened Wrappers
  import opened ScopeStore

  /** The key a flash message is stored under in either scope. The concrete
      text of the attribute constant is not part of this model; no property
      depends on it. */
  const Flush: string := "flush"

  /** The views this operation can hand control to. */
  datatype View = TopIndex

  /** How control leaves an operation: rendered in the same request, or
      through a fresh request. */
  datatype Transfer = Forward(view: View) | Redirect(view: View)

  /** What one run of an operation leaves behind: the scopes, and the one
      transfer it ends with. */
  datatype Outcome = Outcome(scopes: Scopes, transfer: Transfer)

  /** The default operation of the top page. */
  function Index(sc: Scopes): (r: Outcome)
    // the flash message, if any, reaches the request scope
    ensures Flush in sc.session ==> Flush in r.scopes.request && r.scopes.request[Flush] == sc.session[Flush]
    // and is gone from the session afterwards
    ensures Flush !in r.scopes.session
    // with no flash message, nothing changes
    ensures Flush !in sc.session ==> r.scopes == sc
    // every other key keeps its presence and value in both scopes
    ensures forall k :: k != Flush ==> (k in r.scopes.session <==> k in sc.session)
    ensures forall k :: k != Flush && k in sc.session ==> r.scopes.session[k] == sc.session[k]
    ensures forall k :: k != Flush ==> (k in r.scopes.request <==> k in sc.request)
    ensures forall k :: k != Flush && k in sc.request ==> r.scopes.request[k] == sc.request[k]
    // the run always ends by rendering the top page in place
    ensures r.transfer == Forward(TopIndex)
  {
    var flush := GetSession(sc, Flush);
    var sc' := if flush.Some? then RemoveSession(PutRequest(sc, Flush, flush.value), Flush) else sc;
    Outcome(sc', Forward(TopIndex))
  }

  /** A later request in the same session, with no new flash message written
      in between, finds nothing to deliver: it starts from a fresh request
      scope and ends with none. */
  lemma SecondIndexDeliversNothing(sc: Scopes)
    ensures var next := Index(Scopes(Index(sc).scopes.session, map[]));
            && Flush !in next.scopes.request
            && next.scopes.session == Index(sc).scopes.session
  {
  }

  /** What each of `n` consecutive top-page requests in one session finds
      under the flash key in its request scope; each request starts with an
      empty request scope, and nothing else writes to the session. */
  function Deliveries(session: map<string, string>, n: nat): (r: seq<Option<string>>)
    ensures |r| == n
    decreases n
  {
    if n == 0 then []
    else
      var out := Index(Scopes(session, map[]));
      [GetRequest(out.scopes, Flush)] + Deliveries(out.scopes.session, n - 1)
  }

  /** Over requests that run one after another, the flash message is shown
      exactly once: the first request receives whatever the session held,
      and no later request receives anything. */
  lemma {:induction false} DeliveredExactlyOnce(session: map<string, string>, n: nat)
    requires n > 0
    ensures var d := Deliveries(session, n);
            && d[0] == GetSession(Scopes(session, map[]), Flush)
            && forall i :: 0 < i < n ==> d[i] == None
  {
    var out := Index(Scopes(session, map[]));
    NothingLeftToDeliver(out.scopes.session, n - 1);
  }

  /** Once the session holds no flash message, no request receives one. */
  lemma {:induction false} NothingLeftToDeliver(session: map<string, string>, n: nat)
    requires Flush !in session
    ensures forall i :: 0 <= i < n ==> Deliveries(session, n)[i] == None
    decreases n
  {
    if n > 0 {
      var out := Index(Scopes(session, map[]));
      assert out.scopes.session == session;
      NothingLeftToDeliver(session, n - 1);
    }
  }
}
