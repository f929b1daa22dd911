/** The optional HTTP control surface (compiled in when `HTTP` is defined):
    four registered (method, path) handlers, looked up by exact match in
    registration order, and a not-found handler for everything else. No
    handler reads the form body, and every response depends only on the
    request, never on the relay state. */
module Http {
  import opened Word32
  import opened Optional
  import opened Relay

  datatype Verb = Get | Post | OtherVerb(name: string)

  datatype Request = Request(verb: Verb, uri: string, form: seq<(string, string)>)

  datatype Body = Empty | ControlPage | PlainText(text: string)

  datatype Response = Response(status: int, body: Body)

  datatype Handler = Root | HandleActivate | HandleDeactivate | HandleTrigger

  datatype Registration = Registration(verb: Verb, uri: string, handler: Handler)

  /** The `server.on` registrations of `setup`, in order. */
  const REGISTRATIONS: seq<Registration> := [
    Registration(Get, "/", Root),
    Registration(Post, "/activate", HandleActivate),
    Registration(Post, "/deactivate", HandleDeactivate),
    Registration(Post, "/trigger", HandleTrigger)
  ]

  const OK: Response := Response(200, Empty)
  const NOT_FOUND: Response := Response(404, PlainText("404: Not found"))

  /** The first registration whose method and path both equal the request's. */
  function Lookup(regs: seq<Registration>, req: Request): (h: Option<Handler>)
    ensures h.Some? <==> exists i :: 0 <= i < |regs| && regs[i].verb == req.verb && regs[i].uri == req.uri
    ensures h.Some? ==> exists i :: 0 <= i < |regs| && regs[i] == Registration(req.verb, req.uri, h.value)
    decreases |regs|
  {
    if |regs| == 0 then None
    else if regs[0].verb == req.verb && regs[0].uri == req.uri then Some(regs[0].handler)
    else
      var h := Lookup(regs[1..], req);
      assert forall i :: 0 < i < |regs| ==> regs[i] == regs[1..][i - 1];
      h
  }

  /** Serve one request; `now` is the `millis()` reading of the trigger
      handler. */
  function Serve(s: State, req: Request, now: u32): (r: (State, Response))
    ensures req.verb == Post && req.uri == "/activate" ==> r == (Activate(s), OK)
    ensures req.verb == Post && req.uri == "/deactivate" ==> r == (Deactivate(s), OK)
    ensures req.verb == Post && req.uri == "/trigger" ==> r == (Trigger(s, now, HTTP_PULSE_MS), OK)
    ensures req.verb == Get && req.uri == "/" ==> r == (s, Response(200, ControlPage))
    ensures HandlerOf(req).None? ==> r == (s, NOT_FOUND)
  {
    LookupMatchesHandlerOf(req);
    match Lookup(REGISTRATIONS, req)
    case None => (s, NOT_FOUND)
    case Some(Root) => (s, Response(200, ControlPage))
    case Some(HandleActivate) => (Activate(s), OK)
    case Some(HandleDeactivate) => (Deactivate(s), OK)
    case Some(HandleTrigger) => (Trigger(s, now, HTTP_PULSE_MS), OK)
  }

  /** Reference reading of the registrations: which handler a request reaches. */
  function HandlerOf(req: Request): Option<Handler>
  {
    if req.verb == Get && req.uri == "/" then Some(Root)
    else if req.verb == Post && req.uri == "/activate" then Some(HandleActivate)
    else if req.verb == Post && req.uri == "/deactivate" then Some(HandleDeactivate)
    else if req.verb == Post && req.uri == "/trigger" then Some(HandleTrigger)
    else None
  }

  /** Lookup through the registration table agrees with the reference
      reading for every request, so a GET of an actuation path, or any
      other method, reaches the not-found handler. */
  lemma LookupMatchesHandlerOf(req: Request)
    ensures Lookup(REGISTRATIONS, req) == HandlerOf(req)
  {
    var regs := REGISTRATIONS;
    assert regs[1..][1..][1..][1..] == [];
    assert Lookup(regs[1..][1..][1..][1..], req) == None;
  }

  /** The response a request gets, read from the registrations alone. */
  function ResponseFor(req: Request): Response
  {
    match HandlerOf(req)
    case None => NOT_FOUND
    case Some(Root) => Response(200, ControlPage)
    case Some(_) => OK
  }

  /** An actuation handler: one that writes the relay pin. */
  predicate Actuates(h: Option<Handler>)
  {
    h == Some(HandleActivate) || h == Some(HandleDeactivate) || h == Some(HandleTrigger)
  }

  /** Every served request gets 200 or 404, decided by the request alone:
      no handler reads the form (so `/activate` without a `relay` field
      still answers 200) and none depends on the relay state. */
  lemma ResponseIndependentOfStateAndForm(s1: State, s2: State, req1: Request, req2: Request, n1: u32, n2: u32)
    requires req1.verb == req2.verb && req1.uri == req2.uri
    ensures Serve(s1, req1, n1).1 == Serve(s2, req2, n2).1 == ResponseFor(req1)
    ensures ResponseFor(req1).status == 200 || ResponseFor(req1).status == 404
  {
    LookupMatchesHandlerOf(req1);
    LookupMatchesHandlerOf(req2);
  }

  /** Serving a request never touches the heartbeat pair, and a request that
      reaches no actuation handler leaves the relay state alone. */
  lemma ServeFrame(s: State, req: Request, now: u32)
    ensures LedUnchanged(s, Serve(s, req, now).0)
    ensures !Actuates(HandlerOf(req)) ==> Serve(s, req, now).0 == s
  {
    LookupMatchesHandlerOf(req);
  }
}
