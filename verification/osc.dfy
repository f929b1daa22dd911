/** OSC dispatch of `receiveOSC`: a decoded packet with no error is offered
    to each of three routes in order, and every route whose address
    matches runs its handler; a packet whose decode reports an error is
    dropped. The OSC library's matching is not visible, so the matcher is
    a parameter, instantiated with exact string equality. */
module Osc {
  import opened Word32
  import opened Optional
  import opened Relay

  /** The three handlers `receiveRelayActivate`, `receiveRelayDeactivate`
      and `receiveRelayTrigger`. */
  datatype Action = ActivateRelay | DeactivateRelay | TriggerRelay

  datatype Route = Route(pattern: string, action: Action)

  /** OSC argument values. The handlers never read them. */
  datatype Arg = IntArg(i: int) | FloatArg(f: real) | StringArg(str: string) | BlobArg(bytes: seq<int>)

  datatype Message = Message(address: string, args: seq<Arg>)

  /** What filling an `OSCMessage` from a UDP packet yields. */
  datatype Packet = Decoded(msg: Message) | Malformed(error: int)

  /** `matches(address, pattern)`: does the message address select the route? */
  type Matcher = (string, string) -> bool

  /** The route table, in the order `receiveOSC` offers the message. */
  const ROUTES: seq<Route> := [
    Route("/relay/activate", ActivateRelay),
    Route("/relay/deactivate", DeactivateRelay),
    Route("/relay/trigger", TriggerRelay)
  ]

  predicate ExactMatch(address: string, pattern: string)
  {
    address == pattern
  }

  /** Run one handler. `now` is the `millis()` reading the trigger handler
      takes; the other two ignore it. */
  function Apply(s: State, a: Action, now: u32): (r: State)
    ensures r.relay == (if a == DeactivateRelay then Low else High)
    ensures r.triggerTimeout == (if a == TriggerRelay then Add(now, OSC_PULSE_MS) else s.triggerTimeout)
    ensures LedUnchanged(s, r)
  {
    match a
    case ActivateRelay => Activate(s)
    case DeactivateRelay => Deactivate(s)
    case TriggerRelay => Trigger(s, now, OSC_PULSE_MS)
  }

  /** Offer the message to `routes` in order, running every matching handler. */
  function RouteAll(s: State, m: Message, routes: seq<Route>, matches: Matcher, now: u32): (r: State)
    ensures (forall i :: 0 <= i < |routes| ==> !matches(m.address, routes[i].pattern)) ==> r == s
    ensures LedUnchanged(s, r)
    decreases |routes|
  {
    if |routes| == 0 then s
    else
      var s' := if matches(m.address, routes[0].pattern) then Apply(s, routes[0].action, now) else s;
      RouteAll(s', m, routes[1..], matches, now)
  }

  /** `receiveOSC` with the given matcher: no packet, or a packet whose
      decode failed, changes nothing. */
  function ReceiveWith(s: State, packet: Option<Packet>, matches: Matcher, now: u32): (r: State)
    ensures packet.None? || packet.value.Malformed? ==> r == s
    ensures LedUnchanged(s, r)
  {
    match packet
    case None => s
    case Some(Malformed(_)) => s
    case Some(Decoded(m)) => RouteAll(s, m, ROUTES, matches, now)
  }

  /** `receiveOSC` with exact address matching. */
  function Receive(s: State, packet: Option<Packet>, now: u32): (r: State)
    ensures packet.None? || packet.value.Malformed? ==> r == s
    ensures LedUnchanged(s, r)
  {
    ReceiveWith(s, packet, ExactMatch, now)
  }

  /** Reference reading of the route table: the action an address names. */
  function CommandOf(address: string): (a: Option<Action>)
    ensures forall i :: 0 <= i < |ROUTES| ==> (ROUTES[i].pattern == address <==> a == Some(ROUTES[i].action))
    ensures a.None? <==> forall i :: 0 <= i < |ROUTES| ==> ROUTES[i].pattern != address
  {
    if address == "/relay/activate" then assert ROUTES[0].pattern == address; Some(ActivateRelay)
    else if address == "/relay/deactivate" then assert ROUTES[1].pattern == address; Some(DeactivateRelay)
    else if address == "/relay/trigger" then assert ROUTES[2].pattern == address; Some(TriggerRelay)
    else None
  }

  /** With exact matching, dispatch through the table runs exactly the one
      handler the address names, and nothing for any other address. */
  lemma ReceiveMatchesCommand(s: State, m: Message, now: u32)
    ensures CommandOf(m.address).Some? ==>
      Receive(s, Some(Decoded(m)), now) == Apply(s, CommandOf(m.address).value, now)
    ensures CommandOf(m.address).None? ==> Receive(s, Some(Decoded(m)), now) == s
  {
    var a := m.address;
    assert ROUTES[1..][1..][1..] == [];
    if a == "/relay/activate" {
      assert a != "/relay/deactivate" && a != "/relay/trigger";
    } else if a == "/relay/deactivate" {
      assert a != "/relay/trigger";
    }
  }

  /** The handlers read no argument: there is exactly one relay, and a
      channel number in the message makes no difference. */
  lemma ArgumentsIgnored(s: State, m1: Message, m2: Message, now: u32)
    requires m1.address == m2.address
    ensures Receive(s, Some(Decoded(m1)), now) == Receive(s, Some(Decoded(m2)), now)
  {
    ReceiveMatchesCommand(s, m1, now);
    ReceiveMatchesCommand(s, m2, now);
  }

  /** `/relay/momentary` is not a route: it changes nothing. */
  lemma NoMomentaryRoute(s: State, args: seq<Arg>, now: u32)
    ensures Receive(s, Some(Decoded(Message("/relay/momentary", args))), now) == s
  {
    ReceiveMatchesCommand(s, Message("/relay/momentary", args), now);
  }

  /** A matcher that selects every route (a wildcard address, say) runs all
      three handlers in table order, so the trigger's effect is what stays. */
  lemma EveryMatchingRouteRuns(s: State, m: Message, matches: Matcher, now: u32)
    requires forall i :: 0 <= i < |ROUTES| ==> matches(m.address, ROUTES[i].pattern)
    ensures ReceiveWith(s, Some(Decoded(m)), matches, now) == Trigger(s, now, OSC_PULSE_MS)
  {
    assert matches(m.address, ROUTES[0].pattern);
    assert matches(m.address, ROUTES[1..][0].pattern);
    assert matches(m.address, ROUTES[1..][1..][0].pattern);
    assert ROUTES[1..][1..][1..] == [];
  }
}
