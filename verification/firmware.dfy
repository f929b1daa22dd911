/** One pass of the firmware's `loop`, and the device's life as a sequence
    of passes after `setup`. A pass dispatches at most one OSC packet, then
    (when HTTP is compiled in) serves at most one HTTP request, then runs
    the expiry check, then the LED heartbeat. `millis()` is read afresh by
    each of the trigger handlers, the expiry check and the heartbeat, so a
    pass carries four clock readings. */
module Firmware {
  import opened Word32
  import opened Optional
  import opened Relay
  import Osc
  import Http

  /** Build configuration: whether the `HTTP` symbol is defined. */
  datatype Config = Config(http: bool)

  /** The `millis()` readings of one pass, in the order they are taken. */
  datatype Readings = Readings(osc: u32, http: u32, expiry: u32, led: u32)

  /** What the outside world offers one pass: an OSC packet, an HTTP
      request, and the clock. */
  datatype Pass = Pass(packet: Option<Osc.Packet>, request: Option<Http.Request>, clock: Readings)

  datatype Outcome = Outcome(state: State, response: Option<Http.Response>)

  /** Is the request served by this build? */
  predicate Served(cfg: Config, p: Pass)
  {
    cfg.http && p.request.Some?
  }

  /** Neither the packet nor the request reaches a handler that writes D1. */
  predicate Inert(cfg: Config, p: Pass)
  {
    && (p.packet.None? || p.packet.value.Malformed? || Osc.CommandOf(p.packet.value.msg.address).None?)
    && (!Served(cfg, p) || !Http.Actuates(Http.HandlerOf(p.request.value)))
  }

  /** Neither the packet nor the request reaches an activate or a trigger. */
  predicate NotEnergizing(cfg: Config, p: Pass)
  {
    && (p.packet.None? || p.packet.value.Malformed?
        || Osc.CommandOf(p.packet.value.msg.address) !in {Some(Osc.ActivateRelay), Some(Osc.TriggerRelay)})
    && (!Served(cfg, p)
        || Http.HandlerOf(p.request.value) !in {Some(Http.HandleActivate), Some(Http.HandleTrigger)})
  }

  /** One pass of `loop`. */
  function Step(cfg: Config, s: State, p: Pass): (r: Outcome)
    ensures r.response.Some? <==> Served(cfg, p)
    ensures r.state.ledState == Heartbeat(s, p.clock.led).ledState
    ensures r.state.ledNextRun == Heartbeat(s, p.clock.led).ledNextRun
  {
    var s1 := Osc.Receive(s, p.packet, p.clock.osc);
    var (s2, response) :=
      if Served(cfg, p) then
        var (t, resp) := Http.Serve(s1, p.request.value, p.clock.http);
        (t, Some(resp))
      else (s1, None);
    var s3 := Expire(s2, p.clock.expiry);
    Outcome(Heartbeat(s3, p.clock.led), response)
  }

  /** The state after a sequence of passes. */
  function Run(cfg: Config, s: State, ps: seq<Pass>): State
    decreases |ps|
  {
    if |ps| == 0 then s
    else Step(cfg, Run(cfg, s, ps[..|ps| - 1]), ps[|ps| - 1]).state
  }

  /** The effect of the OSC handler the packet's address names, if any. */
  function OscEffect(s: State, p: Pass): State
  {
    if p.packet.Some? && p.packet.value.Decoded? && Osc.CommandOf(p.packet.value.msg.address).Some? then
      Osc.Apply(s, Osc.CommandOf(p.packet.value.msg.address).value, p.clock.osc)
    else s
  }

  /** The effect of the HTTP handler the served request reaches, if any. */
  function HttpEffect(cfg: Config, s: State, p: Pass): State
  {
    if !Served(cfg, p) then s
    else
      var h := Http.HandlerOf(p.request.value);
      if h == Some(Http.HandleActivate) then Activate(s)
      else if h == Some(Http.HandleDeactivate) then Deactivate(s)
      else if h == Some(Http.HandleTrigger) then Trigger(s, p.clock.http, HTTP_PULSE_MS)
      else s
  }

  /** Every pass runs, in this order: the OSC handler its packet's address
      names, the HTTP handler its request reaches, the expiry check, and the
      heartbeat, each with its own clock reading. */
  lemma StepOrder(cfg: Config, s: State, p: Pass)
    ensures Step(cfg, s, p).state
            == Heartbeat(Expire(HttpEffect(cfg, OscEffect(s, p), p), p.clock.expiry), p.clock.led)
  {
    OscStage(s, p);
    HttpStage(cfg, Osc.Receive(s, p.packet, p.clock.osc), p);
  }

  /** `receiveOSC` runs the handler the packet's address names, if any. */
  lemma OscStage(s: State, p: Pass)
    ensures Osc.Receive(s, p.packet, p.clock.osc) == OscEffect(s, p)
  {
    if p.packet.Some? && p.packet.value.Decoded? {
      Osc.ReceiveMatchesCommand(s, p.packet.value.msg, p.clock.osc);
    }
  }

  /** `server.handleClient` runs the handler the request reaches, if any. */
  lemma HttpStage(cfg: Config, s: State, p: Pass)
    ensures Served(cfg, p) ==> Http.Serve(s, p.request.value, p.clock.http).0 == HttpEffect(cfg, s, p)
    ensures !Served(cfg, p) ==> HttpEffect(cfg, s, p) == s
  {
  }

  /** A pass that reaches no actuation handler only runs the expiry check
      and the heartbeat, and answers a served request as its path says. */
  lemma InertStep(cfg: Config, s: State, p: Pass)
    requires Inert(cfg, p)
    ensures Step(cfg, s, p).state == Heartbeat(Expire(s, p.clock.expiry), p.clock.led)
    ensures Served(cfg, p) ==> Step(cfg, s, p).response == Some(Http.ResponseFor(p.request.value))
  {
    StepOrder(cfg, s, p);
    StepResponse(cfg, s, p);
  }

  /** Dispatch runs before the expiry check in the same pass: an activate
      that arrives in the pass where a pending pulse expires is undone at
      once, and D1 ends the pass LOW. */
  lemma ExpiryOverridesSamePassActivate(cfg: Config, s: State, m: Osc.Message, clock: Readings)
    requires m.address == "/relay/activate"
    requires Expired(s, clock.expiry)
    ensures Step(cfg, s, Pass(Some(Osc.Decoded(m)), None, clock)).state.relay == Low
  {
    Osc.ReceiveMatchesCommand(s, m, clock.osc);
  }

  /** A pulse started in a pass is not expired by that same pass when the
      expiry reading is no later than its deadline. */
  lemma TriggerSurvivesItsOwnPass(cfg: Config, s: State, m: Osc.Message, clock: Readings)
    requires m.address == "/relay/trigger"
    requires clock.osc as int + OSC_PULSE_MS as int < MODULUS
    requires clock.expiry as int <= clock.osc as int + OSC_PULSE_MS as int
    ensures Step(cfg, s, Pass(Some(Osc.Decoded(m)), None, clock)).state.relay == High
    ensures Step(cfg, s, Pass(Some(Osc.Decoded(m)), None, clock)).state.triggerTimeout as int
            == clock.osc as int + OSC_PULSE_MS as int
  {
    Osc.ReceiveMatchesCommand(s, m, clock.osc);
  }

  /** A trigger whose deadline wraps past 2^32 is released in its own pass:
      the wrapped deadline lies below the trigger's reading, so an expiry
      reading taken at or after it, before the clock wraps, fires at once. */
  lemma WrappedTriggerReleasedInItsOwnPass(cfg: Config, s: State, m: Osc.Message, clock: Readings)
    requires m.address == "/relay/trigger"
    requires clock.osc as int + OSC_PULSE_MS as int > MODULUS
    requires clock.osc <= clock.expiry
    ensures Step(cfg, s, Pass(Some(Osc.Decoded(m)), None, clock)).state.relay == Low
    ensures !PulsePending(Step(cfg, s, Pass(Some(Osc.Decoded(m)), None, clock)).state)
  {
    StepOrder(cfg, s, Pass(Some(Osc.Decoded(m)), None, clock));
  }

  /** In a run of inert passes, either the relay and the deadline are as they
      started, or the pulse has fired and D1 is LOW with nothing pending. */
  lemma {:induction false} InertRunOutcome(cfg: Config, s: State, ps: seq<Pass>)
    requires forall k :: 0 <= k < |ps| ==> Inert(cfg, ps[k])
    ensures RelayUnchanged(s, Run(cfg, s, ps)) || (Run(cfg, s, ps).relay == Low && !PulsePending(Run(cfg, s, ps)))
    decreases |ps|
  {
    if |ps| > 0 {
      var init := ps[..|ps| - 1];
      assert forall k :: 0 <= k < |init| ==> init[k] == ps[k];
      InertRunOutcome(cfg, s, init);
      InertStep(cfg, Run(cfg, s, init), ps[|ps| - 1]);
    }
  }

  /** A run of inert passes clears a pending pulse exactly when one of its
      expiry readings exceeds the deadline; if it does D1 ends LOW, and if
      it does not, the relay and the deadline are untouched. */
  lemma {:induction false} InertRunExpiry(cfg: Config, s: State, ps: seq<Pass>)
    requires PulsePending(s)
    requires forall k :: 0 <= k < |ps| ==> Inert(cfg, ps[k])
    ensures !PulsePending(Run(cfg, s, ps)) <==> exists k :: 0 <= k < |ps| && s.triggerTimeout < ps[k].clock.expiry
    ensures (exists k :: 0 <= k < |ps| && s.triggerTimeout < ps[k].clock.expiry) ==> Run(cfg, s, ps).relay == Low
    ensures (forall k :: 0 <= k < |ps| ==> ps[k].clock.expiry <= s.triggerTimeout) ==> RelayUnchanged(s, Run(cfg, s, ps))
    decreases |ps|
  {
    if |ps| > 0 {
      var init := ps[..|ps| - 1];
      var last := ps[|ps| - 1];
      assert forall k :: 0 <= k < |init| ==> init[k] == ps[k];
      InertRunExpiry(cfg, s, init);
      InertStep(cfg, Run(cfg, s, init), last);
      if s.triggerTimeout < last.clock.expiry {
        InertRunOutcome(cfg, s, init);
      }
      if exists k :: 0 <= k < |ps| && s.triggerTimeout < ps[k].clock.expiry {
        var k :| 0 <= k < |ps| && s.triggerTimeout < ps[k].clock.expiry;
        if k < |init| {
          assert s.triggerTimeout < init[k].clock.expiry;
        }
      }
    }
  }

  /** D1 is only ever driven HIGH by an activate or a trigger: from a LOW
      relay, a run with neither keeps it LOW, whatever deactivates, expiries
      or heartbeats happen on the way. */
  lemma {:induction false} StaysLowWithoutEnergizing(cfg: Config, s: State, ps: seq<Pass>)
    requires s.relay == Low
    requires forall k :: 0 <= k < |ps| ==> NotEnergizing(cfg, ps[k])
    ensures Run(cfg, s, ps).relay == Low
    decreases |ps|
  {
    if |ps| > 0 {
      var init := ps[..|ps| - 1];
      var last := ps[|ps| - 1];
      assert forall k :: 0 <= k < |init| ==> init[k] == ps[k];
      StaysLowWithoutEnergizing(cfg, s, init);
      var s0 := Run(cfg, s, init);
      if last.packet.Some? && last.packet.value.Decoded? {
        Osc.ReceiveMatchesCommand(s0, last.packet.value.msg, last.clock.osc);
      }
      if Served(cfg, last) {
        Http.LookupMatchesHandlerOf(last.request.value);
      }
    }
  }

  /** The response of a pass depends only on the build and the request,
      never on the relay state or the clock. */
  lemma StepResponse(cfg: Config, s: State, p: Pass)
    ensures Step(cfg, s, p).response == (if Served(cfg, p) then Some(Http.ResponseFor(p.request.value)) else None)
  {
    if Served(cfg, p) {
      var s1 := Osc.Receive(s, p.packet, p.clock.osc);
      Http.ResponseIndependentOfStateAndForm(s1, s1, p.request.value, p.request.value, p.clock.http, p.clock.http);
    }
  }

  /** The HTTP answer a pass gets from this build: the request's answer
      when it is served, none otherwise. */
  function Answer(cfg: Config, p: Pass): Option<Http.Response>
  {
    if Served(cfg, p) then Some(Http.ResponseFor(p.request.value)) else None
  }

  /** Running one more pass is one more step. */
  lemma RunSnoc(cfg: Config, s0: State, ps: seq<Pass>, i: nat)
    requires i < |ps|
    ensures Run(cfg, s0, ps[..i + 1]) == Step(cfg, Run(cfg, s0, ps[..i]), ps[i]).state
  {
    assert ps[..i + 1][..i] == ps[..i];
  }

  /** Appending the answer of the next pass keeps every answer in place. */
  lemma AnswersExtend(cfg: Config, ps: seq<Pass>, responses: seq<Option<Http.Response>>, next: Option<Http.Response>)
    requires |responses| < |ps|
    requires forall k :: 0 <= k < |responses| ==> responses[k] == Answer(cfg, ps[k])
    requires next == Answer(cfg, ps[|responses|])
    ensures forall k :: 0 <= k < |responses| + 1 ==> (responses + [next])[k] == Answer(cfg, ps[k])
  {
  }

  /** The device from `setup` on: run every pass in order and collect the
      HTTP response of each. */
  method RunFirmware(cfg: Config, ps: seq<Pass>) returns (s: State, responses: seq<Option<Http.Response>>)
    ensures s == Run(cfg, Boot(), ps)
    ensures |responses| == |ps|
    ensures forall k :: 0 <= k < |ps| ==> responses[k] == Answer(cfg, ps[k])
  {
    s := Boot();
    responses := [];
    var i := 0;
    while i < |ps|
      invariant 0 <= i <= |ps|
      invariant s == Run(cfg, Boot(), ps[..i])
      invariant |responses| == i
      invariant forall k :: 0 <= k < i ==> responses[k] == Answer(cfg, ps[k])
    {
      var out := Step(cfg, s, ps[i]);
      StepResponse(cfg, s, ps[i]);
      RunSnoc(cfg, Boot(), ps, i);
      assert out.response == Answer(cfg, ps[i]);
      s := out.state;
      AnswersExtend(cfg, ps, responses, out.response);
      responses := responses + [out.response];
      i := i + 1;
    }
    assert ps[..i] == ps;
  }
}
