/** A wrap-safe pulse, the behaviour the firmware's pulse handling evidently
    intends. The as-written firmware (module `Relay`) stores the deadline
    with 0 meaning "none" and compares it with a plain `<`, so a deadline
    past 2^32 fires in the trigger's own pass or, when it is exactly 0 or
    0xFFFFFFFF, never fires. Here "pending" is its own flag, and expiry
    compares the signed distance from the deadline to the reading. The
    heartbeat's `ledNextRun` gets the same wrap-safe comparison. */
module PulseFix {
  import opened Word32
  import opened Relay

  datatype Pulse = Pulse(relay: Level, pending: bool, deadline: u32)

  function TriggerFixed(p: Pulse, now: u32, pulse: u32): (r: Pulse)
    ensures r.relay == High && r.pending
    ensures Sub(r.deadline, now) == pulse
  {
    SubAddCancel(now, pulse);
    Pulse(High, true, Add(now, pulse))
  }

  /** The reading lies strictly after the deadline, within half the clock's
      range. */
  predicate ExpiredFixed(p: Pulse, now: u32)
  {
    p.pending && 0 < Sub(now, p.deadline) as int < HALF
  }

  function ExpireFixed(p: Pulse, now: u32): (r: Pulse)
    ensures ExpiredFixed(p, now) ==> r.relay == Low && !r.pending
    ensures !ExpiredFixed(p, now) ==> r == p
  {
    if ExpiredFixed(p, now) then Pulse(Low, false, p.deadline) else p
  }

  /** The intended pulse: whatever the clock reading `t0` at the trigger, D1
      is still HIGH `e` milliseconds later exactly when `e <= pulse`, for
      pulses and waits shorter than half the clock's range. */
  lemma FixedPulseLength(p: Pulse, t0: u32, pulse: u32, e: u32)
    requires pulse as int < HALF && e as int < HALF
    ensures ExpireFixed(TriggerFixed(p, t0, pulse), Add(t0, e)).relay == High <==> e <= pulse
  {
  }

  /** A pulse started near the top of the clock, the input of the first
      finding listed in README.md: the as-written check ends a 1000 ms pulse
      at the first reading after the trigger, the corrected one keeps it. */
  lemma WrapNearTopOfClock(s: State, p: Pulse)
    ensures Expire(Trigger(s, 0xFFFF_FED8, OSC_PULSE_MS), 0xFFFF_FED9).relay == Low
    ensures ExpireFixed(TriggerFixed(p, 0xFFFF_FED8, OSC_PULSE_MS), Add(0xFFFF_FED8, 1)).relay == High
  {
    FixedPulseLength(p, 0xFFFF_FED8, OSC_PULSE_MS, 1);
  }

  /** A deadline that wraps to exactly 0: the as-written firmware loses the
      pulse and leaves D1 HIGH after 1001 ms, the corrected one ends it. */
  lemma WrapToZero(s: State, p: Pulse)
    ensures Expire(Trigger(s, 0xFFFF_FC18, OSC_PULSE_MS), Add(0xFFFF_FC18, 1001)).relay == High
    ensures ExpireFixed(TriggerFixed(p, 0xFFFF_FC18, OSC_PULSE_MS), Add(0xFFFF_FC18, 1001)).relay == Low
  {
    FixedPulseLength(p, 0xFFFF_FC18, OSC_PULSE_MS, 1001);
  }

  /** The corrected heartbeat: it acts once the reading is strictly after
      `ledNextRun` by less than half the clock's range. */
  predicate DueFixed(s: State, now: u32)
  {
    0 < Sub(now, s.ledNextRun) as int < HALF
  }

  function HeartbeatFixed(s: State, now: u32): (r: State)
    ensures RelayUnchanged(s, r)
    ensures DueFixed(s, now) && s.ledState == Low ==> r.ledState == High && Sub(r.ledNextRun, now) == LED_ON_MS
    ensures DueFixed(s, now) && s.ledState == High ==> r.ledState == Low && r.ledNextRun == s.ledNextRun
    ensures !DueFixed(s, now) ==> r == s
  {
    SubAddCancel(now, LED_ON_MS);
    if DueFixed(s, now) then
      if s.ledState == Low then s.(ledState := High, ledNextRun := Add(now, LED_ON_MS))
      else s.(ledState := Low)
    else s
  }

  /** The intended heartbeat: whatever the reading `t` at which a LOW LED is
      switched HIGH, the next heartbeat `e` milliseconds later switches it
      LOW exactly when `e` exceeds one second. */
  lemma FixedHeartbeatPeriod(s: State, t: u32, e: u32)
    requires s.ledState == Low && DueFixed(s, t)
    requires e as int < HALF
    ensures HeartbeatFixed(HeartbeatFixed(s, t), Add(t, e)).ledState == Low <==> e > LED_ON_MS
  {
  }
}
