/** The firmware's actuation state: the level driven on the relay pin `D1`,
    the pending-pulse deadline `triggerTimeout` (0 reads as "no pulse
    pending"), and the heartbeat LED pair `ledState` / `ledNextRun`. Every
    handler of the firmware is a pure transition on this record. */
module Relay {
  import opened Word32

  /** A digital pin level, `LOW` or `HIGH`. */
  datatype Level = Low | High

  datatype State = State(
    relay: Level,          // level last written to D1
    triggerTimeout: u32,   // deadline of a pending pulse, 0 when none
    ledState: Level,       // level last chosen for LED_BUILTIN
    ledNextRun: u32        // the heartbeat acts once a reading exceeds this
  )

  /** The `triggerTimeout` value that means "no pulse pending". */
  const NO_PULSE: u32 := 0

  /** Pulse length of the OSC `/relay/trigger` handler, in milliseconds. */
  const OSC_PULSE_MS: u32 := 1000

  /** Pulse length of the HTTP `POST /trigger` handler, in milliseconds. */
  const HTTP_PULSE_MS: u32 := 100

  /** How long the heartbeat LED stays HIGH before it is switched LOW. */
  const LED_ON_MS: u32 := 1000

  predicate PulsePending(s: State)
  {
    s.triggerTimeout != NO_PULSE
  }

  /** The heartbeat pair is untouched. */
  predicate LedUnchanged(s: State, r: State)
  {
    r.ledState == s.ledState && r.ledNextRun == s.ledNextRun
  }

  /** Relay level and pulse deadline are untouched. */
  predicate RelayUnchanged(s: State, r: State)
  {
    r.relay == s.relay && r.triggerTimeout == s.triggerTimeout
  }

  /** The state once `setup` has driven D1 LOW: the globals keep their
      static initial values (no pulse, LED LOW, next LED run at 0). */
  function Boot(): (s: State)
    ensures s.relay == Low
    ensures !PulsePending(s)
    ensures s.ledState == Low && s.ledNextRun == 0
  {
    State(Low, NO_PULSE, Low, 0)
  }

  /** `digitalWrite(D1, HIGH)` without touching the deadline: the body of
      both activate handlers. A pending pulse survives it. */
  function Activate(s: State): (r: State)
    ensures r.relay == High
    ensures r.triggerTimeout == s.triggerTimeout
    ensures LedUnchanged(s, r)
  {
    s.(relay := High)
  }

  /** `digitalWrite(D1, LOW)` without touching the deadline: the body of
      both deactivate handlers. A pending pulse survives it too. */
  function Deactivate(s: State): (r: State)
    ensures r.relay == Low
    ensures r.triggerTimeout == s.triggerTimeout
    ensures LedUnchanged(s, r)
  {
    s.(relay := Low)
  }

  /** Drive D1 HIGH and overwrite the deadline with the wrapped sum of the
      clock reading and the pulse length. */
  function Trigger(s: State, now: u32, pulse: u32): (r: State)
    ensures r.relay == High
    ensures now as int + pulse as int < MODULUS ==> r.triggerTimeout as int == now as int + pulse as int
    ensures now as int + pulse as int >= MODULUS ==> r.triggerTimeout as int == now as int + pulse as int - MODULUS
    ensures LedUnchanged(s, r)
  {
    s.(relay := High, triggerTimeout := Add(now, pulse))
  }

  /** The expiry check of `loop`: it fires only for a nonzero deadline that
      is strictly below the raw reading. */
  predicate Expired(s: State, now: u32)
  {
    s.triggerTimeout != NO_PULSE && s.triggerTimeout < now
  }

  function Expire(s: State, now: u32): (r: State)
    ensures Expired(s, now) ==> r.relay == Low && !PulsePending(r)
    ensures !Expired(s, now) ==> r == s
    ensures LedUnchanged(s, r)
  {
    if Expired(s, now) then s.(relay := Low, triggerTimeout := NO_PULSE) else s
  }

  /** The heartbeat of `loop`: once the reading passes `ledNextRun`, a LOW
      LED turns HIGH and schedules the next run one second later, while a
      HIGH LED turns LOW and leaves `ledNextRun` alone (so it turns HIGH
      again on the next iteration). */
  function Heartbeat(s: State, now: u32): (r: State)
    ensures RelayUnchanged(s, r)
    ensures s.ledNextRun < now && s.ledState == Low ==> r.ledState == High && r.ledNextRun == Add(now, LED_ON_MS)
    ensures s.ledNextRun < now && s.ledState == High ==> r.ledState == Low && r.ledNextRun == s.ledNextRun
    ensures now <= s.ledNextRun ==> r == s
  {
    if s.ledNextRun < now then
      if s.ledState == Low then s.(ledState := High, ledNextRun := Add(now, LED_ON_MS))
      else s.(ledState := Low)
    else s
  }

  // ---------------------------------------------------------------------
  // Properties relating the handlers to each other.

  /** Only the last level written survives: activate then deactivate is a
      plain deactivate, and the other way round. Neither touches a pulse. */
  lemma LastLevelWins(s: State)
    ensures Deactivate(Activate(s)) == Deactivate(s)
    ensures Activate(Deactivate(s)) == Activate(s)
    ensures Deactivate(Activate(s)).triggerTimeout == s.triggerTimeout
  {
  }

  /** Activate then deactivate brings a booted device back to its boot state. */
  lemma ActivateDeactivateRoundTrip()
    ensures Deactivate(Activate(Boot())) == Boot()
  {
  }

  /** Triggers do not stack: a second trigger replaces the first deadline. */
  lemma TriggerLastWriteWins(s: State, t1: u32, p1: u32, t2: u32, p2: u32)
    ensures Trigger(Trigger(s, t1, p1), t2, p2) == Trigger(s, t2, p2)
    ensures Trigger(Activate(s), t2, p2) == Trigger(s, t2, p2)
  {
  }

  /** An activate issued while a pulse is pending does not cancel it: the
      pulse still drives D1 LOW once its deadline passes. */
  lemma ActivateDoesNotCancelPulse(s: State, now: u32)
    requires Expired(s, now)
    ensures Expire(Activate(s), now).relay == Low
    ensures !PulsePending(Expire(Activate(s), now))
  {
  }

  /** Expiry is idempotent, and once it has fired no later reading touches
      the relay again until a new trigger. */
  lemma ExpireIdempotent(s: State, now: u32, later: u32)
    ensures Expire(Expire(s, now), now) == Expire(s, now)
    ensures Expired(s, now) ==> Expire(Expire(s, now), later) == Expire(s, now)
  {
  }

  /** The comparison is strict: at the deadline itself D1 is still HIGH. */
  lemma HighAtDeadline(s: State)
    requires s.relay == High
    ensures Expire(s, s.triggerTimeout).relay == High
  {
  }

  /** Without wrap-around a pulse behaves as intended: a trigger at `t0`
      keeps D1 HIGH at a reading `e` milliseconds later exactly when
      `e <= pulse`. */
  lemma PulseLengthWithoutWrap(s: State, t0: u32, pulse: u32, e: nat)
    requires 0 < pulse
    requires t0 as int + pulse as int < MODULUS
    requires t0 as int + e < MODULUS
    ensures Expire(Trigger(s, t0, pulse), (t0 as int + e) as u32).relay == High <==> e <= pulse as int
  {
  }

  /** As written, a deadline that wraps past 2^32 to a nonzero value is
      numerically smaller than the reading it was computed from, so every
      expiry check that reads a pre-wrap time fires: one millisecond after
      the trigger the pulse is already over. The expiry check of the
      trigger's own pass fires too (`Firmware.WrappedTriggerReleasedInItsOwnPass`). */
  lemma WrappedDeadlineCutsPulseShort(s: State, t0: u32, pulse: u32)
    requires t0 as int + pulse as int > MODULUS
    requires t0 as int + 1 < MODULUS
    ensures Expire(Trigger(s, t0, pulse), t0 + 1).relay == Low
  {
  }

  /** As written, a deadline that wraps to exactly 0 reads as "no pulse":
      the relay stays HIGH at every later reading. */
  lemma WrappedDeadlineZeroIsLost(s: State, t0: u32, pulse: u32, later: u32)
    requires t0 as int + pulse as int == MODULUS
    ensures !PulsePending(Trigger(s, t0, pulse))
    ensures Expire(Trigger(s, t0, pulse), later).relay == High
  {
  }

  /** As written, a deadline that reaches 0xFFFFFFFF without wrapping is
      pending but no 32-bit reading is ever strictly above it, so the pulse
      never ends and the relay stays HIGH at every later reading. */
  lemma MaxDeadlineIsLost(s: State, t0: u32, pulse: u32, later: u32)
    requires t0 as int + pulse as int == MODULUS - 1
    ensures PulsePending(Trigger(s, t0, pulse))
    ensures Expire(Trigger(s, t0, pulse), later) == Trigger(s, t0, pulse)
    ensures Expire(Trigger(s, t0, pulse), later).relay == High
  {
  }

  /** As written, a heartbeat that schedules its next run at 0xFFFFFFFF
      (a LOW LED seen at reading 0xFFFFFC17) never acts again: no 32-bit
      reading is strictly above `ledNextRun`, so the LED stays HIGH. */
  lemma MaxLedNextRunStopsHeartbeat(s: State, t: u32, later: u32)
    requires s.ledState == Low && s.ledNextRun < t
    requires t as int + LED_ON_MS as int == MODULUS - 1
    ensures Heartbeat(s, t).ledState == High
    ensures Heartbeat(Heartbeat(s, t), later) == Heartbeat(s, t)
  {
  }

  /** A LED that has just been switched LOW is switched back HIGH by the
      next heartbeat whose reading is still past `ledNextRun`, which then
      reschedules one second ahead. */
  lemma HeartbeatCycle(s: State, n1: u32, n2: u32)
    requires s.ledState == High
    requires s.ledNextRun < n1 && s.ledNextRun < n2
    ensures Heartbeat(Heartbeat(s, n1), n2).ledState == High
    ensures Heartbeat(Heartbeat(s, n1), n2).ledNextRun == Add(n2, LED_ON_MS)
  {
  }
}
