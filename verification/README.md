# ESP8266 OSC relay: a verified model of the actuation state machine

The firmware drives one relay on pin `D1` of an ESP8266. It accepts three
OSC commands over UDP port 53000 (`/relay/activate`, `/relay/deactivate`,
`/relay/trigger`) and, when built with `HTTP`, three form POSTs
(`/activate`, `/deactivate`, `/trigger`). A trigger drives the relay HIGH
and records a deadline in `triggerTimeout`. Each pass of `loop` drives the
relay LOW once a reading of `millis()` is past that deadline, and then
blinks the built-in LED as a heartbeat.

The model is a set of pure functions over an immutable state record
`Relay.State`. The record holds the relay level, `triggerTimeout` (0 means
no pulse), `ledState` and `ledNextRun`. All clock values are 32-bit and
wrap modulo 2^32, as `unsigned long` does on the ESP8266.

- `word32.dfy`: `unsigned long` values and wrapping addition.
- `relay.dfy`: the state, boot state, handler effects, expiry check and heartbeat.
- `osc.dfy`: `receiveOSC`. A decoded packet is offered to the three-route table in order. A packet with a decode error is dropped.
- `http.dfy`: the four `server.on` registrations, the not-found answer, and the effects and responses of the handlers.
- `firmware.dfy`: one pass of `loop`, runs of passes from `setup`, and the run properties.
- `pulse_fix.dfy`: the corrected, wrap-safe pulse that goes with the findings below.

The library calls become inputs:
- `millis()` is four clock readings per pass. The OSC trigger, the HTTP trigger, the expiry check and the heartbeat each read the clock separately.
- `Udp.parsePacket`/`OSCMessage.fill` are an optional decoded `Osc.Packet`.
- `server.handleClient` is an optional `Http.Request`.
- `digitalWrite(D1, …)` is the `relay` field.

Behaviour the model keeps:
- There is one relay. No channel argument or `relay=` form field is read, so `/activate` answers 200 whether or not a `relay` field is sent.
- Activate and deactivate leave a pending pulse in place. It later drives the relay LOW.
- There is no `/relay/momentary` route.
- The OSC pulse is 1000 ms and the HTTP pulse is 100 ms.
- Expiry uses a strict `<` on raw values, so the relay is still HIGH at the deadline. The comparison is not wrap-safe.
- Within a pass, dispatch runs BEFORE the expiry check. An activate that arrives in the pass where a pulse expires is undone at once.

## Model

| member | source | states |
|---|---|---|
| Word32.Add | src/main.cpp:97 | the sum of a reading and a duration is exact below 2^32 and wraps by exactly 2^32 above it |
| Relay.Boot | src/main.cpp:228-229 | after setup the relay is LOW, no pulse is pending (`triggerTimeout == 0`), LED LOW with `ledNextRun == 0` |
| Relay.Activate | src/main.cpp:87-89 | activate drives the relay HIGH and leaves `triggerTimeout` and the LED untouched, so a pending pulse is not cancelled |
| Relay.Deactivate | src/main.cpp:91-93 | deactivate drives the relay LOW and leaves `triggerTimeout` and the LED untouched |
| Relay.Trigger | src/main.cpp:95-98 | trigger drives the relay HIGH and sets the deadline to reading plus pulse, wrapped modulo 2^32 |
| Relay.Expire | src/main.cpp:257-260 | when the deadline is nonzero and strictly below the reading the relay goes LOW and the deadline is cleared; otherwise nothing changes |
| Relay.Heartbeat | src/main.cpp:263-272 | past `ledNextRun` a LOW LED goes HIGH and reschedules at reading plus 1000, a HIGH LED goes LOW keeping `ledNextRun`; otherwise nothing changes; relay untouched |
| Relay.LastLevelWins | src/main.cpp:87-93 | activate then deactivate equals deactivate alone and vice versa; neither touches the deadline |
| Relay.ActivateDeactivateRoundTrip | src/main.cpp:87-93 | activate then deactivate returns a booted device to its boot state |
| Relay.TriggerLastWriteWins | src/main.cpp:95-98 | a second trigger replaces the first deadline (no stacking); an earlier activate makes no difference to a trigger |
| Relay.ActivateDoesNotCancelPulse | src/main.cpp:87-89 | a pending pulse whose deadline has passed drives the relay LOW even after an activate |
| Relay.ExpireIdempotent | src/main.cpp:257-260 | expiry is idempotent, and once fired no later reading changes anything |
| Relay.HighAtDeadline | src/main.cpp:257 | the strict comparison keeps the relay HIGH at a reading equal to the deadline |
| Relay.PulseLengthWithoutWrap | src/main.cpp:257-260 | without wrap-around, a trigger at `t0` leaves the relay HIGH at `t0 + e` exactly when `e <= pulse` |
| Relay.WrappedDeadlineCutsPulseShort | src/main.cpp:257 | a deadline that wraps to a nonzero value has already expired one millisecond after the trigger, before the clock wraps |
| Relay.MaxDeadlineIsLost | src/main.cpp:257 | a deadline that reaches 0xFFFFFFFF without wrapping stays pending but no reading exceeds it, so the relay stays HIGH at every later reading |
| Relay.WrappedDeadlineZeroIsLost | src/main.cpp:97 | a deadline that wraps to exactly 0 reads as no pulse and the relay stays HIGH at every later reading |
| Relay.MaxLedNextRunStopsHeartbeat | src/main.cpp:264-267 | a LOW LED switched HIGH at reading 0xFFFFFC17 gets `ledNextRun` 0xFFFFFFFF, and no later heartbeat ever changes anything |
| Relay.HeartbeatCycle | src/main.cpp:263-272 | a HIGH LED past `ledNextRun` goes LOW, then HIGH again on the next pass, rescheduled one second ahead |
| Osc.Apply | src/main.cpp:87-98 | every OSC handler leaves the LED alone; only deactivate drives the relay LOW, the other two drive it HIGH; only trigger changes the deadline, to the reading plus 1000 ms wrapped |
| Osc.RouteAll | src/main.cpp:113-115 | a message no route matches leaves the state unchanged; routing never touches the LED |
| Osc.ReceiveWith | src/main.cpp:107-119 | no packet, or a packet whose decode reports an error, changes nothing |
| Osc.Receive | src/main.cpp:100-122 | `receiveOSC` with exact address matching: no packet or a malformed one changes nothing |
| Osc.CommandOf | src/main.cpp:113-115 | an address names an action exactly when it equals that route's pattern, and names none when it matches no route |
| Osc.ReceiveMatchesCommand | src/main.cpp:113-115 | dispatch through the table runs exactly the handler the address names, and nothing for an unknown address |
| Osc.ArgumentsIgnored | src/main.cpp:87-98 | messages with the same address have the same effect whatever their arguments |
| Osc.NoMomentaryRoute | src/main.cpp:113-115 | `/relay/momentary` changes nothing |
| Osc.EveryMatchingRouteRuns | src/main.cpp:113-115 | a message every route matches runs all three handlers in order, ending as a trigger |
| Http.Lookup | src/main.cpp:236-239 | a handler is found exactly when some registration has the request's method and path, and it is that registration's handler |
| Http.Serve | src/main.cpp:129-143 | POST `/activate`, `/deactivate` and `/trigger` (100 ms pulse) take effect and answer 200 with an empty body; GET `/` answers the control page and changes nothing; every other method and path answers 404 and changes nothing |
| Http.LookupMatchesHandlerOf | src/main.cpp:236-242 | lookup through the registrations agrees with the reference reading of (method, path) for every request |
| Http.ResponseIndependentOfStateAndForm | src/main.cpp:129-143 | the response depends only on method and path, never on the form body, the relay state or the clock, and is 200 or 404 |
| Http.ServeFrame | src/main.cpp:125-143 | serving never touches the LED, and a request that reaches no actuation handler changes nothing |
| Firmware.Step | src/main.cpp:249-273 | a pass answers HTTP exactly when built with `HTTP` and a request came in; the LED follows the heartbeat whatever the relay commands |
| Firmware.StepOrder | src/main.cpp:249-273 | every pass runs the OSC handler its address names, then the HTTP handler its request reaches, then the expiry check, then the heartbeat, each on its own clock reading |
| Firmware.OscStage | src/main.cpp:107-119 | `receiveOSC` has the effect of the handler the packet's address names, or none |
| Firmware.HttpStage | src/main.cpp:253-255 | `server.handleClient` has the effect of the handler the request reaches, or none when the build has no HTTP or no request came in |
| Firmware.InertStep | src/main.cpp:249-273 | a pass with no actuating command is the expiry check followed by the heartbeat, and answers as the request's path says |
| Firmware.ExpiryOverridesSamePassActivate | src/main.cpp:251-260 | an activate in the pass where a pending pulse expires is undone: the pass ends LOW |
| Firmware.TriggerSurvivesItsOwnPass | src/main.cpp:251-260 | a trigger is not expired by its own pass when the expiry reading is not past its deadline |
| Firmware.WrappedTriggerReleasedInItsOwnPass | src/main.cpp:251-260 | a trigger whose deadline wraps past 2^32 is released by the expiry check of its own pass when that reading is not earlier than the trigger's |
| Firmware.InertRunOutcome | src/main.cpp:257-260 | across passes without commands, relay and deadline stay as they were unless the pulse fired and left the relay LOW |
| Firmware.InertRunExpiry | src/main.cpp:257-260 | across passes without commands a pending pulse is cleared exactly when some expiry reading exceeds its deadline, which leaves the relay LOW; otherwise nothing changes |
| Firmware.StaysLowWithoutEnergizing | src/main.cpp:249-260 | from LOW, a run without any activate or trigger keeps the relay LOW |
| Firmware.StepResponse | src/main.cpp:253-255 | the HTTP answer of a pass depends only on the build and the request |
| Firmware.RunFirmware | src/main.cpp:249-273 | running passes after setup yields the state of the pass sequence and one HTTP answer per pass, given by the request alone |
| PulseFix.TriggerFixed | src/main.cpp:95-98 | corrected trigger: relay HIGH, pulse marked pending by its own flag, deadline exactly `pulse` ms after the reading modulo 2^32 |
| PulseFix.ExpireFixed | src/main.cpp:257-260 | corrected expiry: fires when the reading is strictly after the deadline by less than half the clock range |
| PulseFix.FixedPulseLength | src/main.cpp:257-260 | corrected pulse: for any trigger reading, the relay is HIGH `e` ms later exactly when `e <= pulse` |
| PulseFix.HeartbeatFixed | src/main.cpp:263-272 | corrected heartbeat: acts when the reading is strictly after `ledNextRun` by less than half the clock range; a LOW LED goes HIGH with the next run exactly 1000 ms ahead, a HIGH LED goes LOW |
| PulseFix.FixedHeartbeatPeriod | src/main.cpp:263-272 | corrected heartbeat: for any reading at which the LED goes HIGH, the heartbeat `e` ms later switches it LOW exactly when `e > 1000` |
| PulseFix.WrapNearTopOfClock | src/main.cpp:257 | trigger at 0xFFFFFED8: the as-written check has ended the pulse 1 ms later, the corrected one keeps it |
| PulseFix.WrapToZero | src/main.cpp:97 | trigger at 0xFFFFFC18: the as-written firmware never ends the pulse, the corrected one ends it after 1001 ms |

## Left out

- WiFiManager's captive portal, the `ESP.reset` path, and the config-mode `Ticker` blink (`tick`, `configModeCallback`): these are network and hardware side effects.
- ArduinoOTA setup and its callbacks, mDNS registration and all Serial logging: these are foreign library calls and output.
- The `error` global written on a decode failure: it is only logged.
- UDP byte reading and the OSC wire decoding: a pass receives an already decoded `Osc.Packet`.
- The OSC library's own pattern matching is not visible. `Osc.ReceiveWith` takes any matcher, and the firmware model uses exact address equality.
- The HTTP server's socket handling: at most one request per pass is modelled.
- The HTML text of the control page and the content types of the answers: the page is the token `ControlPage`.
- Hostname construction with `sprintf` and the chip id: this is formatting over a hardware value.
- `pinMode` calls and the physical LED pin: the LED is modelled by `ledState`, the value each heartbeat writes to it.
- Clock readings are arbitrary 32-bit values. The model does not assume that readings within or across passes increase.
- Osc.RouteAll: its own contract states only the case where no route matches. What matching routes do is stated by `Osc.ReceiveMatchesCommand` and `Osc.EveryMatchingRouteRuns`.
- Firmware.Step: its own contract covers only the HTTP answer and the heartbeat. Its effect on the relay and the deadline is stated by `Firmware.StepOrder`.

## Findings

| source | as written | input that shows it | evidently intended | confidence | as-written member | corrected member |
|---|---|---|---|---|---|---|
| src/main.cpp:257 | `triggerTimeout < millis()` compares raw 32-bit values, and the deadline `millis() + 1000` wraps past 2^32 | OSC trigger at reading 0xFFFFFED8 stores deadline 704; the expiry check of the same pass reads a value no earlier than 0xFFFFFED8, finds 704 below it and drives the relay LOW in that pass | the pulse lasts its full length wherever the clock stands | not executed | Relay.WrappedDeadlineCutsPulseShort | PulseFix.FixedPulseLength |
| src/main.cpp:97 | a deadline of 0 doubles as "no pulse pending" | OSC trigger at reading 0xFFFFFC18 stores deadline 0, so no expiry check ever fires and the relay stays HIGH | the pulse ends 1000 ms after the trigger | not executed | Relay.WrappedDeadlineZeroIsLost | PulseFix.FixedPulseLength |
| src/main.cpp:257 | `triggerTimeout < millis()` can never hold for the largest deadline | OSC trigger at reading 0xFFFFFC17 (or HTTP trigger at 0xFFFFFF9B) stores deadline 0xFFFFFFFF, which no 32-bit reading exceeds, so the relay stays HIGH | the pulse ends 1000 ms (or 100 ms) after the trigger | not executed | Relay.MaxDeadlineIsLost | PulseFix.FixedPulseLength |
| src/main.cpp:264 | `ledNextRun < currentMillis` can never hold once `ledNextRun` is 0xFFFFFFFF | a heartbeat with the LED LOW at reading 0xFFFFFC17 sets `ledNextRun` to 0xFFFFFFFF, after which the LED stays HIGH and the heartbeat stops | the LED blinks once a second forever | not executed | Relay.MaxLedNextRunStopsHeartbeat | PulseFix.FixedHeartbeatPeriod |

The corrected pulse in `PulseFix` keeps "pending" in its own flag. Its
expiry compares the signed distance from the deadline to the reading, so
it is wrap-safe. The corrected heartbeat uses the same comparison. The loop model in `Firmware` keeps the as-written checks,
because it models the firmware as it ships. `PulseFix.WrapNearTopOfClock`
and `PulseFix.WrapToZero` state what both versions do on the inputs in the table.
