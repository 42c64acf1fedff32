# Fire alarm session

A Dafny model of the timing and escalation core of `fire_alarm.py`. This is a
Raspberry Pi program that starts when a sprinkler sensor powers the board. It
texts an escalating series of SMS alarms and lets a push button acknowledge the
alarm, which ends the session.

The model covers one run of `alarmReact.runTimer`:

- **Clock bookkeeping.** The second-of-minute reading, the minute-rollover test,
  paced polling every 100 ms, and the `runningSeconds` counter.
- **Heartbeat LEDs.** The `flipFlop` counter and the red and yellow outputs.
- **Escalation chain.** FIRST, SECOND, THIRD, then a recurring text.
- **Acknowledgement.** Six yellow pulses, then the loop flag is cleared.
- **Button state.** The interrupt callback `reactToButton` sets it. The release
  check `buttonCheckRelease` clears it.

Files:

- `escalation.dfy` (module `Escalation`): the if/elif chain as a pure function
  `Escalate(action, runningSeconds)`. It returns the new action counter and at
  most one text, given as its rung and its ordered recipients.
- `session.dfy` (module `Session`): the session state as a value, each step of a
  tick as a function, and `Next`, one iteration of the `while run` loop. `Run`
  is the loop over a finite trace of environment samples. The module also holds
  the invariant `Inv` and the lemmas proving that every iteration keeps it.
- `alarm_session.dfy` (module `Alarm`): class `AlarmSession`. Its fields are the
  loop's locals, the button state, the two LED outputs and the loop flag. A
  ghost log records every text passed to the SMS transport, together with the
  counted second it went out at. A ghost trace records the yellow levels written
  by the exit blink. Each method updates the fields in place, as the source
  does, and is proved against the matching `Session` function through
  `Snapshot()`.

Units and constants:

- Clock readings are whole microseconds of the minute, in `[0, 60_000_000)`.
  The reading has microsecond resolution, so this loses nothing.
- The polling delay is `100_000`.
- The recurring period is defined as one minute divided by the polling delay,
  the number of polls per minute (`600`). It is applied to counted seconds.

Behaviour of the code that the model keeps as it is:

- The tick that acknowledges the button still runs the escalation chain first.
  It can therefore send one last text (`PressBeforeFirstTick`).
- The tick that acknowledges still runs the release check afterwards.
- The recurring condition looks only at `runningSeconds`. It therefore holds on
  every tick of a qualifying second, about ten times (`RecurringEveryTick`).
- The rollover test looks only at the previous reading. While readings stay in
  the last 100 ms of a minute, it fires on every iteration and counts an extra
  second each time (`RolloverCanRepeat`).

The system's design description disagrees with the code in several places. The
model follows the code each time:

- The description gives a recurring period of about 60 s, with recurring texts
  at about 200 s, 260 s and 320 s. The code divides by the number of polls per
  minute, 600. The first recurring text therefore goes out at counted second
  600, then at every multiple of 600.
- The description has the release check run before the button state is examined.
  The code tests the button state first (line 125) and runs the release check
  afterwards (line 137). So a press that is released before the next tick still
  acknowledges.
- The code's comment says the exit blink has 5 pulses. The loop runs 6 times,
  and the model has 6.
- The description says at most one LED output is active at a time. The code
  keeps to this only between loop iterations. When the acknowledging tick has
  the heartbeat counter in 11..20, red is on (lines 90-92). The exit blink
  (lines 127-131) then drives yellow high six times while red is still on
  (`BlinkWhileRedOn`).

## Model

| member | source | states |
|---|---|---|
| Escalation.RecipientsFor | fire_alarm.py:100-122 | The first contact gets every text and is listed first. The second contact is added exactly for THIRD and recurring, so those rungs' recipients are a strict superset of SECOND's. |
| Escalation.Escalate | fire_alarm.py:100-122 | At most one text per call, chosen in priority order. The action counter never drops, rises by at most 1 and stays below 4. It rises exactly when a once-only rung is sent, and that rung is the next one in the ladder. Action 0 always sends FIRST. A text is sent exactly when some branch is enabled, goes to its rung's recipients, and meets its time threshold. Recurring is reached only with action at least 3, leaves action unchanged and needs a multiple of 600 that is at least 600. |
| Session.PulseTrain | fire_alarm.py:127-131 | n pulses write 2n levels to the yellow LED, alternating high and low, starting high. |
| Session.Initial | fire_alarm.py:41-70 | The initial state has both LEDs low, button state 0, counters 0 and nothing sent, and it satisfies the session invariant. |
| Session.Start | fire_alarm.py:64-70 | The runTimer prologue zeroes the loop counters and sets the loop flag. It leaves the button, the LEDs and the log untouched, and a freshly built session is unaffected. |
| Session.Press | fire_alarm.py:139-146 | The callback sets the button state to 1 and changes nothing else. |
| Session.PressKeepsInv | fire_alarm.py:139-146 | An interrupt between iterations preserves the session invariant. |
| Session.Release | fire_alarm.py:148-158 | With the input high, nothing changes. With it low, the button state becomes 0 and nothing else changes. |
| Session.Rollover | fire_alarm.py:74-77 | Only the clock fields change. The counter grows by at most 1, and grows exactly when the last reading is within one polling delay of the minute's end. When it counts, lastFloatSecond is reset and lastSecond catches up with the current whole second. Otherwise the state is left exactly as it was. |
| Session.Ticks | fire_alarm.py:74-80 | An iteration ticks only more than one polling delay into the minute. Without a rollover, it ticks exactly when the reading is more than one polling delay past the last tick's. Right after a rollover, it ticks exactly when the reading is more than one polling delay into the minute. |
| Session.CountSecond | fire_alarm.py:81-86 | The reading is stored. lastSecond becomes the larger of the last second counted and the reading's whole second. A second is counted exactly when lastSecond moved. Nothing else changes. |
| Session.Heartbeat | fire_alarm.py:88-96 | Only the LED fields change. Below 20 the counter increments. Passing 20 resets it to 0 with yellow on and red off. Counts 11..20 have red on and yellow off. Counts 1..10 keep the LEDs as they were. The LED invariant is preserved: counter at most 20, red on exactly above 10, never both on. |
| Session.Notify | fire_alarm.py:98-122 | Only the action counter and the log change. The counter rises by at most 1. The log only grows, by at most one entry, and the new entry carries the current counted second. The new counter is the escalation chain's decision, an entry is appended exactly when the chain sends a text, and the entry's text is the one the chain chose. |
| Session.NotifyKeepsLogShape | fire_alarm.py:100-122 | The text a tick sends keeps the log shape: FIRST, SECOND, THIRD in order, then recurring texts only, every entry on time and to its rung's recipients, ordered by counted second. |
| Session.Acknowledge | fire_alarm.py:124-134 | With the button state set, the exit blink's six pulses are appended to the trace, yellow ends low and the loop flag is cleared, with nothing else changed. With it clear, nothing changes. |
| Session.Tick | fire_alarm.py:81-137 | The reading is stored, and a second is counted exactly when its whole second moved past the last one counted. The escalation chain decides on the updated count: its new action counter is kept, and its text, if any, is appended with that count. The loop flag is cleared and the six pulses are emitted exactly when the button state was set, and then yellow ends low. The release check runs last. The LED invariant is preserved. |
| Session.Next | fire_alarm.py:72-137 | One loop iteration. runningSeconds and action each grow by at most 1 and never drop. At most one text is appended. Without a tick, only the clock fields change. The loop flag is cleared exactly when a tick finds the button state set, which is also exactly when the six pulses are emitted. The iteration never sets the button state, and clears it exactly on a tick that reads the input low. |
| Session.Run | fire_alarm.py:72-137 | Over a trace of n iterations, the counters grow by at most n and the log by at most n entries, and earlier texts stay in the log. A stopped session stays unchanged, and a session still running at the end was running at the start. |
| Session.Iterate | fire_alarm.py:54-137 | An interrupt, then one loop iteration. A press followed by a ticking iteration always ends the session with the six-pulse blink. A press followed by an iteration without a tick stays recorded in the button state. After a press, only a tick that reads the input low clears it. A session running afterwards was running before. |
| Session.NextPreservesInv | fire_alarm.py:72-137 | Every iteration of a running session preserves the invariant on clock bounds, LEDs, button state, log shape and exit trace. |
| Session.RunPreservesInv | fire_alarm.py:72-137 | The invariant holds after any finite run of the loop in which the interrupt may fire between iterations. |
| Session.LadderSentOnce | fire_alarm.py:100-117 | In a well-shaped log, FIRST, SECOND and THIRD each appear exactly once once the action counter has passed them, and not at all before. |
| Session.SessionGuarantees | fire_alarm.py:58-137 | From construction, every run keeps the heartbeat counter within 0..20, has the two LEDs not both on at the end of every loop iteration, keeps action within 0..3 and the button state within 0..1, and sends each once-only rung at most once. |
| Session.RecurringEveryTick | fire_alarm.py:118-122 | At the top of the ladder, with a qualifying counted second, every tick that stays in that second sends the recurring text again to both contacts. |
| Session.RolloverCanRepeat | fire_alarm.py:73-86 | Two iterations that both read inside second 59, after a tick at 59.9 s, count two seconds, and lastSecond stays 59. |
| Session.PressBeforeFirstTick | fire_alarm.py:98-137 | A press before the first tick gives a final state with only FIRST (to the first contact) sent, the six-pulse blink, the loop flag cleared and the button state cleared. |
| Session.BlinkWhileRedOn | fire_alarm.py:88-131 | When the acknowledging tick has the heartbeat counter in 11..20, red stays on while the exit blink drives yellow high. |
| Alarm.AlarmSession.constructor | fire_alarm.py:28-54 | The new session's state is the initial state. |
| Alarm.AlarmSession.ReactToButton | fire_alarm.py:139-146 | Sets the button state to 1. The new state is Press of the old. |
| Alarm.AlarmSession.ButtonCheckRelease | fire_alarm.py:148-158 | Clears the button state only when the input reads low. The new state is Release of the old. |
| Alarm.AlarmSession.ExitBlink | fire_alarm.py:127-131 | Writes six high/low pulses to the yellow LED and leaves it low. A counted loop does this, with the trace invariant. |
| Alarm.AlarmSession.IndexTimer | fire_alarm.py:81-86 | The new state is CountSecond of the old. |
| Alarm.AlarmSession.FlashLeds | fire_alarm.py:88-96 | The new state is Heartbeat of the old. |
| Alarm.AlarmSession.SendNotification | fire_alarm.py:98-122 | The new state is Notify of the old. It sends at most one text, logs it, and advances the action counter. |
| Alarm.AlarmSession.CheckButton | fire_alarm.py:124-134 | The new state is Acknowledge of the old. |
| Alarm.AlarmSession.Tick | fire_alarm.py:80-137 | The new state is the tick function of the old state. |
| Alarm.AlarmSession.Poll | fire_alarm.py:72-137 | The new state is Next of the old, and a running session's invariant is preserved. |
| Alarm.AlarmSession.RunTimer | fire_alarm.py:58-137 | The new state is Run of the prologue state over the trace. For a freshly built session, the invariant holds at the end. |

## Left out

- GPIO setup, output and input calls (lines 38-54): the LEDs are boolean fields. The button input is the boolean parameter `inputHigh` of the release check.
- The hardware debounce window of the interrupt (`bouncetime`): the callback is an operation the environment may call between loop iterations. Repeated presses just set the same value again.
- Concurrency between the interrupt and the poll loop: presses happen only between iterations, never in the middle of one.
- The `sleep` calls (lines 129-131, 142, 153): these are real-time delays. Only the number and order of the pulses are kept.
- The SMS transport and `print`: these are foreign I/O. Each send is recorded in a ghost log instead, and delivery failures are not modelled, as in the source.
- The time-zone-formatted timestamps in message texts (lines 99, 172): texts carry only their rung and recipients.
- The wall clock: its second-of-minute readings are environment parameters, assumed to lie in `[0, 60 s)`.
- Float rounding: `lastFloatSecond + pollingDelay` and `60/pollingDelay` are computed in integer microseconds. The float divisibility test at line 118 is modelled as `runningSeconds % 600 == 0`.
- Session.Run: the source loop runs unbounded. The model runs it over a finite trace of samples, so reaching acknowledgement depends on the trace containing a tick after the press.
- `remote_startUp`, the `__main__` block, `GPIO.cleanup` and `RPiUtilities.shutdownRPI` (lines 160-181): process and host plumbing.
- The unused fields `buttonAction` and `numberBlinks`, the pin numbers and `buttonDebounce`: they do not affect the logic.
