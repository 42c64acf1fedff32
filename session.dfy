/** The state of one alarm session as a value, one iteration of the poll loop
    as a function on it, a run of the loop over a finite trace of what the
    environment does, and the invariants every iteration keeps. */
module Session {
  import opened Escalation

  /** One entry of the log of texts handed to the transport: the text and the
      counted second at which it went out. */
  datatype Sent = Sent(notice: Notice, atSecond: nat)

  /** The locals of the poll loop, the button state, the two LED outputs, the
      loop flag, the texts sent so far and the yellow levels written by the
      acknowledgement blink. Clock readings are in microseconds of the minute. */
  datatype State = State(
    runningSeconds: nat,
    action: nat,
    lastFloatSecond: nat,
    lastSecond: nat,
    flipFlop: nat,
    red: bool,
    yellow: bool,
    buttonState: nat,
    run: bool,
    log: seq<Sent>,
    exitTrace: seq<bool>)

  /** What happens around one loop iteration: whether the button interrupt fired
      before it, the second-of-minute reading, and the level of the button input. */
  datatype Sample = Sample(pressed: bool, clock: nat, inputHigh: bool)

  /** Number of yellow on/off pulses of the acknowledgement blink. */
  const ExitPulses: nat := 6

  /** Heartbeat counter thresholds. */
  const RedAfter: nat := 10
  const YellowAfter: nat := 20

  predicate ValidTrace(env: seq<Sample>)
  {
    forall i :: 0 <= i < |env| ==> env[i].clock < MicrosPerMinute
  }

  /** The levels written to the yellow LED by n high/low pulses. */
  function PulseTrain(n: nat): (r: seq<bool>)
    ensures |r| == 2 * n
    ensures forall i :: 0 <= i < |r| ==> r[i] == (i % 2 == 0)
  {
    if n == 0 then [] else PulseTrain(n - 1) + [true, false]
  }

  ghost predicate LedInv(flipFlop: nat, red: bool, yellow: bool)
  {
    flipFlop <= YellowAfter && (red <==> flipFlop > RedAfter) && !(red && yellow)
  }

  ghost predicate WellTimed(e: Sent)
  {
    e.notice.recipients == RecipientsFor(e.notice.rung) && ThresholdMet(e.notice.rung, e.atSecond)
  }

  /** The log holds FIRST, SECOND, THIRD (as far as the action counter has got)
      followed only by recurring texts, which appear only once the counter is 3;
      every text went to its rung's recipients once its time condition held,
      and the log is in the order of the counted seconds. */
  ghost predicate LogShape(log: seq<Sent>, action: nat, runningSeconds: nat)
  {
    action <= 3 && action <= |log| &&
    (action < 3 ==> |log| == action) &&
    (forall i :: 0 <= i < action ==> log[i].notice.rung == LadderRung(i)) &&
    (forall i :: action <= i < |log| ==> log[i].notice.rung == Recurring) &&
    (forall i :: 0 <= i < |log| ==> WellTimed(log[i]) && log[i].atSecond <= runningSeconds) &&
    (forall i, j :: 0 <= i < j < |log| ==> log[i].atSecond <= log[j].atSecond)
  }

  ghost predicate Inv(s: State)
  {
    s.lastFloatSecond < MicrosPerMinute && s.lastSecond < 60 &&
    LedInv(s.flipFlop, s.red, s.yellow) &&
    s.buttonState <= 1 &&
    LogShape(s.log, s.action, s.runningSeconds) &&
    s.exitTrace == (if s.run then [] else PulseTrain(ExitPulses))
  }

  /** The state right after construction: LEDs low, no button, loop counters at zero. */
  function Initial(): (s: State)
    ensures Inv(s) && s.run
    ensures s.log == [] && s.exitTrace == [] && s.action == 0 && s.runningSeconds == 0
    ensures !s.red && !s.yellow && s.buttonState == 0
  {
    State(0, 0, 0, 0, 0, false, false, 0, true, [], [])
  }

  /** The prologue of the timer: the loop counters start at zero and the loop flag is set;
      the button state, the LEDs and what was sent are left as they are. */
  function Start(s: State): (r: State)
    ensures r.run && r.runningSeconds == 0 && r.action == 0 && r.flipFlop == 0
    ensures r.lastFloatSecond == 0 && r.lastSecond == 0
    ensures r == s.(runningSeconds := 0, action := 0, lastFloatSecond := 0, lastSecond := 0,
                    flipFlop := 0, run := true)
    ensures s == Initial() ==> r == s
  {
    s.(runningSeconds := 0, action := 0, lastFloatSecond := 0, lastSecond := 0, flipFlop := 0, run := true)
  }

  /** The edge-triggered button callback: the button state becomes 1, nothing else changes. */
  function Press(s: State): (r: State)
    ensures r.buttonState == 1 && r.(buttonState := s.buttonState) == s
  {
    s.(buttonState := 1)
  }

  /** The interrupt may arrive between any two iterations without breaking the invariants. */
  lemma PressKeepsInv(s: State)
    requires Inv(s)
    ensures Inv(Press(s))
  {
  }

  /** The release check: the button state is cleared only when the input reads low. */
  function Release(s: State, inputHigh: bool): (r: State)
    ensures inputHigh ==> r == s
    ensures !inputHigh ==> r.buttonState == 0 && r.(buttonState := s.buttonState) == s
  {
    if !inputHigh then s.(buttonState := 0) else s
  }

  /** Minute rollover: once the last poll's reading is within one polling delay of the
      minute's end, it is reset and one second is counted. */
  function Rollover(s: State, thisSecond: nat): (r: State)
    ensures r.(lastFloatSecond := s.lastFloatSecond, lastSecond := s.lastSecond,
               runningSeconds := s.runningSeconds) == s
    ensures s.runningSeconds <= r.runningSeconds <= s.runningSeconds + 1
    ensures r.runningSeconds == s.runningSeconds + 1 <==> s.lastFloatSecond + PollingDelay >= MicrosPerMinute
    // after counting, the whole-second marker has caught up with the reading
    ensures r.runningSeconds == s.runningSeconds + 1 ==>
      r.lastFloatSecond == 0 && r.lastSecond == thisSecond / MicrosPerSecond
    // otherwise the state is left exactly as it was
    ensures s.lastFloatSecond + PollingDelay < MicrosPerMinute ==> r == s
  {
    if s.lastFloatSecond + PollingDelay >= MicrosPerMinute then
      s.(lastFloatSecond := 0, lastSecond := thisSecond / MicrosPerSecond, runningSeconds := s.runningSeconds + 1)
    else
      s
  }

  /** Paced polling: an iteration does the work of a tick only when the reading
      is more than one polling delay past the last tick's (or, right after a
      rollover, more than one polling delay into the minute). */
  function Ticks(s: State, thisSecond: nat): (b: bool)
    ensures b ==> thisSecond > PollingDelay
    ensures s.lastFloatSecond + PollingDelay < MicrosPerMinute ==>
      (b <==> thisSecond > s.lastFloatSecond + PollingDelay)
    ensures s.lastFloatSecond + PollingDelay >= MicrosPerMinute ==> (b <==> thisSecond > PollingDelay)
  {
    thisSecond > Rollover(s, thisSecond).lastFloatSecond + PollingDelay
  }

  /** The start of a tick: remember the reading, and count a second when its
      whole-second part has moved past the last one counted. */
  function CountSecond(s: State, thisSecond: nat): (r: State)
    ensures r.(lastSecond := s.lastSecond, runningSeconds := s.runningSeconds) == s.(lastFloatSecond := thisSecond)
    // lastSecond becomes the larger of the last one counted and the reading's whole second
    ensures r.lastSecond >= s.lastSecond && r.lastSecond >= thisSecond / MicrosPerSecond
    ensures r.lastSecond == s.lastSecond || r.lastSecond == thisSecond / MicrosPerSecond
    ensures r.runningSeconds == s.runningSeconds + (if r.lastSecond == s.lastSecond then 0 else 1)
  {
    var s1 := s.(lastFloatSecond := thisSecond);
    if thisSecond / MicrosPerSecond > s1.lastSecond then
      s1.(lastSecond := thisSecond / MicrosPerSecond, runningSeconds := s1.runningSeconds + 1)
    else
      s1
  }

  /** The heartbeat LEDs, driven by a counter of ticks. */
  function Heartbeat(s: State): (r: State)
    ensures r.(flipFlop := s.flipFlop, red := s.red, yellow := s.yellow) == s
    ensures s.flipFlop < YellowAfter ==> r.flipFlop == s.flipFlop + 1
    // passing 20: yellow on, red off, counter back to 0
    ensures s.flipFlop >= YellowAfter ==> r.flipFlop == 0 && r.yellow && !r.red
    // counts 11..20: red on, yellow off
    ensures r.flipFlop > RedAfter ==> r.red && !r.yellow
    // counts 1..10: the LEDs stay as they were
    ensures 0 < r.flipFlop <= RedAfter ==> r.red == s.red && r.yellow == s.yellow
    ensures LedInv(s.flipFlop, s.red, s.yellow) ==> LedInv(r.flipFlop, r.red, r.yellow)
  {
    var ff := s.flipFlop + 1;
    var s1 := s.(flipFlop := ff);
    var s2 := if ff > RedAfter then s1.(red := true, yellow := false) else s1;
    if ff > YellowAfter then s2.(red := false, yellow := true, flipFlop := 0) else s2
  }

  /** The notification step of a tick: the escalation decision, with its text logged. */
  function Notify(s: State): (r: State)
    ensures r.(action := s.action, log := s.log) == s
    ensures s.action <= r.action <= s.action + 1
    ensures s.log <= r.log && |r.log| <= |s.log| + 1
    ensures |r.log| == |s.log| + 1 ==> r.log[|s.log|].atSecond == s.runningSeconds
    // the counter and the text are the escalation chain's decision
    ensures var d := Escalate(s.action, s.runningSeconds);
      r.action == d.action && (|r.log| == |s.log| + 1 <==> d.notice.Some?) &&
      (d.notice.Some? ==> r.log[|s.log|].notice == d.notice.value)
  {
    var d := Escalate(s.action, s.runningSeconds);
    s.(action := d.action, log := if d.notice.Some? then s.log + [Sent(d.notice.value, s.runningSeconds)] else s.log)
  }

  /** The text a tick sends extends the ladder in order and on time. */
  lemma NotifyKeepsLogShape(s: State)
    requires LogShape(s.log, s.action, s.runningSeconds)
    ensures var r := Notify(s); LogShape(r.log, r.action, r.runningSeconds)
  {
  }

  /** Acknowledgement: when a tick finds the button state set, it blinks yellow six
      times, leaving it low, and clears the loop flag. */
  function Acknowledge(s: State): (r: State)
    ensures s.buttonState != 0 ==>
      !r.run && !r.yellow && r.exitTrace == s.exitTrace + PulseTrain(ExitPulses) &&
      r.(yellow := s.yellow, run := s.run, exitTrace := s.exitTrace) == s
    ensures s.buttonState == 0 ==> r == s
  {
    if s.buttonState != 0 then
      s.(yellow := false, exitTrace := s.exitTrace + PulseTrain(ExitPulses), run := false)
    else
      s
  }

  /** The body of a tick, in the source's order: count the second, drive the
      heartbeat, send the escalation chain's text, acknowledge, check the release. */
  function Tick(s: State, thisSecond: nat, inputHigh: bool): (r: State)
    // the reading is remembered, and a second is counted when its whole second moved on
    ensures r.lastFloatSecond == thisSecond
    ensures r.runningSeconds == s.runningSeconds + (if thisSecond / MicrosPerSecond > s.lastSecond then 1 else 0)
    // the chain decides on the counted seconds that include this tick's
    ensures var d := Escalate(s.action, r.runningSeconds);
      r.action == d.action && s.log <= r.log && (|r.log| == |s.log| + 1 <==> d.notice.Some?) &&
      |r.log| <= |s.log| + 1 &&
      (d.notice.Some? ==> r.log[|s.log|] == Sent(d.notice.value, r.runningSeconds))
    // with the button state set, the tick blinks, leaves yellow low and ends the loop
    ensures r.run <==> s.run && s.buttonState == 0
    ensures r.exitTrace == if s.buttonState != 0 then s.exitTrace + PulseTrain(ExitPulses) else s.exitTrace
    ensures s.buttonState != 0 ==> !r.yellow
    // the release check runs last
    ensures r.buttonState == if inputHigh then s.buttonState else 0
    ensures LedInv(s.flipFlop, s.red, s.yellow) ==> LedInv(r.flipFlop, r.red, r.yellow)
  {
    Release(Acknowledge(Notify(Heartbeat(CountSecond(s, thisSecond)))), inputHigh)
  }

  /** One iteration of the poll loop for one clock reading. */
  function Next(s: State, thisSecond: nat, inputHigh: bool): (r: State)
    requires thisSecond < MicrosPerMinute
    // counted seconds never decrease and grow by at most one per iteration
    ensures s.runningSeconds <= r.runningSeconds <= s.runningSeconds + 1
    // the action counter never decreases and grows by at most one
    ensures s.action <= r.action <= s.action + 1
    // at most one text per iteration, after those sent before
    ensures s.log <= r.log && |r.log| <= |s.log| + 1
    // without a tick, nothing but the clock bookkeeping changes
    ensures !Ticks(s, thisSecond) ==>
      r.(lastFloatSecond := s.lastFloatSecond, lastSecond := s.lastSecond,
         runningSeconds := s.runningSeconds) == s
    // the session ends exactly when a tick finds the button state set
    ensures r.run <==> s.run && !(Ticks(s, thisSecond) && s.buttonState != 0)
    ensures r.exitTrace ==
      if Ticks(s, thisSecond) && s.buttonState != 0 then s.exitTrace + PulseTrain(ExitPulses) else s.exitTrace
    // the loop never sets the button state; it clears it only on a tick that reads the input low
    ensures r.buttonState == if Ticks(s, thisSecond) && !inputHigh then 0 else s.buttonState
  {
    var s1 := Rollover(s, thisSecond);
    if thisSecond > s1.lastFloatSecond + PollingDelay then Tick(s1, thisSecond, inputHigh) else s1
  }

  /** One iteration as the environment drives it: the interrupt, if any, then the loop body. */
  function Iterate(s: State, e: Sample): (r: State)
    requires e.clock < MicrosPerMinute
    // a press followed by a ticking iteration is always acknowledged there
    ensures e.pressed && Ticks(s, e.clock) ==>
      !r.run && r.exitTrace == s.exitTrace + PulseTrain(ExitPulses)
    // a press followed by an iteration without a tick is remembered for a later one
    ensures e.pressed && !Ticks(s, e.clock) ==> r.buttonState == 1 && r.run == s.run
    // after a press, only a tick that reads the input low clears the button state
    ensures e.pressed ==> r.buttonState == if Ticks(s, e.clock) && !e.inputHigh then 0 else 1
    ensures r.run ==> s.run
  {
    Next(if e.pressed then Press(s) else s, e.clock, e.inputHigh)
  }

  /** The poll loop over the samples env[from..]: it stops at the end of the
      trace or as soon as the loop flag is cleared. */
  function Run(s: State, env: seq<Sample>, from: nat): (r: State)
    requires ValidTrace(env) && from <= |env|
    ensures s.runningSeconds <= r.runningSeconds <= s.runningSeconds + (|env| - from)
    ensures s.action <= r.action <= s.action + (|env| - from)
    // at most one text per iteration, and what was sent stays sent
    ensures s.log <= r.log && |r.log| <= |s.log| + (|env| - from)
    // once acknowledged, nothing further happens
    ensures !s.run ==> r == s
    // the loop only ends early when the session is acknowledged
    ensures r.run ==> s.run
    decreases |env| - from
  {
    if !s.run || from == |env| then s else Run(Iterate(s, env[from]), env, from + 1)
  }

  lemma NextPreservesInv(s: State, thisSecond: nat, inputHigh: bool)
    requires Inv(s) && s.run && thisSecond < MicrosPerMinute
    ensures Inv(Next(s, thisSecond, inputHigh))
  {
    var s1 := Rollover(s, thisSecond);
    if thisSecond > s1.lastFloatSecond + PollingDelay {
      var c := CountSecond(s1, thisSecond);
      assert LogShape(c.log, c.action, c.runningSeconds);
      NotifyKeepsLogShape(Heartbeat(c));
    }
  }

  lemma {:induction false} RunPreservesInv(s: State, env: seq<Sample>, from: nat)
    requires Inv(s) && ValidTrace(env) && from <= |env|
    ensures Inv(Run(s, env, from))
    decreases |env| - from
  {
    if s.run && from < |env| {
      var p := if env[from].pressed then Press(s) else s;
      if env[from].pressed {
        PressKeepsInv(s);
      }
      NextPreservesInv(p, env[from].clock, env[from].inputHigh);
      RunPreservesInv(Iterate(s, env[from]), env, from + 1);
    }
  }

  /** Number of texts of one rung in a log. */
  function Occurrences(log: seq<Sent>, rung: Rung): (n: nat)
    ensures n <= |log|
  {
    if log == [] then 0
    else Occurrences(log[..|log| - 1], rung) + (if log[|log| - 1].notice.rung == rung then 1 else 0)
  }

  /** FIRST, SECOND and THIRD are each sent at most once, and exactly once
      when the action counter has got past them. */
  lemma {:induction false} LadderSentOnce(log: seq<Sent>, action: nat, runningSeconds: nat)
    requires LogShape(log, action, runningSeconds)
    ensures Occurrences(log, First) == if action >= 1 then 1 else 0
    ensures Occurrences(log, Second) == if action >= 2 then 1 else 0
    ensures Occurrences(log, Third) == if action >= 3 then 1 else 0
    decreases |log|
  {
    if log != [] {
      var front := log[..|log| - 1];
      if |log| > action {
        assert LogShape(front, action, runningSeconds);
        LadderSentOnce(front, action, runningSeconds);
      } else {
        assert LogShape(front, action - 1, runningSeconds);
        LadderSentOnce(front, action - 1, runningSeconds);
      }
    }
  }

  /** Every session run from construction keeps the invariants: the heartbeat
      counter stays within 0..20 and the two LEDs are not on together at the end
      of any loop iteration (the exit blink, inside one, may pulse yellow while
      red is on; see BlinkWhileRedOn), the
      action counter stays within 0..3, the button state is 0 or 1, and each
      once-only rung is sent at most once, in ladder order. */
  lemma SessionGuarantees(env: seq<Sample>)
    requires ValidTrace(env)
    ensures Inv(Run(Initial(), env, 0))
    ensures var r := Run(Initial(), env, 0);
      r.flipFlop <= YellowAfter && !(r.red && r.yellow) && r.action <= 3 && r.buttonState <= 1 &&
      Occurrences(r.log, First) <= 1 && Occurrences(r.log, Second) <= 1 && Occurrences(r.log, Third) <= 1
  {
    RunPreservesInv(Initial(), env, 0);
    var r := Run(Initial(), env, 0);
    LadderSentOnce(r.log, r.action, r.runningSeconds);
  }

  /** While the counted second stays a multiple of 600 past 200, every tick at the
      top of the ladder sends the recurring text again. */
  lemma RecurringEveryTick(s: State, thisSecond: nat, inputHigh: bool)
    requires thisSecond < MicrosPerMinute && s.action == 3 && Ticks(s, thisSecond)
    requires s.runningSeconds >= RecurringAfter && s.runningSeconds % RecurringPeriod == 0
    requires Next(s, thisSecond, inputHigh).runningSeconds == s.runningSeconds
    ensures var r := Next(s, thisSecond, inputHigh);
      r.action == 3 && r.log == s.log + [Sent(Notice(Recurring, RecipientsFor(Recurring)), s.runningSeconds)]
  {
  }

  /** The rollover test looks only at the last reading, so it fires again on every
      iteration whose reading still lies in the minute's last polling delay: two
      iterations 10 ms apart inside second 59 count two seconds. */
  lemma RolloverCanRepeat(s: State)
    requires s.lastFloatSecond == 59_900_000 && s.lastSecond == 59
    ensures var s1 := Next(s, 59_950_000, true);
      var s2 := Next(s1, 59_960_000, true);
      s2.runningSeconds == s.runningSeconds + 2 && s2.lastSecond == 59
  {
  }

  /** A press that arrives before the very first tick: that tick still sends FIRST
      (the chain runs before the button check), then blinks and ends the session. */
  lemma PressBeforeFirstTick()
    ensures var r := Run(Initial(), [Sample(true, 500_000, false)], 0);
      r.log == [Sent(Notice(First, [PhoneBrad]), 0)] && !r.run &&
      r.exitTrace == PulseTrain(ExitPulses) && r.buttonState == 0
  {
  }

  /** The exit blink leaves the red LED as the heartbeat set it: when the
      acknowledging tick has the counter in 11..20, red stays on while the blink
      drives yellow high, so both outputs are on at once inside that iteration. */
  lemma BlinkWhileRedOn()
    ensures var s := Initial().(flipFlop := 14, red := true, buttonState := 1);
      var r := Next(s, 700_000, true);
      Inv(s) && r.red && |r.exitTrace| > 0 && r.exitTrace[0]
  {
  }
}
