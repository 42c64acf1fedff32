/** The alarm session as an object: the poll loop's counters, the button state
    written by the interrupt callback and the release check, and the two LED
    outputs are fields that the methods update in place. Every method is proved
    against the value-level description in module Session. */
module Alarm {
  import opened Escalation
  import opened Session

  class AlarmSession {
    var runningSeconds: nat
    var action: nat
    var lastFloatSecond: nat
    var lastSecond: nat
    var flipFlop: nat
    var red: bool
    var yellow: bool
    var buttonState: nat
    var run: bool
    /** texts handed to the SMS transport, with the counted second of each */
    ghost var log: seq<Sent>
    /** levels written to the yellow LED by the acknowledgement blink */
    ghost var exitTrace: seq<bool>

    ghost function Snapshot(): State
      reads this
    {
      State(runningSeconds, action, lastFloatSecond, lastSecond, flipFlop, red, yellow,
            buttonState, run, log, exitTrace)
    }

    /** Both LEDs low, no button pressed, nothing sent. */
    constructor ()
      ensures Snapshot() == Initial()
      ensures Inv(Snapshot())
    {
      runningSeconds, action, lastFloatSecond, lastSecond, flipFlop := 0, 0, 0, 0, 0;
      red, yellow := false, false;
      buttonState := 0;
      run := true;
      log, exitTrace := [], [];
    }

    /** The rising-edge callback of the button. */
    method ReactToButton()
      modifies this
      ensures Snapshot() == Press(old(Snapshot()))
      ensures buttonState == 1
    {
      buttonState := 1;
    }

    /** Clears the button state only if the button input reads low. */
    method ButtonCheckRelease(inputHigh: bool)
      modifies this
      ensures Snapshot() == Release(old(Snapshot()), inputHigh)
      ensures buttonState == if inputHigh then old(buttonState) else 0
    {
      if !inputHigh {
        buttonState := 0;
      }
    }

    /** The acknowledgement blink: six yellow high/low pulses, ending low. */
    method ExitBlink()
      modifies this`yellow, this`exitTrace
      ensures exitTrace == old(exitTrace) + PulseTrain(ExitPulses)
      ensures !yellow
    {
      for i := 0 to ExitPulses
        invariant exitTrace == old(exitTrace) + PulseTrain(i)
        invariant i > 0 ==> !yellow
      {
        yellow := true;
        exitTrace := exitTrace + [true];
        yellow := false;
        exitTrace := exitTrace + [false];
      }
    }

    /** The heartbeat LEDs: red from the 11th tick, yellow again after the 20th. */
    method FlashLeds()
      modifies this
      ensures Snapshot() == Heartbeat(old(Snapshot()))
    {
      flipFlop := flipFlop + 1;
      if flipFlop > RedAfter {
        red := true;
        yellow := false;
      }
      if flipFlop > YellowAfter {
        red := false;
        yellow := true;
        flipFlop := 0;
      }
    }

    /** The escalation chain: send at most one text and advance the action counter. */
    method SendNotification()
      modifies this
      ensures Snapshot() == Notify(old(Snapshot()))
    {
      var d := Escalate(action, runningSeconds);
      action := d.action;
      if d.notice.Some? {
        log := log + [Sent(d.notice.value, runningSeconds)];
      }
    }

    /** Index the timer: remember this reading, and count a second when its
        whole-second part has moved past the last one counted. */
    method IndexTimer(thisSecond: nat)
      modifies this
      ensures Snapshot() == CountSecond(old(Snapshot()), thisSecond)
    {
      lastFloatSecond := thisSecond;
      if thisSecond / MicrosPerSecond > lastSecond {
        lastSecond := thisSecond / MicrosPerSecond;
        runningSeconds := runningSeconds + 1;
      }
    }

    /** If the button state is set, blink the exit pattern and end the loop. */
    method CheckButton()
      modifies this
      ensures Snapshot() == Acknowledge(old(Snapshot()))
    {
      if buttonState != 0 {
        ExitBlink();
        run := false;
      }
    }

    /** The body of a paced poll (a tick): count the second, drive the heartbeat
        LEDs, send at most one text, blink and stop if the button state is set,
        then run the release check on the input level inputHigh. */
    method Tick(thisSecond: nat, inputHigh: bool)
      modifies this
      ensures Snapshot() == Session.Tick(old(Snapshot()), thisSecond, inputHigh)
    {
      IndexTimer(thisSecond);
      FlashLeds();
      SendNotification();
      CheckButton();
      ButtonCheckRelease(inputHigh);
    }

    /** One iteration of the poll loop for the reading thisSecond (microseconds
        of the minute); inputHigh is what the release check reads from the button. */
    method Poll(thisSecond: nat, inputHigh: bool)
      requires thisSecond < MicrosPerMinute
      modifies this
      ensures Snapshot() == Next(old(Snapshot()), thisSecond, inputHigh)
      ensures old(Inv(Snapshot())) && old(run) ==> Inv(Snapshot())
    {
      ghost var s0 := Snapshot();
      if lastFloatSecond + PollingDelay >= MicrosPerMinute {
        lastFloatSecond := 0;
        lastSecond := thisSecond / MicrosPerSecond;
        runningSeconds := runningSeconds + 1;
      }
      assert Snapshot() == Rollover(s0, thisSecond);
      if thisSecond > lastFloatSecond + PollingDelay {
        Tick(thisSecond, inputHigh);
      }
      if Inv(s0) && s0.run {
        NextPreservesInv(s0, thisSecond, inputHigh);
      }
    }

    /** runTimer: reset the loop counters, then poll until the session is
        acknowledged or the trace of environment samples ends. */
    method RunTimer(env: seq<Sample>)
      requires ValidTrace(env)
      modifies this
      ensures Snapshot() == Run(Start(old(Snapshot())), env, 0)
      ensures old(Snapshot()) == Initial() ==> Inv(Snapshot())
    {
      runningSeconds, action, lastFloatSecond, lastSecond, flipFlop := 0, 0, 0, 0, 0;
      run := true;
      ghost var s0 := Snapshot();
      assert s0 == Start(old(Snapshot()));
      var i := 0;
      while run && i < |env|
        invariant i <= |env|
        invariant Run(s0, env, 0) == Run(Snapshot(), env, i)
        decreases |env| - i
      {
        ghost var si := Snapshot();
        if env[i].pressed {
          ReactToButton();
        }
        Poll(env[i].clock, env[i].inputHigh);
        assert Snapshot() == Iterate(si, env[i]);
        i := i + 1;
      }
      assert Run(Snapshot(), env, i) == Snapshot();
      if old(Snapshot()) == Initial() {
        RunPreservesInv(s0, env, 0);
      }
    }
  }
}
