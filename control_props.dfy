/**
  What the control loop promises across turns: when a turn is skipped,
  what a completed turn reports, and that skipped turns do not disturb
  the heater.
*/
module ControlProperties {
  import opened Wrappers
  import opened CString
  import opened ProgramScanner
  import opened Setpoint
  import opened Config
  import opened HeaterRule
  import opened Control

  /** A completed turn, spelled out. */
  lemma StepCompletes(s: State, i: CycleInput)
    requires ConfigAccepted(i.configFile) && i.program.Some?
    ensures var settings := ConfigAfter(s.settings, i.configFile);
      var target := TargetTemp(i.program.value, i.hour, i.minute);
      var on := Decide(s.heaterOn, i.currentTemp, target);
      Step(s, i) == (State(on, settings), Report(settings, i.currentTemp, i.statusTime, target, on))
  {
  }

  /** A skipped turn, spelled out. */
  lemma StepSkips(s: State, i: CycleInput)
    requires !(ConfigAccepted(i.configFile) && i.program.Some?)
    ensures var settings := ConfigAfter(s.settings, i.configFile);
      Step(s, i) == (State(s.heaterOn, settings),
                     if !ConfigAccepted(i.configFile) then ConfigFailed else FetchFailed(ProgramUrl(settings)))
  {
  }

  /** A turn runs to completion exactly when the configuration parses and
      the program arrives; a configuration failure is reported as such
      whatever the fetch would have given; a skipped turn keeps the heater
      and is followed by the longer pause. */
  lemma SkipPolicy(s: State, i: CycleInput)
    ensures Step(s, i).1.Completed? <==> ConfigAccepted(i.configFile) && i.program.Some?
    ensures Step(s, i).1.ConfigFailed? <==> !ConfigAccepted(i.configFile)
    ensures !Step(s, i).1.Completed? ==> Step(s, i).0.heaterOn == s.heaterOn && PauseAfter(Step(s, i).1) == RetrySeconds
    ensures Step(s, i).1.Completed? ==> PauseAfter(Step(s, i).1) == CycleSeconds
  {
  }

  /** A completed turn posts and writes the heater state it decided, and
      that state keeps to the band around the target it resolved. */
  lemma CompletedTurnReportsDecision(s: State, i: CycleInput)
    requires Step(s, i).1.Completed?
    ensures var c := Step(s, i).1;
      c.heaterOn == Step(s, i).0.heaterOn &&
      c.statusLine == StatusLine(c.heaterOn, i.statusTime) &&
      c.statusBody == StatusBody(i.currentTemp, c.heaterOn) &&
      (c.heaterOn ==> i.currentTemp <= c.targetTemp + Hysteresis) &&
      (!c.heaterOn ==> i.currentTemp >= c.targetTemp - Hysteresis)
  {
  }

  /** Skipped turns leave no trace on the heater: the heater after a run
      of turns is the heater after the completed turns alone. */
  lemma {:induction false} SkippedTurnsLeaveNoTrace(s: State, inputs: seq<CycleInput>)
    ensures RunCycles(s, inputs).0.heaterOn == RunCycles(s, CompletingOnly(inputs)).0.heaterOn
    decreases |inputs|
  {
    if inputs != [] {
      var init, last := inputs[..|inputs| - 1], inputs[|inputs| - 1];
      SkippedTurnsLeaveNoTrace(s, init);
      var kept := CompletingOnly(init);
      if Completes(last) {
        assert CompletingOnly(inputs) == kept + [last];
        assert (kept + [last])[..|kept|] == kept;
      }
    }
  }

  /** 17.0 degrees, a program from which nothing parses (so the target is
      the 20.0 default), heater OFF: the heater turns ON, the status file
      says ON and the post body is `{"current_temp": 17.00, "heater_on": true}`. */
  lemma ColdRoomExample(settings: Settings, i: CycleInput)
    requires ConfigAccepted(i.configFile) && i.program.Some? && AllPoints(i.program.value, 0) == []
    requires i.currentTemp == 17.0
    ensures var (next, c) := Step(State(false, settings), i);
      next.heaterOn && c.Completed? && c.targetTemp == 20.0 &&
      c.statusLine == "ON : " + IntText(i.statusTime) + "\n" &&
      c.statusBody == "{\"current_temp\": 17.00, \"heater_on\": true}"
  {
    NothingParsedGivesDefault(i.program.value, i.hour, i.minute);
    StepCompletes(State(false, settings), i);
    ColdRoomBody();
  }

  /** The body posted for 17.0 degrees with the heater ON. */
  lemma ColdRoomBody()
    ensures StatusBody(17.0, true) == "{\"current_temp\": 17.00, \"heater_on\": true}"
  {
    FixedTwoExamples();
  }
}
