/**
  The thermostat daemon's `main` loop (qemuHost/thermofinal.c, lines
  122-175) as a class whose state is the heater flag and the
  configuration it reloads every turn.
*/
module Daemon {
  import opened Wrappers
  import opened ProgramScanner
  import opened Setpoint
  import opened Config
  import opened HeaterRule
  import opened Control
  import opened ControlProperties

  /** The state `main` keeps across turns: `heaterOn` and `config`. */
  class Thermostat {
    var heaterOn: bool
    const config: AppConfig

    /** `AppConfig config = {0}; int heaterOn = 0;`: a fresh start has the
        heater OFF. */
    constructor ()
      ensures !heaterOn && fresh(config) && config.Snapshot() == Settings("", "", "", "")
    {
      heaterOn := false;
      config := new AppConfig();
    }

    function Current(): State
      reads this, config
    {
      State(heaterOn, config.Snapshot())
    }

    /** One turn of `while(1)`, up to its `sleep`. */
    method RunCycle(i: CycleInput) returns (cycle: Cycle)
      modifies this, config
      ensures (Current(), cycle) == Step(old(Current()), i)
    {
      ghost var before := Current();
      var status := ParseConfig(i.configFile, config);
      if status != 0 {
        StepSkips(before, i);
        return ConfigFailed;
      }
      var currentTemp := i.currentTemp;
      var programUrl := ProgramUrl(config.Snapshot());
      if i.program.None? {
        StepSkips(before, i);
        return FetchFailed(programUrl);
      }
      var targetTemp := GetTargetTemp(i.program.value, i.hour, i.minute);
      if heaterOn {
        if currentTemp > targetTemp + Hysteresis {
          heaterOn := false;
        }
      } else {
        if currentTemp < targetTemp - Hysteresis {
          heaterOn := true;
        }
      }
      cycle := Report(config.Snapshot(), currentTemp, i.statusTime, targetTemp, heaterOn);
      StepCompletes(before, i);
    }

    /** The first `|inputs|` turns of the loop. */
    method Run(inputs: seq<CycleInput>) returns (cycles: seq<Cycle>)
      modifies this, config
      ensures (Current(), cycles) == RunCycles(old(Current()), inputs)
    {
      cycles := [];
      ghost var start := Current();
      for n := 0 to |inputs|
        invariant (Current(), cycles) == RunCycles(start, inputs[..n])
      {
        assert inputs[..n + 1][..n] == inputs[..n];
        var c := RunCycle(inputs[n]);
        cycles := cycles + [c];
      }
      assert inputs[..|inputs|] == inputs;
    }
  }
}
