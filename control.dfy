/**
  The control loop of the thermostat client (`main` in
  qemuHost/thermofinal.c, lines 122-175): each turn reloads the
  configuration, reads the temperature, fetches the program, resolves the
  target, applies the hysteresis rule to the heater state, writes the
  status file and posts the status to the server.

  The outside world enters as a CycleInput per turn: the configuration
  file's contents (None when it cannot be opened), the temperature the
  sensor read gave (-999 when it failed), the body of the program fetch
  (None when the request failed), the local hour and minute, and the
  `time(NULL)` stamped into the status file. What the turn writes, posts
  and requests is returned as a Cycle.
*/
module Control {
  import opened Wrappers
  import opened CString
  import opened ProgramScanner
  import opened Setpoint
  import opened Config
  import opened HeaterRule

  /** `sleep(5)` after a completed turn, `sleep(10)` after a skipped one. */
  const CycleSeconds: nat := 5
  const RetrySeconds: nat := 10

  datatype CycleInput = CycleInput(
    configFile: Option<string>,
    currentTemp: real,
    program: Option<string>,
    hour: int,
    minute: int,
    statusTime: int)

  /** What a turn did. A skipped turn writes and posts nothing. */
  datatype Cycle =
    | ConfigFailed
    | FetchFailed(programUrl: string)
    | Completed(programUrl: string, targetTemp: real, heaterOn: bool,
                statusLine: string, statusUrl: string, statusBody: string)

  /** The seconds the loop sleeps after a turn. */
  function PauseAfter(c: Cycle): nat {
    if c.Completed? then CycleSeconds else RetrySeconds
  }

  /** The state that outlives a turn: the heater and the configuration. */
  datatype State = State(heaterOn: bool, settings: Settings)

  /** `parse_config` returns 0. */
  predicate ConfigAccepted(file: Option<string>) {
    file.Some? && AllKeysSeen(Lines(file.value, 0))
  }

  /** The configuration after `parse_config`, successful or not. */
  function ConfigAfter(settings: Settings, file: Option<string>): Settings {
    if file.None? then settings else ApplyLines(settings, Lines(file.value, 0))
  }

  /** `snprintf(url, sizeof(url), "%s/thermostat/%s/program", ...)`. */
  function ProgramUrl(s: Settings): (r: string)
    ensures var url := s.serverUrl + "/thermostat/" + s.thermostatId + "/program";
      |r| <= 511 && r <= url && (|url| <= 511 ==> r == url)
  {
    StrNCopy(s.serverUrl + "/thermostat/" + s.thermostatId + "/program", 511)
  }

  /** `snprintf(url, sizeof(url), "%s/thermostat/%s/status", ...)`. */
  function StatusUrl(s: Settings): (r: string)
    ensures var url := s.serverUrl + "/thermostat/" + s.thermostatId + "/status";
      |r| <= 511 && r <= url && (|url| <= 511 ==> r == url)
  {
    StrNCopy(s.serverUrl + "/thermostat/" + s.thermostatId + "/status", 511)
  }

  /** The line `update_heater_status` writes: `ON` or `OFF`, ` : `, the time. */
  function StatusLine(heaterOn: bool, statusTime: int): string {
    (if heaterOn then "ON" else "OFF") + " : " + IntText(statusTime) + "\n"
  }

  /** The JSON body `post_status_to_server` sends, within its 256-byte buffer. */
  function StatusBody(currentTemp: real, heaterOn: bool): (r: string)
    ensures var body := "{\"current_temp\": " + FixedTwo(currentTemp) + ", \"heater_on\": "
                        + (if heaterOn then "true" else "false") + "}";
      |r| <= 255 && r <= body && (|body| <= 255 ==> r == body)
  {
    StrNCopy("{\"current_temp\": " + FixedTwo(currentTemp) + ", \"heater_on\": "
             + (if heaterOn then "true" else "false") + "}", 255)
  }

  /** A completed turn: the program request, the target, the heater
      state, and the status it writes and posts. */
  function Report(settings: Settings, currentTemp: real, statusTime: int, targetTemp: real, heaterOn: bool): Cycle {
    Completed(ProgramUrl(settings), targetTemp, heaterOn, StatusLine(heaterOn, statusTime),
              StatusUrl(settings), StatusBody(currentTemp, heaterOn))
  }

  /** One turn of the loop from state `s`. A turn that is skipped, because
      the configuration did not parse or the program fetch failed, leaves
      the heater as it was. */
  function Step(s: State, i: CycleInput): (r: (State, Cycle))
    ensures !r.1.Completed? ==> r.0.heaterOn == s.heaterOn
  {
    var settings := ConfigAfter(s.settings, i.configFile);
    if !ConfigAccepted(i.configFile) then (State(s.heaterOn, settings), ConfigFailed)
    else if i.program.None? then (State(s.heaterOn, settings), FetchFailed(ProgramUrl(settings)))
    else
      var target := TargetTemp(i.program.value, i.hour, i.minute);
      var on := Decide(s.heaterOn, i.currentTemp, target);
      (State(on, settings), Report(settings, i.currentTemp, i.statusTime, target, on))
  }

  /** The turns run in order from `s`: the final state and what each did. */
  function RunCycles(s: State, inputs: seq<CycleInput>): (r: (State, seq<Cycle>))
    ensures |r.1| == |inputs|
    decreases |inputs|
  {
    if inputs == [] then (s, [])
    else
      var (mid, done) := RunCycles(s, inputs[..|inputs| - 1]);
      var (next, c) := Step(mid, inputs[|inputs| - 1]);
      (next, done + [c])
  }

  predicate Completes(i: CycleInput) {
    ConfigAccepted(i.configFile) && i.program.Some?
  }

  function CompletingOnly(inputs: seq<CycleInput>): (r: seq<CycleInput>)
    ensures forall k :: 0 <= k < |r| ==> Completes(r[k])
    decreases |inputs|
  {
    if inputs == [] then []
    else
      var init := CompletingOnly(inputs[..|inputs| - 1]);
      if Completes(inputs[|inputs| - 1]) then init + [inputs[|inputs| - 1]] else init
  }
}
