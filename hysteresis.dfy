/**
  The hysteresis rule of the thermostat client's control loop
  (qemuHost/thermofinal.c, lines 155-166): the heater switches only when
  the temperature leaves a band of 0.5 degrees on either side of the
  target.
*/
module HeaterRule {
  /** `float hysteresis = 0.5`: the dead band on either side of the target. */
  const Hysteresis: real := 0.5

  /** What `read_current_temperature` returns when the file cannot be read. */
  const SensorFailure: real := -999.0

  /** The heater state after comparing the current temperature with the
      target. Whatever the result, it never contradicts the band: an ON
      heater is not above `target + 0.5`, an OFF heater is not below
      `target - 0.5`, and the state only changes outside the band. */
  function Decide(heaterOn: bool, currentTemp: real, targetTemp: real): (on: bool)
    ensures on ==> currentTemp <= targetTemp + Hysteresis
    ensures !on ==> currentTemp >= targetTemp - Hysteresis
    ensures on != heaterOn ==> currentTemp < targetTemp - Hysteresis || currentTemp > targetTemp + Hysteresis
  {
    if heaterOn then
      if currentTemp > targetTemp + Hysteresis then false else true
    else
      if currentTemp < targetTemp - Hysteresis then true else false
  }

  /** An ON heater turns OFF exactly when the temperature is above the
      band, an OFF heater turns ON exactly when it is below the band. */
  lemma SwitchingRules(currentTemp: real, targetTemp: real)
    ensures !Decide(true, currentTemp, targetTemp) <==> currentTemp > targetTemp + Hysteresis
    ensures Decide(false, currentTemp, targetTemp) <==> currentTemp < targetTemp - Hysteresis
  {
  }

  /** Inside the band the heater keeps its state. */
  lemma DeadBand(heaterOn: bool, currentTemp: real, targetTemp: real)
    requires targetTemp - Hysteresis <= currentTemp <= targetTemp + Hysteresis
    ensures Decide(heaterOn, currentTemp, targetTemp) == heaterOn
  {
  }

  /** Deciding again with the same temperatures changes nothing. */
  lemma DecideIdempotent(heaterOn: bool, currentTemp: real, targetTemp: real)
    ensures var once := Decide(heaterOn, currentTemp, targetTemp);
      Decide(once, currentTemp, targetTemp) == once
  {
  }

  /** Target 20.0: OFF at 19.6 stays OFF, OFF at 19.4 turns ON, ON at
      20.4 stays ON, ON at 20.6 turns OFF. */
  lemma BandExamples()
    ensures !Decide(false, 19.6, 20.0) && Decide(false, 19.4, 20.0)
    ensures Decide(true, 20.4, 20.0) && !Decide(true, 20.6, 20.0)
  {
  }

  /** A failed sensor read reports -999, which is below any target above
      -998.5, so it switches the heater ON. */
  lemma SensorFailureHeats(heaterOn: bool, targetTemp: real)
    requires targetTemp > SensorFailure + Hysteresis
    ensures Decide(heaterOn, SensorFailure, targetTemp)
  {
  }
}
