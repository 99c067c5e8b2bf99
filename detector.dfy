/** The fault detector: the comparison of the baseline with the newest sample. */
module Detector {
  import opened Thermostat

  /** What the poll loop carries from one tick to the next: lastIsCooling and lastTemp. */
  datatype Baseline = Baseline(isCooling: bool, temp: int)

  /** The baseline before the first tick. */
  const SEED := Baseline(false, 0)

  /** The baseline a sample stands for. */
  function BaselineOf(d: NestData): Baseline {
    Baseline(d.isCooling, d.currentTemperature)
  }

  /**
   * A restart is wanted when both samples report cooling and the
   * temperature rose.
   */
  predicate IsFault(last: Baseline, current: NestData): (fault: bool)
    ensures fault ==> last.isCooling && current.isCooling
  {
    last.isCooling && current.isCooling && last.temp < current.currentTemperature
  }

  /** The seed never reports cooling, so nothing compared with it is a fault. */
  lemma SeedIsNeverFault(current: NestData)
    ensures !IsFault(SEED, current)
  {
  }
}
