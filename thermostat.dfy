/** The thermostat sample shared by the reader, the detector and the recovery sequence. */
module Thermostat {
  import opened Wrappers

  /** One reading of the device: ambient temperature, operating mode and the derived cooling flag. */
  datatype NestData = NestData(currentTemperature: int, hvacMode: string, isCooling: bool)

  /** Go's zero value `NestData{}`, which every failing read or write returns beside its error. */
  const ZERO_DATA := NestData(0, "", false)

  /** What one read or one confirmed write of the device yields: a sample or an error text. */
  type Reading = Result<NestData, string>

  /** The sample a caller holds after a call: the reading, or the zero sample on error. */
  function Received(r: Reading): (data: NestData)
    ensures r.Err? ==> data == ZERO_DATA
    ensures data.hvacMode != "" ==> r.Ok? && data == r.value
  {
    match r
    case Ok(data) => data
    case Err(_) => ZERO_DATA
  }
}
