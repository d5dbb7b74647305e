/** What the modelled functions report to their callers. */
module EspIdf {

  /** The ESP-IDF error codes that occur. */
  datatype EspErr = Ok | InvalidArg | InvalidState | InvalidCrc | NoMem | NotFound
}
