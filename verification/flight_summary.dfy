/** Flight summaries: the numbers a flight reports at the end of a run. */
module Summaries {

  /**
   * An immutable summary of one flight. The constructor does not check
   * that availableSeats and soldSeats agree with each other.
   */
  datatype FlightSummary = FlightSummary(
    flightNumber: string,
    availableSeats: int,
    soldSeats: int,
    totalRevenue: int)
}
