/** Reservation items: the record a flight keeps for each booked passenger. */
module Reservations {
  import opened Passengers

  /**
   * An immutable (passenger, price, seat) triple. The price is the one the
   * flight charged at booking time; neither number is validated.
   */
  datatype ReservationItem = ReservationItem(passenger: Passenger, price: int, seatNumber: int)
}
