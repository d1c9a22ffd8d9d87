/** Passengers: a passenger is nothing but its name. */
module Passengers {
  import opened Results

  /** Two passengers are the same passenger exactly when their names are equal. */
  datatype Passenger = Passenger(name: string)

  /**
   * The passenger constructor: a missing (null) name is refused with an
   * error; every other name, the empty one included, is kept unchanged.
   */
  function NewPassenger(name: Option<string>): (r: Result<Passenger>)
    ensures r.Ok? <==> name.Some?
    ensures r.Ok? ==> r.value.name == name.value
    ensures r.Err? ==> r.error == NullPassengerName
  {
    match name
    case None => Err(NullPassengerName)
    case Some(n) => Ok(Passenger(n))
  }
}
