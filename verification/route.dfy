/** Route keys: an ordered pair of validated airport codes. */
module Routes {
  import opened Results

  /**
   * A route key. Equality is structural and order-sensitive: the pair
   * (A, B) is a different key from (B, A) whenever A differs from B.
   */
  datatype Route = Route(origin: string, destination: string)

  /**
   * Two keys are equal exactly when their origins are equal and their
   * destinations are equal; in particular a key equals itself, and a
   * route and its reverse are different keys unless both codes are the same.
   */
  lemma RouteEquality(a: Route, b: Route)
    ensures a == b <==> a.origin == b.origin && a.destination == b.destination
    ensures a.origin != a.destination ==> Route(a.destination, a.origin) != a
  {
  }

  /** A letter is an ASCII character in a..z or A..Z. */
  predicate IsLetter(c: char)
  {
    ('a' <= c <= 'z') || ('A' <= c <= 'Z')
  }

  /** A valid airport code is exactly three letters; case is not normalised. */
  predicate ValidAirportCode(code: string)
  {
    |code| == 3 && forall i :: 0 <= i < |code| ==> IsLetter(code[i])
  }

  /**
   * The route key constructor: it throws unless both codes are valid and
   * otherwise stores them exactly as given.
   */
  function NewRoute(origin: string, destination: string): (r: Result<Route>)
    ensures r.Ok? <==> ValidAirportCode(origin) && ValidAirportCode(destination)
    ensures r.Ok? ==> r.value.origin == origin && r.value.destination == destination
    ensures r.Err? ==> r.error == InvalidAirportCode
  {
    if ValidAirportCode(origin) && ValidAirportCode(destination) then Ok(Route(origin, destination))
    else Err(InvalidAirportCode)
  }
}
