/**
 * The reservation system's own unit-test scenarios, stated as lemmas over
 * the engine: the catalog order of a route, a booking on the cheapest
 * flight, a price change that re-orders a route, and a cancellation that
 * gives the seat back.
 */
module Scenarios {
  import opened Results
  import opened Passengers
  import opened Routes
  import opened Flights
  import opened RouteIndex
  import opened Engine

  const K792 := CatalogRecord("K792", 26, 130, "CHI", "DFW")
  const A792 := CatalogRecord("A792", 56, 140, "CHI", "DFW")
  const A124 := CatalogRecord("A124", 54, 150, "LAS", "LAX")

  /**
   * Two flights of the Chicago to Dallas route, cheapest first in the
   * file: K792 at 130 comes first on its route and A792 at 140 last.
   */
  function ChicagoDallas(): (s: State)
    ensures Inv(s)
    ensures s.flights == [NewFlight("K792", 26, 130, "CHI", "DFW"), NewFlight("A792", 56, 140, "CHI", "DFW")]
    ensures s.routes == map[Route("CHI", "DFW") := [0, 1]]
    ensures s.numbers == map["K792" := 0, "A792" := 1]
  {
    ChicagoFirstLine();
    AddFlightInv(Empty(), K792);
    var s1 := AddFlight(Empty(), K792).value;
    ChicagoSecondLine(s1);
    AddFlightInv(s1, A792);
    AddFlight(s1, A792).value
  }

  /** The first line opens the route with K792 alone. */
  lemma ChicagoFirstLine()
    ensures AddFlight(Empty(), K792) ==
      Ok(State([NewFlight("K792", 26, 130, "CHI", "DFW")], map[Route("CHI", "DFW") := [0]], map["K792" := 0]))
  {
    var key := Route("CHI", "DFW");
    assert NewRoute("CHI", "DFW") == Ok(key) by {
      assert ValidAirportCode("CHI") && ValidAirportCode("DFW");
    }
    var fs := [NewFlight("K792", 26, 130, "CHI", "DFW")];
    assert Insert(fs, [], 0) == [0];
    AddFlightEffect(Empty(), K792);
    var t := AddFlight(Empty(), K792).value;
    assert t.flights == fs;
    assert t.routes == map[key := [0]];
    assert t.numbers == map["K792" := 0];
  }

  /** The second line puts A792, dearer than K792, after it on the route. */
  lemma ChicagoSecondLine(s1: State)
    requires Inv(s1)
    requires s1 == State([NewFlight("K792", 26, 130, "CHI", "DFW")], map[Route("CHI", "DFW") := [0]], map["K792" := 0])
    ensures AddFlight(s1, A792).Ok?
    ensures AddFlight(s1, A792).value.flights ==
      [NewFlight("K792", 26, 130, "CHI", "DFW"), NewFlight("A792", 56, 140, "CHI", "DFW")]
    ensures AddFlight(s1, A792).value.routes == map[Route("CHI", "DFW") := [0, 1]]
    ensures AddFlight(s1, A792).value.numbers == map["K792" := 0, "A792" := 1]
  {
    var key := Route("CHI", "DFW");
    assert NewRoute("CHI", "DFW") == Ok(key) by {
      assert ValidAirportCode("CHI") && ValidAirportCode("DFW");
    }
    var fs := [NewFlight("K792", 26, 130, "CHI", "DFW"), NewFlight("A792", 56, 140, "CHI", "DFW")];
    DearerGoesLast(fs);
    assert "A792" !in s1.numbers by {
      assert "A792"[0] != "K792"[0];
    }
    assert s1.flights + [fs[1]] == fs;
    var t := AddFlight(s1, A792).value;
    assert t.flights == fs;
    assert t.routes == s1.routes[key := Insert(fs, [0], 1)];
    assert t.numbers == s1.numbers["A792" := 1];
  }

  /** Adding the dearer of two flights to a route holding the cheaper one puts it last. */
  lemma DearerGoesLast(fs: seq<FlightRecord>)
    requires |fs| == 2 && fs[0].price < fs[1].price
    ensures Insert(fs, [0], 1) == [0, 1]
  {
    assert fs[1].CompareTo(fs[0]) > 0;
    assert [0][1..] == [];
    assert Insert(fs, [0], 1) == [0] + Insert(fs, [], 1);
  }

  /** Booking on the route goes to K792, at its price of 130, leaving 25 seats. */
  lemma BookingTakesCheapest(rnd: RandomValue)
    ensures var r := BookPassenger(ChicagoDallas(), "GeorgeWashington", "CHI", "DFW", rnd);
      && r.Ok? && |r.value.flights| == 2
      && r.value.flights[0].AvailableSeats() == 25
      && Passenger("GeorgeWashington") in r.value.flights[0].ledger
      && r.value.flights[0].ledger[Passenger("GeorgeWashington")].price == 130
      && r.value.flights[1] == ChicagoDallas().flights[1]
  {
    var s := ChicagoDallas();
    assert ValidAirportCode("CHI") && ValidAirportCode("DFW");
    var f := s.flights[0];
    assert |f.pool| == 26 && f.ledger == map[];
    assert CheapestOpen(s.flights, [0, 1], 0);
    BookEffect(s, "GeorgeWashington", "CHI", "DFW", rnd);
  }

  /** Lowering A792 to 120 puts it ahead of K792 on the route. */
  lemma RepricingReorders()
    ensures ChangePrice(ChicagoDallas(), "A792", 120).routes[Route("CHI", "DFW")] == [1, 0]
  {
    var s := ChicagoDallas();
    var key := Route("CHI", "DFW");
    assert s.flights[1].price == 140 && s.flights[0].price == 130;
    assert RouteOf(s.flights[1]) == key;
    assert RemoveByPrice(s.flights, [0, 1], 140) == [0] + RemoveByPrice(s.flights, [1], 140);
    var fs := s.flights[1 := s.flights[1].Repriced(120)];
    assert fs[1].CompareTo(fs[0]) < 0;
    assert ChangePrice(s, "A792", 120).routes[key] == Insert(fs, [0], 1);
  }

  /** A124 on the Las Vegas to Los Angeles route. */
  function LasVegasLosAngeles(): (s: State)
    ensures Inv(s)
    ensures s.flights == [NewFlight("A124", 54, 150, "LAS", "LAX")]
    ensures s.routes == map[Route("LAS", "LAX") := [0]]
  {
    AddFlightInv(Empty(), A124);
    assert NewRoute("LAS", "LAX") == Ok(Route("LAS", "LAX")) by {
      assert ValidAirportCode("LAS") && ValidAirportCode("LAX");
    }
    AddFlight(Empty(), A124).value
  }

  /** Booking A124 succeeds and takes one of its 54 seats. */
  lemma LasVegasBooking(rnd: RandomValue)
    ensures var r := BookPassenger(LasVegasLosAngeles(), "GeorgeWashington", "LAS", "LAX", rnd);
      && r.Ok? && |r.value.flights| == 1
      && r.value.routes == LasVegasLosAngeles().routes
      && r.value.flights[0].AvailableSeats() == 53
      && |r.value.flights[0].pool| == 53
      && Passenger("GeorgeWashington") in r.value.flights[0].ledger
  {
    var s := LasVegasLosAngeles();
    assert ValidAirportCode("LAS") && ValidAirportCode("LAX");
    var f := s.flights[0];
    assert |f.pool| == 54 && f.ledger == map[];
    assert CheapestOpen(s.flights, [0], 0);
    BookEffect(s, "GeorgeWashington", "LAS", "LAX", rnd);
  }

  /** The engine after the booking on A124. */
  function LasVegasBooked(rnd: RandomValue): (s: State)
    ensures Inv(s)
  {
    LasVegasBooking(rnd);
    BookInv(LasVegasLosAngeles(), "GeorgeWashington", "LAS", "LAX", rnd);
    BookPassenger(LasVegasLosAngeles(), "GeorgeWashington", "LAS", "LAX", rnd).value
  }

  /** On a route of one flight, cancelling a held reservation frees one seat and drops it. */
  lemma CancelOnSingleFlight(b: State, name: string, origin: string, destination: string, id: nat)
    requires Inv(b) && ValidAirportCode(origin) && ValidAirportCode(destination)
    requires Route(origin, destination) in b.routes && b.routes[Route(origin, destination)] == [id]
    requires id < |b.flights| && Passenger(name) in b.flights[id].ledger
    ensures var r := CancelPassenger(b, name, origin, destination);
      && r.Ok?
      && r.value.flights[id].AvailableSeats() == b.flights[id].AvailableSeats() + 1
      && Passenger(name) !in r.value.flights[id].ledger
  {
    var p := Passenger(name);
    CancelEffect(b, name, origin, destination);
    assert DearestHolder(b.flights, [id], p, id);
    var f := b.flights[id];
    assert FlightWellFormed(b, id);
    assert f.ledger[p].passenger == p;
    var c := f.Cancelled(f.ledger[p]);
    var g := c.SeatRecovered(f.ledger[p].seatNumber);
    assert g.(pool := c.pool) == c;
    assert CancelledOn(b, id, p).flights[id] == g;
  }

  /** Cancelling the booking gives back all 54 seats and drops the reservation. */
  lemma CancelRestoresSeats(rnd: RandomValue)
    ensures var r := CancelPassenger(LasVegasBooked(rnd), "GeorgeWashington", "LAS", "LAX");
      && r.Ok? && |r.value.flights| == 1
      && r.value.flights[0].AvailableSeats() == 54
      && Passenger("GeorgeWashington") !in r.value.flights[0].ledger
  {
    LasVegasBooking(rnd);
    var b := LasVegasBooked(rnd);
    assert ValidAirportCode("LAS") && ValidAirportCode("LAX");
    assert b.routes[Route("LAS", "LAX")] == [0];
    CancelOnSingleFlight(b, "GeorgeWashington", "LAS", "LAX", 0);
  }

  /**
   * Booking the same passenger again on A124 leaves 53 seats available but
   * only 52 in the pool: the pool no longer matches the available count.
   */
  lemma RebookingLeakExample(rnd: RandomValue, again: RandomValue)
    ensures var r := BookPassenger(LasVegasBooked(rnd), "GeorgeWashington", "LAS", "LAX", again);
      && r.Ok? && |r.value.flights| == 1
      && r.value.flights[0].AvailableSeats() == 53
      && |r.value.flights[0].pool| == 52
  {
    LasVegasBooking(rnd);
    var b := LasVegasBooked(rnd);
    var p := Passenger("GeorgeWashington");
    assert ValidAirportCode("LAS") && ValidAirportCode("LAX");
    assert b.routes[Route("LAS", "LAX")] == [0];
    var f := b.flights[0];
    assert FlightWellFormed(b, 0);
    assert CheapestOpen(b.flights, [0], 0);
    BookEffect(b, "GeorgeWashington", "LAS", "LAX", again);
    RebookingLeaksSeat(f, again, p);
  }
}
