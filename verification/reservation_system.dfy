/**
 * The reservation system object. The flights live in one list and are
 * referred to by their position in it (their id); the route index and the
 * flight-number index store ids, so the two maps share the same flight
 * objects as the original's two maps do. Every method is proved against
 * the engine function of the same name.
 */
module ReservationSystem {
  import opened Results
  import opened Passengers
  import opened Reservations
  import opened Summaries
  import opened Routes
  import opened Flights
  import opened RouteIndex
  import opened Engine
  import Sums

  /** The value of every flight in the list, in order. */
  function Snapshot(fs: seq<Flight>): (r: seq<FlightRecord>)
    reads fs
    ensures |r| == |fs|
    ensures forall i :: 0 <= i < |fs| ==> r[i] == fs[i].Model()
  {
    seq(|fs|, i requires 0 <= i < |fs| reads fs => fs[i].Model())
  }

  /** The flights of a list are distinct objects. */
  ghost predicate Distinct(fs: seq<Flight>)
  {
    forall i, j :: 0 <= i < |fs| && 0 <= j < |fs| && i != j ==> fs[i] != fs[j]
  }

  /** A fresh flight appended to a list of distinct flights keeps them distinct. */
  lemma DistinctAppend(fs: seq<Flight>, f: Flight)
    requires Distinct(fs) && f !in fs
    ensures Distinct(fs + [f])
  {
  }

  /** The snapshot of a list with one more flight has that flight's value at the end. */
  lemma SnapshotAppend(fs: seq<Flight>, f: Flight)
    ensures Snapshot(fs + [f]) == Snapshot(fs) + [f.Model()]
  {
  }

  /** A list whose flights have the given values, except one, has the updated snapshot. */
  lemma SnapshotUpdate(fs: seq<Flight>, before: seq<FlightRecord>, id: nat)
    requires |before| == |fs| && id < |fs|
    requires forall i :: 0 <= i < |fs| && i != id ==> fs[i].Model() == before[i]
    ensures Snapshot(fs) == before[id := fs[id].Model()]
  {
  }

  /** One iteration of the scan: the flight is added to the set when it holds the passenger. */
  method CollectStep(fs: seq<FlightRecord>, ids: seq<nat>, k: nat, passenger: Passenger, reservedFlights: seq<nat>)
    returns (r: seq<nat>)
    requires InBounds(fs, ids) && Ascending(fs, ids) && k < |ids|
    requires reservedFlights == Holders(fs, ids[..k], passenger)
    ensures r == Holders(fs, ids[..k + 1], passenger)
  {
    HoldersStep(fs, ids, k, passenger);
    var reservation := fs[ids[k]].ReservationOf(passenger);
    r := reservedFlights;
    if reservation.Some? {
      r := Insert(fs, reservedFlights, ids[k]);
    }
  }

  /**
   * The loop of processCancelPassenger: walks the route and adds every
   * flight holding the passenger to an ordered set. The route is ascending,
   * so each add lands at the end and the set lists the holders in route
   * order.
   */
  method CollectReservedFlights(fs: seq<FlightRecord>, ids: seq<nat>, passenger: Passenger) returns (reservedFlights: seq<nat>)
    requires InBounds(fs, ids) && Ascending(fs, ids)
    ensures reservedFlights == Holders(fs, ids, passenger)
  {
    reservedFlights := [];
    var k := 0;
    while k < |ids|
      invariant 0 <= k <= |ids|
      invariant reservedFlights == Holders(fs, ids[..k], passenger)
      decreases |ids| - k
    {
      reservedFlights := CollectStep(fs, ids, k, passenger, reservedFlights);
      k := k + 1;
    }
    assert ids[..k] == ids;
  }

  /**
   * The lookup half of processCancelPassenger: the route is found, the
   * flights holding the passenger are collected in route order, and the
   * last of them is the one to act on. Err when an airport code is
   * invalid; None when the route is unknown or no flight holds the
   * passenger.
   */
  method LocateCancellation(s: State, name: string, origin: string, destination: string) returns (r: Result<Option<nat>>)
    requires Inv(s)
    ensures r.Err? ==> CancelPassenger(s, name, origin, destination) == Err(r.error)
    ensures r == Ok(None) ==> CancelPassenger(s, name, origin, destination) == Ok(s)
    ensures r.Ok? && r.value.Some? ==>
      && r.value.value < |s.flights| && Passenger(name) in s.flights[r.value.value].ledger
      && CancelPassenger(s, name, origin, destination) == Ok(CancelledOn(s, r.value.value, Passenger(name)))
  {
    var found := RouteFlights(s.routes, origin, destination);
    if found.Err? {
      return Err(found.error);
    }
    if found.value.None? {
      return Ok(None);
    }
    var ids := found.value.value;
    CancelFound(s, name, origin, destination);
    var last := LastReservedFlight(s.flights, ids, Passenger(name));
    r := Ok(last);
  }

  /**
   * The flights holding the passenger are collected in route order, and
   * the last of them, the dearest, is the one to act on; None when no
   * flight holds the passenger.
   */
  method LastReservedFlight(fs: seq<FlightRecord>, ids: seq<nat>, passenger: Passenger) returns (r: Option<nat>)
    requires InBounds(fs, ids) && Ascending(fs, ids)
    ensures r == LastHolder(fs, ids, passenger)
  {
    var reservedFlights := CollectReservedFlights(fs, ids, passenger);
    if reservedFlights == [] {
      return None;
    }
    r := Some(reservedFlights[|reservedFlights| - 1]);
  }

  class FlightReservationSystem {
    /** Every flight built so far; a flight's id is its position here. */
    var flights: seq<Flight>
    /** Route key to the ids of its flights, ascending by price. */
    var flightsMap: map<Route, seq<nat>>
    /** Flight number to the id of the first flight registered under it. */
    var flightNumberToFlightMap: map<string, nat>

    /** The whole system as a value. */
    function Model(): State
      reads this, flights
    {
      State(Snapshot(flights), flightsMap, flightNumberToFlightMap)
    }

    /** The flight objects are distinct and the value keeps the engine invariant. */
    ghost predicate Valid()
      reads this, flights
    {
      && Distinct(flights)
      && Inv(Model())
    }

    /** The system before any catalog line is read: both maps empty. */
    constructor ()
      ensures Valid() && Model() == Empty()
    {
      flights := [];
      flightsMap := map[];
      flightNumberToFlightMap := map[];
    }

    /** addFlight, on a catalog line already split and converted. */
    method AddFlight(c: CatalogRecord) returns (res: Result<()>)
      requires Valid()
      modifies this
      ensures Valid()
      ensures match Engine.AddFlight(old(Model()), c)
        case Ok(t) => res.Ok? && Model() == t
        case Err(e) => res == Err(e) && Model() == old(Model())
    {
      var route := NewRoute(c.origin, c.destination);
      if route.Err? {
        return Err(route.error);
      }
      ghost var s := Model();
      var flight := new Flight(c.number, c.seats, c.price, c.origin, c.destination);
      assert Snapshot(flights) == s.flights;
      AddBuiltFlight(c, route.value, flight);
      res := Ok(());
    }

    /**
     * The second half of addFlight: the built flight goes into its route's
     * ordered set, and its number is registered unless already present.
     */
    method AddBuiltFlight(c: CatalogRecord, key: Route, flight: Flight)
      requires Valid() && NewRoute(c.origin, c.destination) == Ok(key)
      requires flight !in flights && flight.Model() == NewFlight(c.number, c.seats, c.price, c.origin, c.destination)
      modifies this
      ensures Valid()
      ensures Engine.AddFlight(old(Model()), c).Ok? && Model() == Engine.AddFlight(old(Model()), c).value
    {
      ghost var s := Model();
      AddFlightInv(s, c);
      ghost var t := Engine.AddFlight(s, c).value;
      var ids := if key in flightsMap then flightsMap[key] else [];
      assert key in s.routes ==> RouteWellFormed(s, key);
      var id := |flights|;
      var fs := Snapshot(flights) + [flight.Model()];
      assert fs == t.flights;
      var numbers := if c.number in flightNumberToFlightMap then flightNumberToFlightMap
        else flightNumberToFlightMap[c.number := id];
      assert numbers == t.numbers;
      var routes := flightsMap[key := Insert(fs, ids, id)];
      assert routes == t.routes;
      DistinctAppend(flights, flight);
      SnapshotAppend(flights, flight);
      ghost var snap := Snapshot(flights + [flight]);
      assert snap == t.flights;
      flights, flightsMap, flightNumberToFlightMap := flights + [flight], routes, numbers;
      forall i | 0 <= i < |flights|
        ensures flights[i].Model() == snap[i]
      {
      }
      assert Snapshot(flights) == snap;
      assert Model() == t;
    }

    /**
     * initiateFlights, on the catalog lines already split and converted:
     * both maps are replaced by empty ones first, so whatever the system
     * held before is dropped and the catalog is loaded from scratch.
     */
    method InitiateFlights(catalog: seq<CatalogRecord>) returns (res: Result<()>)
      modifies this
      ensures Valid()
      ensures var o := LoadCatalog(Empty(), catalog);
        Model() == o.state && (res.Ok? <==> o.failure.None?) && (res.Err? ==> o.failure == Some(res.error))
    {
      flights, flightsMap, flightNumberToFlightMap := [], map[], map[];
      assert Model() == Empty();
      var i := 0;
      while i < |catalog|
        invariant 0 <= i <= |catalog|
        invariant Valid()
        invariant LoadCatalog(Empty(), catalog) == LoadCatalog(Model(), catalog[i..])
        decreases |catalog| - i
      {
        assert catalog[i..][0] == catalog[i] && catalog[i..][1..] == catalog[i + 1..];
        var added := AddFlight(catalog[i]);
        if added.Err? {
          return Err(added.error);
        }
        i := i + 1;
      }
      res := Ok(());
    }

    /**
     * processBookPassenger: walks the route in ascending price order, skips
     * the full flights, and on the first other flight draws a seat and
     * books the passenger at that flight's price.
     */
    method ProcessBookPassenger(name: string, origin: string, destination: string, rnd: RandomValue) returns (res: Result<()>)
      requires Valid()
      modifies this, flights
      ensures Valid() && flights == old(flights)
      ensures match BookPassenger(old(Model()), name, origin, destination, rnd)
        case Ok(t) => res.Ok? && Model() == t
        case Err(e) => res == Err(e) && Model() == old(Model())
    {
      ghost var s := Model();
      var found := RouteFlights(flightsMap, origin, destination);
      if found.Err? {
        return Err(found.error);
      }
      if found.value.None? {
        return Ok(());
      }
      var ids := found.value.value;
      assert RouteWellFormed(s, Route(origin, destination));
      var passenger := Passenger(name);
      var k := 0;
      while k < |ids|
        invariant 0 <= k <= |ids|
        invariant forall j :: 0 <= j < k ==> s.flights[ids[j]].IsFull()
        decreases |ids| - k
      {
        if !flights[ids[k]].Model().IsFull() {
          break;
        }
        k := k + 1;
      }
      if k == |ids| {
        assert FirstNonFull(s.flights, ids).None?;
        return Ok(());
      }
      assert FirstNonFull(s.flights, ids) == Some(k);
      res := BookOnFlight(ids[k], passenger, rnd);
    }

    /**
     * The booking step of processBookPassenger, on the chosen flight: a
     * seat is drawn from its pool and the passenger is booked there at its
     * current price.
     */
    method BookOnFlight(id: nat, passenger: Passenger, rnd: RandomValue) returns (res: Result<()>)
      requires Valid() && id < |flights|
      modifies flights[id]
      ensures Valid() && flights == old(flights)
      ensures match old(Model()).flights[id].Drawn(rnd)
        case Ok(d) => res.Ok? && Model() == BookedOn(old(Model()), id, d, passenger)
        case Err(e) => res == Err(e) && Model() == old(Model())
    {
      ghost var s := Model();
      var flight := flights[id];
      var price := flight.pricePerSeat;
      var seat := flight.GenerateRandomSeatNumber(rnd);
      if seat.Err? {
        assert forall i :: 0 <= i < |flights| ==> flights[i].Model() == s.flights[i];
        assert Model() == s;
        return Err(seat.error);
      }
      flight.BookPassenger(ReservationItem(passenger, price, seat.value));
      SnapshotUpdate(flights, s.flights, id);
      BookOnFlightInv(s, id, rnd, passenger);
      res := Ok(());
    }

    /**
     * processChangePrice: for a registered number, the flight leaves its
     * route's ordered set, takes the new price, and is added back.
     */
    method ProcessChangePrice(number: string, newPrice: int)
      requires Valid()
      modifies this, flights
      ensures Valid() && flights == old(flights)
      ensures Model() == ChangePrice(old(Model()), number, newPrice)
    {
      if number !in flightNumberToFlightMap {
        return;
      }
      ghost var s := Model();
      var id := flightNumberToFlightMap[number];
      var flight := flights[id];
      var key := Route(flight.originCode, flight.destinationCode);
      assert FlightWellFormed(s, id);
      assert RouteWellFormed(s, key);
      var rest := RemoveByPrice(Snapshot(flights), flightsMap[key], flight.pricePerSeat);
      ghost var t := ChangePrice(s, number, newPrice);
      ChangePriceInv(s, number, newPrice);
      RepriceFlight(id, newPrice);
      var fs := Snapshot(flights);
      assert fs == t.flights;
      var routes := flightsMap[key := Insert(fs, rest, id)];
      assert routes == t.routes;
      flightsMap := routes;
      forall i | 0 <= i < |flights|
        ensures flights[i].Model() == fs[i]
      {
      }
      assert Snapshot(flights) == fs;
      assert Model() == t;
    }

    /** The flight's own part of processChangePrice: only its price changes. */
    method RepriceFlight(id: nat, newPrice: int)
      requires Distinct(flights) && id < |flights|
      modifies flights[id]
      ensures flights == old(flights) && flightsMap == old(flightsMap)
      ensures flightNumberToFlightMap == old(flightNumberToFlightMap)
      ensures Snapshot(flights) == old(Snapshot(flights))[id := old(flights[id].Model()).Repriced(newPrice)]
    {
      ghost var before := Snapshot(flights);
      flights[id].ChangePrice(newPrice);
      SnapshotUpdate(flights, before, id);
    }

    /**
     * processCancelPassenger: the flight to act on is located on the
     * route, and its reservation for the passenger is cancelled.
     */
    method ProcessCancelPassenger(name: string, origin: string, destination: string) returns (res: Result<()>)
      requires Valid()
      modifies this, flights
      ensures Valid() && flights == old(flights)
      ensures match CancelPassenger(old(Model()), name, origin, destination)
        case Ok(t) => res.Ok? && Model() == t
        case Err(e) => res == Err(e) && Model() == old(Model())
    {
      ghost var s := Model();
      var target := LocateCancellation(Model(), name, origin, destination);
      match target
      case Err(e) =>
        res := Err(e);
      case Ok(None) =>
        res := Ok(());
      case Ok(Some(id)) =>
        CancelMostExpensive(id, Passenger(name));
        assert Model() == CancelledOn(s, id, Passenger(name));
        res := Ok(());
    }

    /**
     * The last steps of processCancelPassenger, on the chosen flight: its
     * reservation for the passenger is cancelled and the seat goes back.
     */
    method CancelMostExpensive(id: nat, passenger: Passenger)
      requires Valid() && id < |flights| && passenger in flights[id].reservationMap
      modifies flights[id]
      ensures Valid() && flights == old(flights)
      ensures Model() == CancelledOn(old(Model()), id, passenger)
    {
      ghost var s := Model();
      var flight := flights[id];
      var reservation := flight.Model().ReservationOf(passenger).value;
      flight.CancelPassenger(reservation);
      flight.RecoverSeat(reservation.seatNumber);
      SnapshotUpdate(flights, s.flights, id);
      CancelOnFlightInv(s, id, passenger);
    }

    /** processTransaction: dispatch on the kind; an unrecognised kind is ignored. */
    method ProcessTransaction(tx: Transaction, rnd: RandomValue) returns (res: Result<()>)
      requires Valid()
      modifies this, flights
      ensures Valid() && flights == old(flights)
      ensures match Engine.ProcessTransaction(old(Model()), tx, rnd)
        case Ok(t) => res.Ok? && Model() == t
        case Err(e) => res == Err(e) && Model() == old(Model())
    {
      match tx
      case Book(name, origin, destination) =>
        res := ProcessBookPassenger(name, origin, destination, rnd);
      case Reprice(number, newPrice) =>
        ProcessChangePrice(number, newPrice);
        res := Ok(());
      case Cancel(name, origin, destination) =>
        res := ProcessCancelPassenger(name, origin, destination);
      case Unrecognised(_) =>
        res := Ok(());
    }

    /** handleTransactions, on the transaction lines already split. */
    method HandleTransactions(txs: seq<Transaction>, rnds: seq<RandomValue>) returns (res: Result<()>)
      requires Valid() && |rnds| == |txs|
      modifies this, flights
      ensures Valid() && flights == old(flights)
      ensures var o := RunTransactions(old(Model()), txs, rnds);
        Model() == o.state && (res.Ok? <==> o.failure.None?) && (res.Err? ==> o.failure == Some(res.error))
    {
      var i := 0;
      while i < |txs|
        invariant 0 <= i <= |txs|
        invariant Valid() && flights == old(flights)
        invariant RunTransactions(old(Model()), txs, rnds) == RunTransactions(Model(), txs[i..], rnds[i..])
        decreases |txs| - i
      {
        assert txs[i..][0] == txs[i] && txs[i..][1..] == txs[i + 1..];
        assert rnds[i..][0] == rnds[i] && rnds[i..][1..] == rnds[i + 1..];
        var done := ProcessTransaction(txs[i], rnds[i]);
        if done.Err? {
          return Err(done.error);
        }
        i := i + 1;
      }
      res := Ok(());
    }

    /**
     * The totals of createOutput: the summaries of the registered flights,
     * added up in the map's iteration order, which the result does not
     * depend on.
     */
    method ReportTotals() returns (totalSeatsSold: int, totalRevenue: int)
      requires Valid()
      ensures totalSeatsSold == TotalSeatsSold(Model())
      ensures totalRevenue == TotalRevenue(Model())
    {
      ghost var s := Model();
      FiguresByNumber(s);
      ghost var sold, revenue := SoldByNumber(s), RevenueByNumber(s);
      forall n | n in flightNumberToFlightMap
        ensures flightNumberToFlightMap[n] < |flights|
        ensures sold[n] == |flights[flightNumberToFlightMap[n]].reservationMap|
        ensures revenue[n] == flights[flightNumberToFlightMap[n]].Model().Revenue()
      {
        assert flights[flightNumberToFlightMap[n]].Model() == s.flights[s.numbers[n]];
      }
      totalSeatsSold, totalRevenue := AddSummaries(sold, revenue);
      assert Model() == s;
    }

    /** The loop of createOutput, against the sold-seat and revenue figures it must add up. */
    method AddSummaries(ghost sold: map<string, int>, ghost revenue: map<string, int>)
      returns (totalSeatsSold: int, totalRevenue: int)
      requires sold.Keys == revenue.Keys == flightNumberToFlightMap.Keys
      requires forall n :: n in flightNumberToFlightMap ==> flightNumberToFlightMap[n] < |flights|
      requires forall n :: n in sold ==> sold[n] == |flights[flightNumberToFlightMap[n]].reservationMap|
      requires forall n :: n in revenue ==> revenue[n] == flights[flightNumberToFlightMap[n]].Model().Revenue()
      ensures totalSeatsSold == Sums.MapSum(sold) && totalRevenue == Sums.MapSum(revenue)
    {
      totalSeatsSold := 0;
      totalRevenue := 0;
      var remaining := flightNumberToFlightMap.Keys;
      Sums.RestrictAll(sold, remaining);
      Sums.RestrictAll(revenue, remaining);
      while remaining != {}
        invariant remaining <= flightNumberToFlightMap.Keys
        invariant totalSeatsSold + Sums.MapSum(Sums.Restrict(sold, remaining)) == Sums.MapSum(sold)
        invariant totalRevenue + Sums.MapSum(Sums.Restrict(revenue, remaining)) == Sums.MapSum(revenue)
        decreases remaining
      {
        var number :| number in remaining;
        Sums.MapSumRestrictStep(sold, remaining, number);
        Sums.MapSumRestrictStep(revenue, remaining, number);
        var summary := flights[flightNumberToFlightMap[number]].SummaryFlight();
        totalSeatsSold := totalSeatsSold + summary.soldSeats;
        totalRevenue := totalRevenue + summary.totalRevenue;
        remaining := remaining - {number};
      }
    }
  }
}
