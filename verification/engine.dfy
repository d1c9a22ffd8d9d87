/**
 * The reservation engine as a value: all flights ever built (indexed by
 * id), the route index (route key to the ids of that route, ascending by
 * price) and the flight-number index (number to id, first registration
 * wins). Each handler is a function from the state before to the state
 * after, or to the error that aborts the run.
 */
module Engine {
  import opened Results
  import opened Passengers
  import opened Reservations
  import opened Routes
  import opened Flights
  import opened RouteIndex
  import TransactionTypes
  import Sums

  datatype State = State(
    flights: seq<FlightRecord>,
    routes: map<Route, seq<nat>>,
    numbers: map<string, nat>)

  /** One line of the flight catalog, already split and converted. */
  datatype CatalogRecord = CatalogRecord(
    number: string,
    seats: int,
    price: int,
    origin: string,
    destination: string)

  /**
   * One transaction record, already split. A record whose kind string is
   * none of the three transaction names (see TransactionTypes.Classify)
   * is Unrecognised.
   */
  datatype Transaction =
    | Book(passengerName: string, origin: string, destination: string)
    | Reprice(flightNumber: string, newPrice: int)
    | Cancel(passengerName: string, origin: string, destination: string)
    | Unrecognised(kind: string)

  /** The route key of a flight. */
  function RouteOf(f: FlightRecord): Route
  {
    Route(f.origin, f.destination)
  }

  // ---------------------------------------------------------------------
  // The invariant
  // ---------------------------------------------------------------------

  /** A route names flights of that route only, in strictly ascending price order. */
  ghost predicate RouteWellFormed(s: State, r: Route)
    requires r in s.routes
  {
    var ids := s.routes[r];
    && InBounds(s.flights, ids)
    && Ascending(s.flights, ids)
    && (forall k :: 0 <= k < |ids| ==> RouteOf(s.flights[ids[k]]) == r)
  }

  /** A flight has valid codes, its route is indexed, and its seats are conserved. */
  ghost predicate FlightWellFormed(s: State, i: nat)
    requires i < |s.flights|
  {
    var f := s.flights[i];
    && ValidAirportCode(f.origin) && ValidAirportCode(f.destination)
    && RouteOf(f) in s.routes
    && f.SeatsConsistent()
  }

  ghost predicate Inv(s: State)
  {
    && (forall r {:trigger RouteWellFormed(s, r)} :: r in s.routes ==> RouteWellFormed(s, r))
    && (forall i {:trigger FlightWellFormed(s, i)} :: 0 <= i < |s.flights| ==> FlightWellFormed(s, i))
    && (forall n {:trigger s.numbers[n]} :: n in s.numbers ==> s.numbers[n] < |s.flights| && s.flights[s.numbers[n]].number == n)
  }

  /** The engine before any catalog line is read. */
  function Empty(): (s: State)
    ensures Inv(s)
  {
    State([], map[], map[])
  }

  // ---------------------------------------------------------------------
  // The handlers
  // ---------------------------------------------------------------------

  /**
   * getFlightsByOriginDestinationPair: the route key is built (and
   * validated) from the two codes, then looked up exactly; a missing route
   * is None (null).
   */
  function RouteFlights(routes: map<Route, seq<nat>>, origin: string, destination: string): (r: Result<Option<seq<nat>>>)
    ensures r.Err? <==> !(ValidAirportCode(origin) && ValidAirportCode(destination))
    ensures r.Err? ==> r.error == InvalidAirportCode
    ensures r.Ok? ==> (r.value.Some? <==> Route(origin, destination) in routes)
    ensures r.Ok? && r.value.Some? ==> r.value.value == routes[Route(origin, destination)]
  {
    var key :- NewRoute(origin, destination);
    Ok(if key in routes then Some(routes[key]) else None)
  }

  /**
   * addFlight: builds the flight, adds it to its route's ordered set and
   * registers its number unless the number is already registered.
   */
  function AddFlight(s: State, c: CatalogRecord): Result<State>
    requires Inv(s)
  {
    var key :- NewRoute(c.origin, c.destination);
    var id := |s.flights|;
    var fs := s.flights + [NewFlight(c.number, c.seats, c.price, c.origin, c.destination)];
    var ids := if key in s.routes then s.routes[key] else [];
    assert key in s.routes ==> RouteWellFormed(s, key);
    var numbers := if c.number in s.numbers then s.numbers else s.numbers[c.number := id];
    Ok(State(fs, s.routes[key := Insert(fs, ids, id)], numbers))
  }

  /** One flight gives up the drawn seat and books the passenger at its current price. */
  function BookedOn(s: State, id: nat, d: Draw, p: Passenger): State
    requires id < |s.flights|
  {
    s.(flights := s.flights[id := d.after.Booked(ReservationItem(p, s.flights[id].price, d.seat))])
  }

  /**
   * processBookPassenger: on a known route, the first flight in ascending
   * price order that is not full draws a seat from its pool and books the
   * passenger at its current price; the scan stops there.
   */
  function BookPassenger(s: State, name: string, origin: string, destination: string, rnd: RandomValue): Result<State>
    requires Inv(s)
  {
    var found :- RouteFlights(s.routes, origin, destination);
    if found.None? then Ok(s)
    else
      var ids := found.value;
      assert RouteWellFormed(s, Route(origin, destination));
      match FirstNonFull(s.flights, ids)
      case None => Ok(s)
      case Some(j) =>
        var d :- s.flights[ids[j]].Drawn(rnd);
        Ok(BookedOn(s, ids[j], d, Passenger(name)))
  }

  /**
   * processChangePrice: for a registered number, the flight is removed
   * from its route's ordered set, repriced, and added again.
   */
  function ChangePrice(s: State, number: string, newPrice: int): State
    requires Inv(s)
  {
    if number !in s.numbers then s
    else
      var id := s.numbers[number];
      var f := s.flights[id];
      var key := RouteOf(f);
      assert FlightWellFormed(s, id);
      assert RouteWellFormed(s, key);
      var rest := RemoveByPrice(s.flights, s.routes[key], f.price);
      var fs := s.flights[id := f.Repriced(newPrice)];
      s.(flights := fs, routes := s.routes[key := Insert(fs, rest, id)])
  }

  /** One flight gives up the passenger's reservation and takes its seat back into the pool. */
  function CancelledOn(s: State, id: nat, p: Passenger): State
    requires id < |s.flights| && p in s.flights[id].ledger
  {
    var f := s.flights[id];
    var item := f.ledger[p];
    s.(flights := s.flights[id := f.Cancelled(item).SeatRecovered(item.seatNumber)])
  }

  /**
   * processCancelPassenger: on a known route, the flights holding the
   * passenger are collected; the dearest of them cancels the reservation
   * and takes its seat back into the pool.
   */
  function CancelPassenger(s: State, name: string, origin: string, destination: string): Result<State>
    requires Inv(s)
  {
    var found :- RouteFlights(s.routes, origin, destination);
    if found.None? then Ok(s)
    else
      assert RouteWellFormed(s, Route(origin, destination));
      Ok(CancelOnRoute(s, found.value, Passenger(name)))
  }

  /** The cancellation on the flights of one route, once the route is found. */
  function CancelOnRoute(s: State, ids: seq<nat>, p: Passenger): (t: State)
    requires InBounds(s.flights, ids)
    ensures t.routes == s.routes && t.numbers == s.numbers && |t.flights| == |s.flights|
  {
    match LastHolder(s.flights, ids, p)
    case None => s
    case Some(id) => CancelledOn(s, id, p)
  }

  /** processTransaction: dispatch on the kind; an unrecognised kind is ignored. */
  function ProcessTransaction(s: State, tx: Transaction, rnd: RandomValue): Result<State>
    requires Inv(s)
  {
    match tx
    case Book(name, origin, destination) => BookPassenger(s, name, origin, destination, rnd)
    case Reprice(number, newPrice) => Ok(ChangePrice(s, number, newPrice))
    case Cancel(name, origin, destination) => CancelPassenger(s, name, origin, destination)
    case Unrecognised(_) => Ok(s)
  }

  /** Where a run of records stops: the state reached, and the error that stopped it if any. */
  datatype Outcome = Outcome(state: State, failure: Option<Error>)

  /**
   * initiateFlights: the catalog lines are added in order, and the first
   * line with an invalid airport code stops the run.
   */
  function LoadCatalog(s: State, catalog: seq<CatalogRecord>): (o: Outcome)
    requires Inv(s)
    ensures Inv(o.state)
    ensures o.failure.None? <==>
      forall i :: 0 <= i < |catalog| ==> ValidAirportCode(catalog[i].origin) && ValidAirportCode(catalog[i].destination)
    ensures o.failure.Some? ==> o.failure.value == InvalidAirportCode
    ensures o.failure.None? ==> |o.state.flights| == |s.flights| + |catalog|
    decreases |catalog|
  {
    if catalog == [] then Outcome(s, None)
    else
      AddFlightInv(s, catalog[0]);
      AddFlightEffect(s, catalog[0]);
      assert forall i :: 1 <= i < |catalog| ==> catalog[1..][i - 1] == catalog[i];
      match AddFlight(s, catalog[0])
      case Err(e) => Outcome(s, Some(e))
      case Ok(t) => LoadCatalog(t, catalog[1..])
  }

  /**
   * handleTransactions: the transactions are processed in order, each with
   * its own random draw, and the first one that raises an error stops the
   * run; a passenger name is never rejected.
   */
  function RunTransactions(s: State, txs: seq<Transaction>, rnds: seq<RandomValue>): (o: Outcome)
    requires Inv(s) && |rnds| == |txs|
    ensures Inv(o.state)
    ensures o.failure.Some? ==> o.failure.value != NullPassengerName
    decreases |txs|
  {
    if txs == [] then Outcome(s, None)
    else
      ProcessTransactionInv(s, txs[0], rnds[0]);
      ProcessTransactionErrors(s, txs[0], rnds[0]);
      match ProcessTransaction(s, txs[0], rnds[0])
      case Err(e) => Outcome(s, Some(e))
      case Ok(t) => RunTransactions(t, txs[1..], rnds[1..])
  }

  /** Seats sold on each registered flight, by flight number. */
  ghost function SoldByNumber(s: State): map<string, int>
    requires Inv(s)
  {
    map n | n in s.numbers :: |s.flights[s.numbers[n]].ledger|
  }

  /** Revenue of each registered flight, by flight number. */
  ghost function RevenueByNumber(s: State): map<string, int>
    requires Inv(s)
  {
    map n | n in s.numbers :: s.flights[s.numbers[n]].Revenue()
  }

  /** The figures the totals add up, entry by entry. */
  lemma FiguresByNumber(s: State)
    requires Inv(s)
    ensures SoldByNumber(s).Keys == RevenueByNumber(s).Keys == s.numbers.Keys
    ensures forall n :: n in s.numbers ==> s.numbers[n] < |s.flights|
    ensures forall n :: n in s.numbers ==> SoldByNumber(s)[n] == |s.flights[s.numbers[n]].ledger|
    ensures forall n :: n in s.numbers ==> RevenueByNumber(s)[n] == s.flights[s.numbers[n]].Revenue()
  {
  }

  /** The report's total seats sold: the sum over the registered flights. */
  ghost function TotalSeatsSold(s: State): int
    requires Inv(s)
  {
    Sums.MapSum(SoldByNumber(s))
  }

  /** The report's total revenue: the sum over the registered flights. */
  ghost function TotalRevenue(s: State): int
    requires Inv(s)
  {
    Sums.MapSum(RevenueByNumber(s))
  }

  // ---------------------------------------------------------------------
  // What each handler does
  // ---------------------------------------------------------------------

  /**
   * A booking fails on an invalid airport code, and on a chosen flight
   * whose pool is empty; it changes nothing when the route is unknown or
   * every flight of it is full; otherwise the cheapest flight that is not
   * full draws a seat and books the passenger, and nothing else changes.
   */
  lemma {:induction false} BookEffect(s: State, name: string, origin: string, destination: string, rnd: RandomValue)
    requires Inv(s)
    ensures !(ValidAirportCode(origin) && ValidAirportCode(destination)) ==>
      BookPassenger(s, name, origin, destination, rnd) == Err(InvalidAirportCode)
    ensures ValidAirportCode(origin) && ValidAirportCode(destination) && Route(origin, destination) !in s.routes ==>
      BookPassenger(s, name, origin, destination, rnd) == Ok(s)
    ensures ValidAirportCode(origin) && ValidAirportCode(destination) && Route(origin, destination) in s.routes ==>
      var ids := s.routes[Route(origin, destination)];
      && ((forall x :: x in ids && x < |s.flights| ==> s.flights[x].IsFull()) ==>
           BookPassenger(s, name, origin, destination, rnd) == Ok(s))
      && (forall id: nat :: CheapestOpen(s.flights, ids, id) ==>
           && (s.flights[id].pool == [] ==> BookPassenger(s, name, origin, destination, rnd) == Err(IndexOutOfBounds))
           && (s.flights[id].pool != [] ==>
                BookPassenger(s, name, origin, destination, rnd) == Ok(BookedOn(s, id, s.flights[id].Drawn(rnd).value, Passenger(name)))))
  {
    var key := Route(origin, destination);
    if ValidAirportCode(origin) && ValidAirportCode(destination) && key in s.routes {
      assert RouteWellFormed(s, key);
      CheapestOpenIsFirst(s.flights, s.routes[key]);
    }
  }

  /**
   * A passenger who already holds a reservation on the flight chosen for
   * the booking keeps that reservation, yet the flight's pool still gives
   * up a seat: the drawn seat is neither held nor back in the pool.
   */
  lemma RebookingLeaksSeat(f: FlightRecord, rnd: RandomValue, p: Passenger)
    requires f.SeatsConsistent() && p in f.ledger && f.Drawn(rnd).Ok?
    ensures var d := f.Drawn(rnd).value;
      var g := d.after.Booked(ReservationItem(p, f.price, d.seat));
      && g.ledger == f.ledger
      && g.AvailableSeats() == f.AvailableSeats()
      && |g.pool| == |f.pool| - 1
      && d.seat !in g.pool
      && forall q :: q in g.ledger ==> g.ledger[q].seatNumber != d.seat
  {
    var d := f.Drawn(rnd).value;
    var g := d.after.Booked(ReservationItem(p, f.price, d.seat));
    assert g.ledger == f.ledger;
  }

  /**
   * A price change of an unregistered number changes nothing. Otherwise
   * only the registered flight's price changes, and only its route's
   * ordered set is rebuilt: every flight of the old price leaves it, and
   * the flight comes back unless a remaining flight already has the new
   * price.
   */
  lemma {:induction false} ChangePriceEffect(s: State, number: string, newPrice: int)
    requires Inv(s)
    ensures number !in s.numbers ==> ChangePrice(s, number, newPrice) == s
    ensures number in s.numbers ==>
      var t := ChangePrice(s, number, newPrice);
      var id := s.numbers[number];
      var f := s.flights[id];
      var key := RouteOf(f);
      && t.numbers == s.numbers
      && t.flights == s.flights[id := f.Repriced(newPrice)]
      && t.routes.Keys == s.routes.Keys
      && key in s.routes
      && (forall r :: r in s.routes && r != key ==> t.routes[r] == s.routes[r])
      && (forall x :: x in t.routes[key] <==>
           || (x in s.routes[key] && x < |s.flights| && s.flights[x].price != f.price)
           || (x == id && forall y :: y in s.routes[key] && y < |s.flights| && s.flights[y].price != f.price ==> s.flights[y].price != newPrice))
  {
    if number in s.numbers {
      var id := s.numbers[number];
      var key := RouteOf(s.flights[id]);
      assert FlightWellFormed(s, id);
      assert RouteWellFormed(s, key);
      RepriceOnRoute(s.flights, s.routes[key], id, newPrice);
    }
  }

  /**
   * Adding a catalog line fails exactly on an invalid airport code.
   * Otherwise the new flight is appended, every other route is unchanged,
   * and its number is registered only if it was not already.
   */
  lemma AddFlightEffect(s: State, c: CatalogRecord)
    requires Inv(s)
    ensures AddFlight(s, c).Err? <==> !(ValidAirportCode(c.origin) && ValidAirportCode(c.destination))
    ensures AddFlight(s, c).Err? ==> AddFlight(s, c).error == InvalidAirportCode
    ensures AddFlight(s, c).Ok? ==>
      var t := AddFlight(s, c).value;
      var key := Route(c.origin, c.destination);
      && t.flights == s.flights + [NewFlight(c.number, c.seats, c.price, c.origin, c.destination)]
      && (c.number in s.numbers ==> t.numbers == s.numbers)
      && (c.number !in s.numbers ==> t.numbers == s.numbers[c.number := |s.flights|])
      && t.routes.Keys == s.routes.Keys + {key}
      && (forall r :: r in s.routes && r != key ==> t.routes[r] == s.routes[r])
  {
  }

  /**
   * The route of an added flight: the flights it held before, plus the new
   * flight exactly when none of them has the new flight's price.
   */
  lemma {:induction false} AddFlightRoute(s: State, c: CatalogRecord)
    requires Inv(s)
    ensures AddFlight(s, c).Ok? ==>
      var t := AddFlight(s, c).value;
      var id := |s.flights|;
      var key := Route(c.origin, c.destination);
      var before := if key in s.routes then s.routes[key] else [];
      key in t.routes &&
      forall x :: x in t.routes[key] <==>
        || x in before
        || (x == id && forall y :: y in before && y < |s.flights| ==> s.flights[y].price != c.price)
  {
    if ValidAirportCode(c.origin) && ValidAirportCode(c.destination) {
      var id := |s.flights|;
      var key := Route(c.origin, c.destination);
      var ids := if key in s.routes then s.routes[key] else [];
      var fs := s.flights + [NewFlight(c.number, c.seats, c.price, c.origin, c.destination)];
      assert forall k :: 0 <= k < |s.flights| ==> fs[k] == s.flights[k];
      assert InBounds(s.flights, ids) && Ascending(s.flights, ids) by {
        if key in s.routes {
          assert RouteWellFormed(s, key);
        }
      }
      forall y | y in ids
        ensures y < |s.flights| && fs[y] == s.flights[y]
      {
        var k :| 0 <= k < |ids| && ids[k] == y;
      }
      assert InBounds(fs, ids) && Ascending(fs, ids);
      assert AddFlight(s, c).value.routes[key] == Insert(fs, ids, id);
      InsertMembers(fs, ids, id);
    }
  }

  /**
   * A cancellation fails only on an invalid airport code; it changes
   * nothing when the route is unknown or no flight of it holds the
   * passenger; otherwise the dearest flight holding the passenger gives up
   * the reservation and recovers its seat, and nothing else changes.
   */
  lemma {:induction false} CancelEffect(s: State, name: string, origin: string, destination: string)
    requires Inv(s)
    ensures !(ValidAirportCode(origin) && ValidAirportCode(destination)) ==>
      CancelPassenger(s, name, origin, destination) == Err(InvalidAirportCode)
    ensures ValidAirportCode(origin) && ValidAirportCode(destination) && Route(origin, destination) !in s.routes ==>
      CancelPassenger(s, name, origin, destination) == Ok(s)
    ensures ValidAirportCode(origin) && ValidAirportCode(destination) && Route(origin, destination) in s.routes ==>
      var ids := s.routes[Route(origin, destination)];
      && ((forall x :: x in ids && x < |s.flights| ==> Passenger(name) !in s.flights[x].ledger) ==>
           CancelPassenger(s, name, origin, destination) == Ok(s))
      && (forall id: nat :: DearestHolder(s.flights, ids, Passenger(name), id) ==>
           CancelPassenger(s, name, origin, destination) == Ok(CancelledOn(s, id, Passenger(name))))
  {
    if ValidAirportCode(origin) && ValidAirportCode(destination) && Route(origin, destination) in s.routes {
      var ids := s.routes[Route(origin, destination)];
      var p := Passenger(name);
      CancelFound(s, name, origin, destination);
      DearestHolderIsLast(s.flights, ids, p);
    }
  }

  /** On a known route, a cancellation is the cancellation on that route's flights. */
  lemma CancelFound(s: State, name: string, origin: string, destination: string)
    requires Inv(s) && ValidAirportCode(origin) && ValidAirportCode(destination)
    requires Route(origin, destination) in s.routes
    ensures RouteWellFormed(s, Route(origin, destination))
    ensures CancelPassenger(s, name, origin, destination) ==
      Ok(CancelOnRoute(s, s.routes[Route(origin, destination)], Passenger(name)))
  {
    assert RouteWellFormed(s, Route(origin, destination));
  }

  // ---------------------------------------------------------------------
  // Preservation of the invariant
  // ---------------------------------------------------------------------

  /** A route whose ids, prices and route keys did not change stays well formed. */
  lemma RouteCarried(s: State, t: State, r: Route)
    requires r in s.routes && RouteWellFormed(s, r)
    requires r in t.routes && t.routes[r] == s.routes[r]
    requires forall x :: x in s.routes[r] ==>
      x < |t.flights| && t.flights[x].price == s.flights[x].price && RouteOf(t.flights[x]) == RouteOf(s.flights[x])
    ensures RouteWellFormed(t, r)
  {
    var ids := s.routes[r];
    assert forall k :: 0 <= k < |ids| ==> ids[k] in ids;
  }

  /**
   * Changing one flight without touching its number, price or route keeps
   * the invariant, provided the flight still conserves its seats.
   */
  lemma {:induction false} UpdateFlightInv(s: State, id: nat, g: FlightRecord)
    requires Inv(s) && id < |s.flights|
    requires g.number == s.flights[id].number && g.price == s.flights[id].price
    requires RouteOf(g) == RouteOf(s.flights[id]) && g.origin == s.flights[id].origin && g.destination == s.flights[id].destination
    requires g.SeatsConsistent()
    ensures Inv(s.(flights := s.flights[id := g]))
  {
    var t := s.(flights := s.flights[id := g]);
    forall r | r in t.routes
      ensures RouteWellFormed(t, r)
    {
      RouteCarried(s, t, r);
    }
    forall i | 0 <= i < |t.flights|
      ensures FlightWellFormed(t, i)
    {
      assert FlightWellFormed(s, i);
    }
  }

  /**
   * Adding a flight of a route to an ascending collection of that route's
   * flights gives an ascending collection of that route's flights.
   */
  lemma InsertedRouteWellFormed(fs: seq<FlightRecord>, ids: seq<nat>, id: nat, key: Route)
    requires InBounds(fs, ids) && Ascending(fs, ids) && id < |fs| && RouteOf(fs[id]) == key
    requires forall k :: 0 <= k < |ids| ==> RouteOf(fs[ids[k]]) == key
    ensures var r := Insert(fs, ids, id);
      && Ascending(fs, r)
      && forall k :: 0 <= k < |r| ==> RouteOf(fs[r[k]]) == key
  {
    InsertAscending(fs, ids, id);
    var r := Insert(fs, ids, id);
    forall k | 0 <= k < |r|
      ensures RouteOf(fs[r[k]]) == key
    {
      assert r[k] in r;
      if r[k] != id {
        var j :| 0 <= j < |ids| && ids[j] == r[k];
      }
    }
  }

  /** The route of an added flight stays well formed. */
  lemma AddedRouteWellFormed(s: State, c: CatalogRecord)
    requires Inv(s) && AddFlight(s, c).Ok?
    ensures var key := Route(c.origin, c.destination);
      key in AddFlight(s, c).value.routes && RouteWellFormed(AddFlight(s, c).value, key)
  {
    var t := AddFlight(s, c).value;
    var key := Route(c.origin, c.destination);
    var id := |s.flights|;
    var fs := t.flights;
    assert fs == s.flights + [NewFlight(c.number, c.seats, c.price, c.origin, c.destination)];
    var ids := if key in s.routes then s.routes[key] else [];
    assert InBounds(fs, ids) && Ascending(fs, ids) && forall k :: 0 <= k < |ids| ==> RouteOf(fs[ids[k]]) == key by {
      if key in s.routes {
        assert RouteWellFormed(s, key);
        assert forall k :: 0 <= k < |s.flights| ==> fs[k] == s.flights[k];
      }
    }
    assert t.routes[key] == Insert(fs, ids, id);
    InsertedRouteWellFormed(fs, ids, id, key);
  }

  /** A route that an added flight leaves alone stays well formed. */
  lemma AddedOtherRoute(s: State, t: State, r: Route)
    requires Inv(s) && r in s.routes && r in t.routes && t.routes[r] == s.routes[r]
    requires |s.flights| <= |t.flights| && forall k :: 0 <= k < |s.flights| ==> t.flights[k] == s.flights[k]
    ensures RouteWellFormed(t, r)
  {
    assert RouteWellFormed(s, r);
    RouteCarried(s, t, r);
  }

  /** Every flight after an added one, old or new, is well formed. */
  lemma AddedFlightWellFormed(s: State, t: State, c: CatalogRecord, i: nat)
    requires Inv(s) && ValidAirportCode(c.origin) && ValidAirportCode(c.destination)
    requires t.flights == s.flights + [NewFlight(c.number, c.seats, c.price, c.origin, c.destination)]
    requires s.routes.Keys + {Route(c.origin, c.destination)} <= t.routes.Keys
    requires i < |t.flights|
    ensures FlightWellFormed(t, i)
  {
    if i < |s.flights| {
      assert FlightWellFormed(s, i);
      assert t.flights[i] == s.flights[i];
    } else {
      NewFlightConsistent(c.number, c.seats, c.price, c.origin, c.destination);
    }
  }

  /**
   * A state that appends a well-formed flight, keeps every other route
   * and registers at most the new flight's number keeps the invariant.
   */
  lemma AddedInv(s: State, t: State, c: CatalogRecord)
    requires Inv(s) && ValidAirportCode(c.origin) && ValidAirportCode(c.destination)
    requires t.flights == s.flights + [NewFlight(c.number, c.seats, c.price, c.origin, c.destination)]
    requires t.routes.Keys == s.routes.Keys + {Route(c.origin, c.destination)}
    requires forall r :: r in s.routes && r != Route(c.origin, c.destination) ==> t.routes[r] == s.routes[r]
    requires RouteWellFormed(t, Route(c.origin, c.destination))
    requires t.numbers == s.numbers || (c.number !in s.numbers && t.numbers == s.numbers[c.number := |s.flights|])
    ensures Inv(t)
  {
    assert forall k :: 0 <= k < |s.flights| ==> t.flights[k] == s.flights[k];
    forall r | r in t.routes
      ensures RouteWellFormed(t, r)
    {
      if r != Route(c.origin, c.destination) {
        AddedOtherRoute(s, t, r);
      }
    }
    forall i | 0 <= i < |t.flights|
      ensures FlightWellFormed(t, i)
    {
      AddedFlightWellFormed(s, t, c, i);
    }
  }

  /** Adding a catalog line keeps the invariant. */
  lemma {:induction false} AddFlightInv(s: State, c: CatalogRecord)
    requires Inv(s)
    ensures AddFlight(s, c).Ok? ==> Inv(AddFlight(s, c).value)
  {
    if AddFlight(s, c).Ok? {
      AddFlightEffect(s, c);
      AddedRouteWellFormed(s, c);
      AddedInv(s, AddFlight(s, c).value, c);
    }
  }

  /** Drawing a seat on one flight and booking the passenger there keeps the invariant. */
  lemma BookOnFlightInv(s: State, id: nat, rnd: RandomValue, p: Passenger)
    requires Inv(s) && id < |s.flights| && s.flights[id].Drawn(rnd).Ok?
    ensures Inv(BookedOn(s, id, s.flights[id].Drawn(rnd).value, p))
  {
    var f := s.flights[id];
    var d := f.Drawn(rnd).value;
    assert FlightWellFormed(s, id);
    DrawBookConsistent(f, rnd, p);
    UpdateFlightInv(s, id, d.after.Booked(ReservationItem(p, f.price, d.seat)));
  }

  /** A booking keeps the invariant. */
  lemma {:induction false} BookInv(s: State, name: string, origin: string, destination: string, rnd: RandomValue)
    requires Inv(s)
    ensures BookPassenger(s, name, origin, destination, rnd).Ok? ==> Inv(BookPassenger(s, name, origin, destination, rnd).value)
  {
    var found := RouteFlights(s.routes, origin, destination);
    if found.Ok? && found.value.Some? {
      var ids := found.value.value;
      assert RouteWellFormed(s, Route(origin, destination));
      var first := FirstNonFull(s.flights, ids);
      if first.Some? && s.flights[ids[first.value]].Drawn(rnd).Ok? {
        BookOnFlightInv(s, ids[first.value], rnd, Passenger(name));
      }
    }
  }

  /** After a price change, the repriced flight's route is strictly ascending by the new prices. */
  lemma RepricedRouteWellFormed(s: State, number: string, newPrice: int)
    requires Inv(s) && number in s.numbers
    ensures var t := ChangePrice(s, number, newPrice);
      var key := RouteOf(s.flights[s.numbers[number]]);
      key in t.routes && RouteWellFormed(t, key)
  {
    var id := s.numbers[number];
    var f := s.flights[id];
    var key := RouteOf(f);
    assert FlightWellFormed(s, id);
    assert RouteWellFormed(s, key);
    var ids := s.routes[key];
    var rest := RemoveByPrice(s.flights, ids, f.price);
    RemoveEffect(s.flights, ids, f.price);
    var fs := s.flights[id := f.Repriced(newPrice)];
    assert id !in rest;
    assert InBounds(fs, rest);
    assert Ascending(fs, rest) by {
      forall j, k | 0 <= j < k < |rest|
        ensures fs[rest[j]].price < fs[rest[k]].price
      {
        assert rest[j] in rest && rest[k] in rest;
      }
    }
    InsertAscending(fs, rest, id);
    var t := ChangePrice(s, number, newPrice);
    var nids := Insert(fs, rest, id);
    assert t.flights == fs && t.routes[key] == nids;
    forall k | 0 <= k < |nids|
      ensures RouteOf(fs[nids[k]]) == key
    {
      assert nids[k] in nids;
      if nids[k] != id {
        assert nids[k] in ids;
        var j :| 0 <= j < |ids| && ids[j] == nids[k];
      }
    }
  }

  /** A price change keeps the invariant. */
  lemma ChangePriceInv(s: State, number: string, newPrice: int)
    requires Inv(s)
    ensures Inv(ChangePrice(s, number, newPrice))
  {
    if number in s.numbers {
      var id := s.numbers[number];
      var f := s.flights[id];
      var key := RouteOf(f);
      assert FlightWellFormed(s, id);
      var t := ChangePrice(s, number, newPrice);
      assert t.flights == s.flights[id := f.Repriced(newPrice)];
      assert t.routes.Keys == s.routes.Keys && t.numbers == s.numbers;
      RepricedRouteWellFormed(s, number, newPrice);
      forall r | r in t.routes && r != key
        ensures RouteWellFormed(t, r)
      {
        assert RouteWellFormed(s, r);
        forall x | x in s.routes[r]
          ensures x != id
        {
          var j :| 0 <= j < |s.routes[r]| && s.routes[r][j] == x;
        }
        RouteCarried(s, t, r);
      }
      forall i | 0 <= i < |t.flights|
        ensures FlightWellFormed(t, i)
      {
        assert FlightWellFormed(s, i);
      }
    }
  }

  /** Cancelling a held reservation on one flight and recovering its seat keeps the invariant. */
  lemma CancelOnFlightInv(s: State, id: nat, p: Passenger)
    requires Inv(s) && id < |s.flights| && p in s.flights[id].ledger
    ensures Inv(CancelledOn(s, id, p))
  {
    var f := s.flights[id];
    assert FlightWellFormed(s, id);
    CancelRecoverConsistent(f, p);
    var c := f.Cancelled(f.ledger[p]);
    var g := c.SeatRecovered(f.ledger[p].seatNumber);
    assert g.number == f.number && g.price == f.price && g.origin == f.origin && g.destination == f.destination by {
      assert c.(ledger := f.ledger) == f;
      assert g.(pool := c.pool) == c;
    }
    UpdateFlightInv(s, id, g);
  }

  /** A cancellation keeps the invariant. */
  lemma CancelInv(s: State, name: string, origin: string, destination: string)
    requires Inv(s)
    ensures CancelPassenger(s, name, origin, destination).Ok? ==> Inv(CancelPassenger(s, name, origin, destination).value)
  {
    var key := Route(origin, destination);
    if ValidAirportCode(origin) && ValidAirportCode(destination) && key in s.routes {
      CancelFound(s, name, origin, destination);
      var p := Passenger(name);
      match LastHolder(s.flights, s.routes[key], p)
      case None =>
      case Some(id) => CancelOnFlightInv(s, id, p);
    }
  }

  /**
   * A transaction fails only with an invalid airport code or an empty
   * seat pool; a price change and an unrecognised kind never fail.
   */
  lemma ProcessTransactionErrors(s: State, tx: Transaction, rnd: RandomValue)
    requires Inv(s)
    ensures ProcessTransaction(s, tx, rnd).Err? ==>
      ProcessTransaction(s, tx, rnd).error in {InvalidAirportCode, IndexOutOfBounds}
    ensures (tx.Reprice? || tx.Unrecognised?) ==> ProcessTransaction(s, tx, rnd).Ok?
    ensures tx.Unrecognised? ==> ProcessTransaction(s, tx, rnd) == Ok(s)
    ensures tx.Cancel? && ProcessTransaction(s, tx, rnd).Err? ==> ProcessTransaction(s, tx, rnd).error == InvalidAirportCode
    ensures (tx.Book? || tx.Cancel?) && !(ValidAirportCode(tx.origin) && ValidAirportCode(tx.destination)) ==>
      ProcessTransaction(s, tx, rnd) == Err(InvalidAirportCode)
  {
    match tx
    case Book(name, origin, destination) => BookEffect(s, name, origin, destination, rnd);
    case Reprice(_, _) =>
    case Cancel(name, origin, destination) => CancelEffect(s, name, origin, destination);
    case Unrecognised(_) =>
  }

  /** Every transaction keeps the invariant. */
  lemma ProcessTransactionInv(s: State, tx: Transaction, rnd: RandomValue)
    requires Inv(s)
    ensures ProcessTransaction(s, tx, rnd).Ok? ==> Inv(ProcessTransaction(s, tx, rnd).value)
  {
    match tx
    case Book(name, origin, destination) => BookInv(s, name, origin, destination, rnd);
    case Reprice(number, newPrice) => ChangePriceInv(s, number, newPrice);
    case Cancel(name, origin, destination) => CancelInv(s, name, origin, destination);
    case Unrecognised(_) =>
  }

  // ---------------------------------------------------------------------
  // A run of transactions
  // ---------------------------------------------------------------------

  /**
   * A run splits at any point: once a prefix of the transactions has
   * stopped, the whole run stops there with the same state and error and
   * nothing after it is applied; otherwise the rest of the run starts from
   * the state the prefix reached.
   */
  lemma {:induction false} RunSplit(s: State, txs: seq<Transaction>, rnds: seq<RandomValue>, i: nat)
    requires Inv(s) && |rnds| == |txs| && i <= |txs|
    ensures var p := RunTransactions(s, txs[..i], rnds[..i]);
      && (p.failure.Some? ==> RunTransactions(s, txs, rnds) == p)
      && (p.failure.None? ==> RunTransactions(s, txs, rnds) == RunTransactions(p.state, txs[i..], rnds[i..]))
    decreases i
  {
    if i == 0 {
      assert txs[..0] == [] && rnds[..0] == [];
      assert txs[0..] == txs && rnds[0..] == rnds;
    } else {
      ProcessTransactionInv(s, txs[0], rnds[0]);
      assert txs[..i][0] == txs[0] && rnds[..i][0] == rnds[0];
      match ProcessTransaction(s, txs[0], rnds[0])
      case Err(e) =>
      case Ok(t) =>
        assert txs[..i][1..] == txs[1..][..i - 1] && rnds[..i][1..] == rnds[1..][..i - 1];
        assert txs[1..][i - 1..] == txs[i..] && rnds[1..][i - 1..] == rnds[i..];
        RunSplit(t, txs[1..], rnds[1..], i - 1);
    }
  }

  /**
   * The run stops at the first transaction that throws: the outcome is the
   * state reached just before it, with its error, and the transactions
   * after it are not applied.
   */
  lemma {:induction false} RunStopsAtFailure(s: State, txs: seq<Transaction>, rnds: seq<RandomValue>, i: nat)
    requires Inv(s) && |rnds| == |txs| && i < |txs|
    requires RunTransactions(s, txs[..i], rnds[..i]).failure.None?
    requires ProcessTransaction(RunTransactions(s, txs[..i], rnds[..i]).state, txs[i], rnds[i]).Err?
    ensures var p := RunTransactions(s, txs[..i], rnds[..i]);
      RunTransactions(s, txs, rnds) == Outcome(p.state, Some(ProcessTransaction(p.state, txs[i], rnds[i]).error))
    decreases i
  {
    if i == 0 {
      assert txs[..0] == [] && rnds[..0] == [];
    } else {
      ProcessTransactionInv(s, txs[0], rnds[0]);
      assert txs[..i][0] == txs[0] && rnds[..i][0] == rnds[0];
      match ProcessTransaction(s, txs[0], rnds[0])
      case Err(e) =>
      case Ok(t) =>
        assert txs[..i][1..] == txs[1..][..i - 1] && rnds[..i][1..] == rnds[1..][..i - 1];
        assert txs[1..][i - 1] == txs[i] && rnds[1..][i - 1] == rnds[i];
        RunStopsAtFailure(t, txs[1..], rnds[1..], i - 1);
    }
  }

  /**
   * A booking or cancellation with an invalid airport code aborts the
   * batch: the run ends with the state before it and the invalid-code
   * error, whatever follows it.
   */
  lemma {:induction false} InvalidCodeAborts(s: State, txs: seq<Transaction>, rnds: seq<RandomValue>, i: nat)
    requires Inv(s) && |rnds| == |txs| && i < |txs|
    requires RunTransactions(s, txs[..i], rnds[..i]).failure.None?
    requires txs[i].Book? || txs[i].Cancel?
    requires !(ValidAirportCode(txs[i].origin) && ValidAirportCode(txs[i].destination))
    ensures RunTransactions(s, txs, rnds) == Outcome(RunTransactions(s, txs[..i], rnds[..i]).state, Some(InvalidAirportCode))
    decreases i
  {
    if i == 0 {
      assert txs[..0] == [] && rnds[..0] == [];
      ProcessTransactionErrors(s, txs[0], rnds[0]);
    } else {
      ProcessTransactionInv(s, txs[0], rnds[0]);
      assert txs[..i][0] == txs[0] && rnds[..i][0] == rnds[0];
      match ProcessTransaction(s, txs[0], rnds[0])
      case Err(e) =>
      case Ok(t) =>
        assert txs[..i][1..] == txs[1..][..i - 1] && rnds[..i][1..] == rnds[1..][..i - 1];
        assert txs[1..][i - 1] == txs[i];
        InvalidCodeAborts(t, txs[1..], rnds[1..], i - 1);
    }
  }

  // ---------------------------------------------------------------------
  // Reading a transaction record
  // ---------------------------------------------------------------------

  /** The kind a transaction was dispatched as; None for an unrecognised one. */
  function KindOf(tx: Transaction): Option<TransactionTypes.TransactionType>
  {
    match tx
    case Book(_, _, _) => Some(TransactionTypes.BookPassenger)
    case Reprice(_, _) => Some(TransactionTypes.ChangePrice)
    case Cancel(_, _, _) => Some(TransactionTypes.CancelPassenger)
    case Unrecognised(_) => None
  }

  /** How many fields after the kind string each handler reads. */
  function FieldCount(t: TransactionTypes.TransactionType): nat
  {
    match t
    case BookPassenger => 3
    case ChangePrice => 2
    case CancelPassenger => 3
  }

  /**
   * processTransaction on a split record: the kind string goes through the
   * dispatch chain, then the chosen handler reads the fields after it by
   * position (a passenger name and two airport codes, or a flight number
   * and the price). The price's text is converted outside this model and
   * arrives as newPrice. A record too short for its kind throws; a record
   * of no kind is Unrecognised, whatever its fields.
   */
  function DecodeTransaction(operation: string, fields: seq<string>, newPrice: int): (r: Result<Transaction>)
    ensures r.Ok? ==> KindOf(r.value) == TransactionTypes.Classify(operation)
    ensures r.Err? <==> TransactionTypes.Classify(operation).Some? && |fields| < FieldCount(TransactionTypes.Classify(operation).value)
    ensures r.Err? ==> r.error == MissingField
    ensures r.Ok? && r.value.Unrecognised? ==> r.value.kind == operation
    ensures r.Ok? && (r.value.Book? || r.value.Cancel?) ==>
      [r.value.passengerName, r.value.origin, r.value.destination] == fields[..3]
    ensures r.Ok? && r.value.Reprice? ==> r.value.flightNumber == fields[0] && r.value.newPrice == newPrice
  {
    match TransactionTypes.Classify(operation)
    case None => Ok(Unrecognised(operation))
    case Some(t) =>
      if |fields| < FieldCount(t) then Err(MissingField)
      else
        match t
        case BookPassenger => Ok(Book(fields[0], fields[1], fields[2]))
        case ChangePrice => Ok(Reprice(fields[0], newPrice))
        case CancelPassenger => Ok(Cancel(fields[0], fields[1], fields[2]))
  }

  /**
   * The record a recognised transaction is read from: its kind's name and
   * its fields in the handler's order (a price change's price text is any
   * string, since its conversion is not modelled).
   */
  function Fields(tx: Transaction, priceText: string): seq<string>
  {
    match tx
    case Book(name, origin, destination) => [name, origin, destination]
    case Reprice(number, _) => [number, priceText]
    case Cancel(name, origin, destination) => [name, origin, destination]
    case Unrecognised(_) => []
  }

  /**
   * Reading is the inverse of writing a record: every recognised
   * transaction is read back from its kind's name and its fields, and a
   * kind string is read as an unrecognised transaction exactly when it
   * names no kind.
   */
  lemma DecodeRoundTrip(tx: Transaction, priceText: string)
    ensures KindOf(tx).Some? ==>
      DecodeTransaction(TransactionTypes.Name(KindOf(tx).value), Fields(tx, priceText),
        if tx.Reprice? then tx.newPrice else 0) == Ok(tx)
    ensures tx.Unrecognised? ==>
      (DecodeTransaction(tx.kind, [], 0) == Ok(tx) <==> TransactionTypes.Classify(tx.kind).None?)
  {
    if KindOf(tx).Some? {
      TransactionTypes.ClassifyName(KindOf(tx).value);
    }
  }
}
