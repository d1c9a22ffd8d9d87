/**
 * One flight: its fixed identity and capacity, its current price, its
 * booking ledger (passenger to reservation) and its pool of free seat
 * numbers. FlightRecord is the value a flight holds at one moment and
 * defines what every operation does; the class Flight holds the same
 * fields and updates them in place.
 */
module Flights {
  import opened Results
  import opened Passengers
  import opened Reservations
  import opened Summaries
  import Sums

  // ---------------------------------------------------------------------
  // The random seat choice
  // ---------------------------------------------------------------------

  /** A non-negative fraction num/den. */
  datatype Fraction = Fraction(num: nat, den: nat)

  /** A value Math.random() may return: a fraction in [0, 1), taken exactly. */
  type RandomValue = f: Fraction | f.num < f.den witness Fraction(0, 1)

  /** Java's (int) cast of the real number a/b: the quotient truncated toward zero. */
  function TruncDiv(a: int, b: int): int
    requires b > 0
  {
    if a >= 0 then a / b else -((-a) / b)
  }

  /** generateRandomNumber(max, min): min + (int)(Math.random() * ((max - min) + 1)). */
  function RandomNumber(max: int, min: int, r: RandomValue): int
  {
    min + TruncDiv(r.num * ((max - min) + 1), r.den)
  }

  /**
   * The pool position generateRandomSeatNumber asks for. The call passes
   * max = 0 and min = size - 1, the two bounds the other way round.
   */
  function SeatIndex(size: int, r: RandomValue): int
  {
    RandomNumber(0, size - 1, r)
  }

  /** num * m / den stays strictly below m when num < den and m > 0. */
  lemma {:induction false} ScaledFractionBelow(num: nat, den: nat, m: nat)
    requires num < den && m > 0
    ensures (num * m) / den < m
  {
    var q := (num * m) / den;
    assert q * den <= num * m < m * den;
    assert (m - q) * den == m * den - q * den;
    assert (m - q) * den > 0;
  }

  /** The product of a non-negative count and a negated count, written as a negation. */
  lemma NegatedProduct(n: int, m: int)
    ensures n * -m == -(n * m)
  {
  }

  /** With three or more seats, the swapped bounds give a position in 2..size-1. */
  lemma {:induction false} SeatIndexLongPool(size: int, r: RandomValue)
    requires size >= 3
    ensures 2 <= SeatIndex(size, r) < size
  {
    var m: nat := size - 2;
    assert (0 - (size - 1)) + 1 == -(m as int);
    NegatedProduct(r.num, m);
    ScaledFractionBelow(r.num, r.den, m);
    var q := (r.num * m) / r.den;
    assert TruncDiv(-(r.num * m), r.den) == -q;
  }

  /**
   * Whatever Math.random() returns, a non-empty pool is never indexed out of
   * bounds; but the swapped bounds make the choice skewed: a two-seat pool
   * always gives up its second seat, and a longer pool never gives up the
   * seats at its first two positions.
   */
  lemma {:induction false} SeatIndexInPool(size: int, r: RandomValue)
    requires size >= 1
    ensures 0 <= SeatIndex(size, r) < size
    ensures size == 1 ==> SeatIndex(size, r) == 0
    ensures size == 2 ==> SeatIndex(size, r) == 1
    ensures size >= 3 ==> SeatIndex(size, r) >= 2
  {
    if size == 1 {
      assert r.num * 1 == r.num;
      assert r.num / r.den == 0;
    } else if size == 2 {
      assert r.num * 0 == 0;
    } else {
      SeatIndexLongPool(size, r);
    }
  }

  // ---------------------------------------------------------------------
  // The flight as a value
  // ---------------------------------------------------------------------

  /** The seat numbers 1, 2, ..., n in ascending order; empty when n is not positive. */
  function SeatRange(n: int): (r: seq<int>)
    ensures |r| == if n < 0 then 0 else n
    ensures forall i :: 0 <= i < |r| ==> r[i] == i + 1
    decreases if n < 0 then 0 else n
  {
    if n <= 0 then [] else SeatRange(n - 1) + [n]
  }

  /** The result of taking a seat from the pool: the position, the seat and the flight afterwards. */
  datatype Draw = Draw(index: nat, seat: int, after: FlightRecord)

  datatype FlightRecord = FlightRecord(
    number: string,
    seats: int,
    price: int,
    origin: string,
    destination: string,
    ledger: map<Passenger, ReservationItem>,
    pool: seq<int>)
  {
    /** isFull: the ledger holds as many reservations as the flight has seats; the pool plays no part. */
    predicate IsFull()
    {
      |ledger| == seats
    }

    /** getAvailableSeats: seats minus reservations; the pool plays no part. */
    function AvailableSeats(): int
    {
      seats - |ledger|
    }

    /** getReservationByPassenger: the passenger's reservation, or None (null) if there is none. */
    function ReservationOf(p: Passenger): (r: Option<ReservationItem>)
      ensures r.Some? <==> p in ledger
      ensures r.Some? ==> r.value == ledger[p]
    {
      if p in ledger then Some(ledger[p]) else None
    }

    /** compareTo: flights are ordered by current price and by nothing else. */
    function CompareTo(other: FlightRecord): (c: int)
      ensures c < 0 <==> price < other.price
      ensures c == 0 <==> price == other.price
      ensures c > 0 <==> price > other.price
    {
      price - other.price
    }

    /**
     * bookPassenger: a passenger who already holds a reservation keeps it
     * and nothing changes; otherwise the item is entered under its
     * passenger and every other entry stays as it was.
     */
    function Booked(item: ReservationItem): (f: FlightRecord)
      ensures f.(ledger := ledger) == this
      ensures item.passenger in f.ledger
      ensures f.ledger[item.passenger] == if item.passenger in ledger then ledger[item.passenger] else item
      ensures forall q :: q != item.passenger ==> (q in f.ledger <==> q in ledger)
      ensures forall q :: q != item.passenger && q in ledger ==> f.ledger[q] == ledger[q]
      ensures f.AvailableSeats() == AvailableSeats() - (if item.passenger in ledger then 0 else 1)
    {
      if item.passenger in ledger then this
      else this.(ledger := ledger[item.passenger := item])
    }

    /**
     * cancelPassenger: the entry of the item's passenger goes, if there is
     * one; every other entry and the seat pool stay as they were.
     */
    function Cancelled(item: ReservationItem): (f: FlightRecord)
      ensures f.(ledger := ledger) == this
      ensures item.passenger !in f.ledger
      ensures forall q :: q != item.passenger ==> (q in f.ledger <==> q in ledger)
      ensures forall q :: q in f.ledger ==> f.ledger[q] == ledger[q]
      ensures f.AvailableSeats() == AvailableSeats() + (if item.passenger in ledger then 1 else 0)
    {
      this.(ledger := ledger - {item.passenger})
    }

    /** recoverSeat: the seat goes to the end of the pool, even when the pool already holds it. */
    function SeatRecovered(seat: int): (f: FlightRecord)
      ensures f.(pool := pool) == this
      ensures |f.pool| == |pool| + 1 && f.pool[..|pool|] == pool && f.pool[|pool|] == seat
      ensures multiset(f.pool) == multiset(pool) + multiset{seat}
    {
      this.(pool := pool + [seat])
    }

    /** changePrice: only the current price changes; the prices stored in the ledger do not. */
    function Repriced(newPrice: int): (f: FlightRecord)
      ensures f.price == newPrice && f.(price := price) == this
      ensures f.Revenue() == Revenue()
    {
      this.(price := newPrice)
    }

    /**
     * generateRandomSeatNumber: removes the seat at the drawn position.
     * It fails exactly when the pool is empty; otherwise the seat comes
     * from the pool, exactly one occurrence of it is removed, and nothing
     * else changes.
     */
    function Drawn(r: RandomValue): (d: Result<Draw>)
      ensures d.Ok? <==> |pool| > 0
      ensures d.Err? ==> d.error == IndexOutOfBounds
      ensures d.Ok? ==> d.value.index < |pool| && d.value.seat == pool[d.value.index]
      ensures d.Ok? ==> d.value.after == this.(pool := pool[..d.value.index] + pool[d.value.index + 1..])
      ensures d.Ok? ==> multiset(d.value.after.pool) + multiset{d.value.seat} == multiset(pool)
    {
      var i := SeatIndex(|pool|, r);
      if 0 <= i < |pool| then
        assert pool == pool[..i] + [pool[i]] + pool[i + 1..];
        Ok(Draw(i, pool[i], this.(pool := pool[..i] + pool[i + 1..])))
      else
        if |pool| > 0 then SeatIndexInPool(|pool|, r); Err(IndexOutOfBounds)
        else Err(IndexOutOfBounds)
    }

    /** The locked-in prices of the ledger, by passenger. */
    function Prices(): map<Passenger, int>
    {
      map p | p in ledger :: ledger[p].price
    }

    /** The revenue of the flight: the sum of the prices stored in its ledger. */
    ghost function Revenue(): int
    {
      Sums.MapSum(Prices())
    }

    /** The numbers of summaryFlight. */
    ghost function Summary(): FlightSummary
    {
      FlightSummary(number, AvailableSeats(), |ledger|, Revenue())
    }

    /**
     * Seat conservation: every ledger entry is filed under its own
     * passenger; pool seats are distinct and lie in 1..seats; every
     * reserved seat lies in 1..seats, is not in the pool and belongs to
     * one passenger only; and pool and ledger together use no more seats
     * than the flight has.
     */
    ghost predicate SeatsConsistent()
    {
      && (forall p :: p in ledger ==> ledger[p].passenger == p)
      && (forall i, j :: 0 <= i < j < |pool| ==> pool[i] != pool[j])
      && (forall i :: 0 <= i < |pool| ==> 1 <= pool[i] <= seats)
      && (forall p :: p in ledger ==> 1 <= ledger[p].seatNumber <= seats && ledger[p].seatNumber !in pool)
      && (forall p, q :: p in ledger && q in ledger && p != q ==> ledger[p].seatNumber != ledger[q].seatNumber)
      && |pool| + |ledger| <= (if seats < 0 then 0 else seats)
    }
  }

  /** A flight as the builder creates it: no reservations and the pool [1, 2, ..., seats]. */
  function NewFlight(number: string, seats: int, price: int, origin: string, destination: string): FlightRecord
  {
    FlightRecord(number, seats, price, origin, destination, map[], SeatRange(seats))
  }

  // ---------------------------------------------------------------------
  // Properties of the value operations
  // ---------------------------------------------------------------------

  /** A new flight is empty, has its whole capacity available and satisfies seat conservation. */
  lemma NewFlightConsistent(number: string, seats: int, price: int, origin: string, destination: string)
    ensures var f := NewFlight(number, seats, price, origin, destination);
      f.SeatsConsistent() && f.ledger == map[] && f.AvailableSeats() == seats && f.price == price
  {
  }

  /**
   * A flight is full exactly when no seat is available, and neither
   * isFull nor getAvailableSeats looks at the seat pool.
   */
  lemma FullnessIgnoresPool(f: FlightRecord, pool: seq<int>)
    ensures f.IsFull() <==> f.AvailableSeats() == 0
    ensures f.(pool := pool).IsFull() == f.IsFull()
    ensures f.(pool := pool).AvailableSeats() == f.AvailableSeats()
  {
  }

  /** Booking the same passenger again leaves the flight exactly as the first booking left it. */
  lemma BookedIdempotent(f: FlightRecord, first: ReservationItem, second: ReservationItem)
    requires second.passenger == first.passenger
    ensures f.Booked(first).Booked(second) == f.Booked(first)
  {
  }

  /** Booking a new passenger adds the item's price to the revenue; rebooking adds nothing. */
  lemma {:induction false} RevenueBooked(f: FlightRecord, item: ReservationItem)
    ensures f.Booked(item).Revenue() == f.Revenue() + (if item.passenger in f.ledger then 0 else item.price)
  {
    var p := item.passenger;
    if p !in f.ledger {
      var after := f.Booked(item).Prices();
      Sums.MapSumPick(after, p);
      assert after - {p} == f.Prices();
    }
  }

  /** Cancelling a held reservation takes its locked-in price off the revenue. */
  lemma {:induction false} RevenueCancelled(f: FlightRecord, item: ReservationItem)
    ensures f.Cancelled(item).Revenue() == f.Revenue() - (if item.passenger in f.ledger then f.ledger[item.passenger].price else 0)
  {
    var p := item.passenger;
    if p in f.ledger {
      PricesCancelled(f, item);
      Sums.MapSumPick(f.Prices(), p);
    } else {
      assert f.Cancelled(item) == f;
    }
  }

  /** Cancelling a held reservation takes exactly its entry out of the locked-in prices. */
  lemma PricesCancelled(f: FlightRecord, item: ReservationItem)
    requires item.passenger in f.ledger
    ensures item.passenger in f.Prices() && f.Prices()[item.passenger] == f.ledger[item.passenger].price
    ensures f.Cancelled(item).Prices() == f.Prices() - {item.passenger}
  {
    var g := f.Cancelled(item);
    assert g.ledger == f.ledger - {item.passenger};
  }

  /** Taking out position i of a sequence without repeats leaves a sequence without repeats that lacks s[i]. */
  lemma {:induction false} RemoveAtDistinct(s: seq<int>, i: nat)
    requires i < |s|
    requires forall a, b :: 0 <= a < b < |s| ==> s[a] != s[b]
    ensures var rest := s[..i] + s[i + 1..];
      && (forall a, b :: 0 <= a < b < |rest| ==> rest[a] != rest[b])
      && (forall x :: x in rest ==> x in s && x != s[i])
  {
    var rest := s[..i] + s[i + 1..];
    assert forall k :: 0 <= k < |rest| ==> rest[k] == if k < i then s[k] else s[k + 1];
    forall a, b | 0 <= a < b < |rest|
      ensures rest[a] != rest[b]
    {
      var a' := if a < i then a else a + 1;
      var b' := if b < i then b else b + 1;
      assert rest[a] == s[a'] && rest[b] == s[b'] && a' < b';
    }
    forall x | x in rest
      ensures x in s && x != s[i]
    {
      var k :| 0 <= k < |rest| && rest[k] == x;
      var k' := if k < i then k else k + 1;
      assert s[k'] == x && k' != i;
    }
  }

  /**
   * Drawing a seat keeps seat conservation, and the drawn seat is a seat of
   * the flight that is neither left in the pool nor held by anyone.
   */
  lemma {:induction false} DrawnConsistent(f: FlightRecord, r: RandomValue)
    requires f.SeatsConsistent() && f.Drawn(r).Ok?
    ensures var d := f.Drawn(r).value;
      && d.after.SeatsConsistent()
      && d.after.ledger == f.ledger
      && 1 <= d.seat <= f.seats
      && d.seat !in d.after.pool
      && (forall q :: q in f.ledger ==> f.ledger[q].seatNumber != d.seat)
      && |d.after.pool| + |f.ledger| + 1 <= f.seats
  {
    var d := f.Drawn(r).value;
    RemoveAtDistinct(f.pool, d.index);
    assert d.seat in f.pool;
  }

  /** Booking a seat of the flight that is free and not in the pool keeps seat conservation. */
  lemma BookFreeSeatConsistent(g: FlightRecord, item: ReservationItem)
    requires g.SeatsConsistent()
    requires 1 <= item.seatNumber <= g.seats && item.seatNumber !in g.pool
    requires forall q :: q in g.ledger ==> g.ledger[q].seatNumber != item.seatNumber
    requires |g.pool| + |g.ledger| + 1 <= g.seats
    ensures g.Booked(item).SeatsConsistent()
  {
    var h := g.Booked(item);
    if item.passenger !in g.ledger {
      assert h.ledger == g.ledger[item.passenger := item];
      assert h.pool == g.pool;
    }
  }

  /**
   * Drawing a seat and booking with it keeps seat conservation, whether or
   * not the passenger already held a reservation.
   */
  lemma DrawBookConsistent(f: FlightRecord, r: RandomValue, p: Passenger)
    requires f.SeatsConsistent() && f.Drawn(r).Ok?
    ensures var d := f.Drawn(r).value;
      d.after.Booked(ReservationItem(p, f.price, d.seat)).SeatsConsistent()
  {
    DrawnConsistent(f, r);
    var d := f.Drawn(r).value;
    BookFreeSeatConsistent(d.after, ReservationItem(p, f.price, d.seat));
  }

  /** Dropping a reservation keeps seat conservation. */
  lemma CancelledConsistent(f: FlightRecord, item: ReservationItem)
    requires f.SeatsConsistent()
    ensures f.Cancelled(item).SeatsConsistent()
  {
    LedgerWithout(f.ledger, item.passenger);
    FewerReservationsConsistent(f, f.Cancelled(item));
  }

  /** A flight that keeps only some of another's reservations, and nothing else different, conserves seats too. */
  lemma FewerReservationsConsistent(f: FlightRecord, g: FlightRecord)
    requires f.SeatsConsistent() && g.(ledger := f.ledger) == f && |g.ledger| <= |f.ledger|
    requires forall q :: q in g.ledger ==> q in f.ledger && g.ledger[q] == f.ledger[q]
    ensures g.SeatsConsistent()
  {
    assert g.pool == f.pool && g.seats == f.seats;
  }

  /** A ledger without one passenger's entry is one entry shorter if it had one. */
  lemma LedgerWithout(m: map<Passenger, ReservationItem>, p: Passenger)
    ensures |m - {p}| == if p in m then |m| - 1 else |m|
  {
    if p in m {
      assert (m - {p}).Keys == m.Keys - {p};
    } else {
      assert m - {p} == m;
    }
  }

  /** Putting back a seat of the flight that is free and not in the pool keeps seat conservation. */
  lemma RecoverFreeSeatConsistent(g: FlightRecord, seat: int)
    requires g.SeatsConsistent()
    requires 1 <= seat <= g.seats && seat !in g.pool
    requires forall q :: q in g.ledger ==> g.ledger[q].seatNumber != seat
    requires |g.pool| + |g.ledger| + 1 <= g.seats
    ensures g.SeatRecovered(seat).SeatsConsistent()
  {
    var h := g.SeatRecovered(seat);
    assert forall x :: x in h.pool ==> x in g.pool || x == seat;
  }

  /** Cancelling a held reservation and recovering its seat keeps seat conservation. */
  lemma CancelRecoverConsistent(f: FlightRecord, p: Passenger)
    requires f.SeatsConsistent() && p in f.ledger
    ensures var item := f.ledger[p];
      f.Cancelled(item).SeatRecovered(item.seatNumber).SeatsConsistent()
  {
    var item := f.ledger[p];
    var g := f.Cancelled(item);
    CancelledConsistent(f, item);
    assert g.ledger == f.ledger - {p};
    assert |g.ledger| == |f.ledger| - 1;
    RecoverFreeSeatConsistent(g, item.seatNumber);
  }

  // ---------------------------------------------------------------------
  // The flight object
  // ---------------------------------------------------------------------

  class Flight {
    const flightNumber: string
    const numberOfSeats: int
    var pricePerSeat: int
    const originCode: string
    const destinationCode: string
    var reservationMap: map<Passenger, ReservationItem>
    var seatsPool: seq<int>

    /** The flight's fields as a value. */
    function Model(): FlightRecord
      reads this
    {
      FlightRecord(flightNumber, numberOfSeats, pricePerSeat, originCode, destinationCode, reservationMap, seatsPool)
    }

    /** The builder's build(): an empty ledger and the pool filled with 1..numberOfSeats in order. */
    constructor (number: string, seats: int, price: int, origin: string, destination: string)
      ensures Model() == NewFlight(number, seats, price, origin, destination)
    {
      flightNumber := number;
      numberOfSeats := seats;
      pricePerSeat := price;
      originCode := origin;
      destinationCode := destination;
      reservationMap := map[];
      seatsPool := [];
      new;
      var i := 1;
      while i <= numberOfSeats
        invariant 1 <= i <= (if numberOfSeats < 0 then 0 else numberOfSeats) + 1
        invariant seatsPool == SeatRange(i - 1)
        invariant reservationMap == map[] && pricePerSeat == price
      {
        seatsPool := seatsPool + [i];
        i := i + 1;
      }
    }

    method BookPassenger(item: ReservationItem)
      modifies this
      ensures Model() == old(Model()).Booked(item)
    {
      if item.passenger in reservationMap {
        return;
      }
      reservationMap := reservationMap[item.passenger := item];
    }

    method GenerateRandomSeatNumber(r: RandomValue) returns (res: Result<int>)
      modifies this
      ensures match old(Model()).Drawn(r)
        case Ok(d) => res == Ok(d.seat) && Model() == d.after
        case Err(e) => res == Err(e) && Model() == old(Model())
    {
      var index := SeatIndex(|seatsPool|, r);
      if index < 0 || index >= |seatsPool| {
        return Err(IndexOutOfBounds);
      }
      res := Ok(seatsPool[index]);
      seatsPool := seatsPool[..index] + seatsPool[index + 1..];
    }

    method RecoverSeat(seatNumber: int)
      modifies this
      ensures Model() == old(Model()).SeatRecovered(seatNumber)
    {
      seatsPool := seatsPool + [seatNumber];
    }

    method ChangePrice(newPrice: int)
      modifies this
      ensures Model() == old(Model()).Repriced(newPrice)
    {
      pricePerSeat := newPrice;
    }

    method CancelPassenger(item: ReservationItem)
      modifies this
      ensures Model() == old(Model()).Cancelled(item)
    {
      var passenger := item.passenger;
      if passenger in reservationMap {
        reservationMap := reservationMap - {passenger};
      }
    }

    /**
     * summaryFlight: seats sold is the ledger size, seats available is the
     * capacity minus that, and the revenue is accumulated entry by entry
     * from the locked-in prices, in the ledger's iteration order.
     */
    method SummaryFlight() returns (s: FlightSummary)
      ensures s == Model().Summary()
      ensures s.soldSeats == |reservationMap| && s.availableSeats == numberOfSeats - s.soldSeats
    {
      var totalRevenue := 0;
      var remaining := reservationMap.Keys;
      ghost var prices := Model().Prices();
      ghost var rest := prices;
      while remaining != {}
        invariant remaining == rest.Keys && remaining <= reservationMap.Keys
        invariant forall p :: p in rest ==> rest[p] == reservationMap[p].price
        invariant totalRevenue + Sums.MapSum(rest) == Sums.MapSum(prices)
        decreases remaining
      {
        var passenger :| passenger in remaining;
        Sums.MapSumPick(rest, passenger);
        totalRevenue := totalRevenue + reservationMap[passenger].price;
        remaining := remaining - {passenger};
        rest := rest - {passenger};
      }
      s := FlightSummary(flightNumber, numberOfSeats - |reservationMap|, |reservationMap|, totalRevenue);
    }
  }
}
