# Airline reservation engine in Dafny

This project models the in-memory core of a small airline reservation
system:

- **Flight catalog.** The catalog registers flights. Each flight has a number, a seat count, a price per seat and an origin and destination airport code.
- **Route index.** Each route key (an ordered origin/destination pair of three-letter codes) maps to that route's flights, ordered by price.
- **Number index.** Flight numbers map to flights; the first flight registered under a number is kept.
- **Transactions.** A stream of transactions books passengers, changes prices and cancels passengers.
- **Totals.** The end-of-run report adds up seats sold and revenue over the registered flights.

Each flight keeps a ledger and a seat pool:

- The ledger maps a passenger to a reservation (passenger, locked-in price, seat number).
- The seat pool lists the free seat numbers, initially `1..N` in order.

## Layout

The model is in three layers:

- **Values.** `Flights.FlightRecord` is a flight at one moment. `Engine.State` is the whole system at one moment. Each operation is a function on these values, and the properties are proved as lemmas about those functions.
- **Objects.** `Flights.Flight` and `ReservationSystem.FlightReservationSystem` are classes with the original's fields, updated in place.
  - Every mutating method is proved against the value function: its `ensures` says the object's `Model()` after the call is that function applied to `old(Model())`.
  - The loops of the original (pool initialisation, revenue accumulation, the booking scan, the cancellation scan, the totals) are `while` loops with invariants.
- **Aliasing.** The original keeps the same flight objects in two maps. Here all flights live in one list, and both indexes store a flight's position in that list (its id).

| file | module | models |
|---|---|---|
| results.dfy | Results | the exceptions that abort a run, and `Option`/`Result` |
| passenger.dfy | Passengers | `Passenger` |
| reservation_item.dfy | Reservations | `ReservationItem` |
| flight_summary.dfy | Summaries | `FlightSummary` |
| transaction_type.dfy | TransactionTypes | `TransactionTypeEnum` and the dispatch chain |
| route.dfy | Routes | `OriginDestinationPair` |
| sums.dfy | Sums | sums over a hash map's values, independent of iteration order |
| flight.dfy | Flights | `Flight`: seat draw, ledger, pool, summary, ordering |
| route_index.dfy | RouteIndex | the price-ordered `TreeSet<Flight>` of a route |
| engine.dfy | Engine | `FlightReservationSystem` as a state-to-state function, and its invariant |
| reservation_system.dfy | ReservationSystem | `FlightReservationSystem` as a class |
| scenarios.dfy | Scenarios | the engine's unit-test scenarios |

**The engine invariant `Engine.Inv`** has three parts:

- Every route lists, in strictly ascending order of current price, only flights of that route.
- Every flight has valid codes, its route is indexed, and its seats are conserved (`FlightRecord.SeatsConsistent`). Seat conservation means:
  - reserved seats and pool seats are distinct seats in `1..N`;
  - a reserved seat is never in the pool;
  - pool and ledger together use at most `N` seats.
- Every registered number names a flight with that number.

Every handler, the catalog load and the transaction run keep `Inv`.

## Model

| member | source | states |
|---|---|---|
| Passengers.NewPassenger | src/Passenger.java:13-18 | construction fails exactly on a missing name, with the null-name error; any present name, the empty one included, is kept unchanged |
| Routes.NewRoute | src/OriginDestinationPair.java:27-34 | construction succeeds exactly when both codes are valid, storing them unchanged; otherwise it fails with the invalid-airport-code error |
| Routes.RouteEquality | src/OriginDestinationPair.java:73-83 | two keys are equal iff origins and destinations are equal; a route differs from its reverse when its codes differ |
| TransactionTypes.Classify | src/FlightReservationSystem.java:158-167 | a recognised kind string is exactly the name of the kind it selects; an unrecognised one is the name of no kind |
| TransactionTypes.ClassifyName | src/TransactionTypeEnum.java:12-14 | the three names are pairwise distinct, so each name selects its own kind and only one dispatch branch can fire |
| Flights.SeatIndexLongPool | src/Flight.java:175-177 | with the swapped bounds, a pool of three or more seats is asked for a position in `2..size-1` whatever `Math.random()` returns |
| Flights.SeatIndexInPool | src/Flight.java:146-148 | a non-empty pool is never indexed out of bounds; a one-seat pool gives position 0, a two-seat pool always position 1, a longer pool never positions 0 or 1 |
| Flights.SeatRange | src/Flight.java:68-71 | the initial pool has one entry per seat and entry `i` is seat `i + 1` |
| Flights.FlightRecord.ReservationOf | src/Flight.java:138-140 | a reservation is returned exactly when the passenger is in the ledger, and it is the ledger's entry |
| Flights.FlightRecord.CompareTo | src/Flight.java:319-321 | the comparison's sign is the sign of the price difference: flights are ordered by price alone |
| Flights.FlightRecord.Booked | src/Flight.java:118-124 | a passenger already in the ledger keeps the old reservation; otherwise exactly that entry is added; other entries, the pool and the price are unchanged; available seats drop by one only for a new passenger |
| Flights.FlightRecord.Cancelled | src/Flight.java:191-196 | the passenger's entry is gone, other entries are kept, the pool is untouched; available seats rise by one only if the passenger was booked |
| Flights.FlightRecord.SeatRecovered | src/Flight.java:157-159 | the seat is appended to the pool, as one more occurrence even if already there; nothing else changes |
| Flights.FlightRecord.Repriced | src/Flight.java:183-185 | only the current price changes; the revenue from locked-in prices is unchanged |
| Flights.FlightRecord.Drawn | src/Flight.java:146-150 | the draw fails exactly on an empty pool, with the index error; otherwise the seat is the pool's entry at the drawn position, exactly that occurrence is removed (as a multiset), and nothing else changes |
| Flights.FullnessIgnoresPool | src/Flight.java:130-132 | a flight is full iff no seat is available; neither fullness nor available seats (src/Flight.java:165-167) depends on the pool |
| Flights.NewFlightConsistent | src/Flight.java:61-72 | a new flight has an empty ledger, its whole capacity available, the given price, and conserves its seats |
| Flights.BookedIdempotent | src/Flight.java:118-124 | booking the same passenger a second time changes nothing |
| Flights.RevenueBooked | src/Flight.java:212-221 | booking a new passenger adds the item's price to the revenue; rebooking adds nothing |
| Flights.RevenueCancelled | src/Flight.java:191-196 | cancelling a held reservation takes its locked-in price off the revenue; cancelling nobody changes nothing |
| Flights.DrawnConsistent | src/Flight.java:146-150 | drawing keeps seat conservation; the drawn seat is a seat of the flight, held by nobody and no longer in the pool |
| Flights.DrawBookConsistent | src/FlightReservationSystem.java:249-251 | drawing a seat and then booking keeps seat conservation, whether or not the passenger was already booked |
| Flights.CancelledConsistent | src/Flight.java:191-196 | dropping a reservation keeps seat conservation |
| Flights.CancelRecoverConsistent | src/FlightReservationSystem.java:205-208 | cancelling a held reservation and recovering its seat keeps seat conservation |
| Flights.Flight.constructor | src/Flight.java:61-72 | the built flight is `NewFlight`: empty ledger, pool `[1..N]` filled by the loop |
| Flights.Flight.BookPassenger | src/Flight.java:118-124 | the object's new value is `Booked(item)` of its old value |
| Flights.Flight.GenerateRandomSeatNumber | src/Flight.java:146-150 | returns the drawn seat and leaves the object at `Drawn(r)`'s value, or fails with the index error and changes nothing |
| Flights.Flight.RecoverSeat | src/Flight.java:157-159 | the new value is `SeatRecovered(seat)` of the old |
| Flights.Flight.ChangePrice | src/Flight.java:183-185 | the new value is `Repriced(newPrice)` of the old |
| Flights.Flight.CancelPassenger | src/Flight.java:191-196 | the new value is `Cancelled(item)` of the old |
| Flights.Flight.SummaryFlight | src/Flight.java:198-227 | sold seats is the ledger size, available seats is capacity minus sold, revenue is the sum of the locked-in prices however the ledger is iterated |
| Sums.MapSumPick | src/Flight.java:213-221 | a sum over a hash map's values is the same whichever entry is taken first |
| RouteIndex.Insert | src/FlightReservationSystem.java:92 | `add` never loses a flight and adds no flight but the new one |
| RouteIndex.RemoveByPrice | src/FlightReservationSystem.java:228 | `remove` only takes flights out |
| RouteIndex.InsertAscending | src/FlightReservationSystem.java:92 | `add` keeps a route strictly ascending by price |
| RouteIndex.InsertContents | src/FlightReservationSystem.java:92 | `add` of a flight whose price is taken leaves the route unchanged; otherwise it adds exactly that flight (as a multiset) |
| RouteIndex.InsertMembers | src/FlightReservationSystem.java:92 | after `add`, a flight is on the route iff it was already there, or it is the new flight and no flight there had its price |
| RouteIndex.RemoveEffect | src/FlightReservationSystem.java:228 | `remove` keeps the route ascending and takes out exactly the flight of the given price, if any |
| RouteIndex.RepriceOnRoute | src/FlightReservationSystem.java:227-230 | remove, reprice, add gives an ascending route: the flights not of the old price, plus the repriced flight unless one of them already has the new price |
| RouteIndex.FirstNonFull | src/FlightReservationSystem.java:243-252 | the scan stops at a flight that is not full, every flight before it is full, and it finds none exactly when all are full |
| RouteIndex.FirstNonFullCheapest | src/FlightReservationSystem.java:243-252 | on an ascending route the flight the scan stops at is the cheapest flight that is not full |
| RouteIndex.CheapestOpenIsFirst | src/FlightReservationSystem.java:243-252 | on an ascending route, a flight is the cheapest non-full one iff the scan stops at it, and the scan finds nothing iff every flight is full |
| RouteIndex.Holders | src/FlightReservationSystem.java:191-201 | the collected flights are exactly the route's flights holding the passenger |
| RouteIndex.HoldersAscending | src/FlightReservationSystem.java:191-201 | the collected holders are in ascending price order |
| RouteIndex.HoldersStep | src/FlightReservationSystem.java:193-200 | one scan step adds the flight to the ordered set exactly when it holds the passenger |
| RouteIndex.InsertDearest | src/FlightReservationSystem.java:199 | adding a flight dearer than all flights present puts it last |
| RouteIndex.LastHolder | src/FlightReservationSystem.java:202-205 | the chosen flight is on the route and holds the passenger; there is none iff no flight of the route holds the passenger |
| RouteIndex.LastHolderMostExpensive | src/FlightReservationSystem.java:205 | `reservedFlights.last()` is strictly dearer than every other holder |
| RouteIndex.DearestHolderIsLast | src/FlightReservationSystem.java:202-208 | a flight is the dearest holder of the passenger iff it is the last collected holder |
| Engine.Empty | src/FlightReservationSystem.java:56-58 | the system with both maps empty satisfies the invariant |
| Engine.RouteFlights | src/FlightReservationSystem.java:174-179 | the lookup fails exactly on an invalid code; otherwise it returns the route's flights, or nothing when the route is unknown |
| Engine.CancelOnRoute | src/FlightReservationSystem.java:191-209 | a cancellation touches neither the route index nor the number index nor the number of flights |
| Engine.AddFlightEffect | src/FlightReservationSystem.java:73-99 | adding a catalog line fails exactly on an invalid code; otherwise the flight is appended, other routes are unchanged, and the number is registered only if new |
| Engine.AddFlightRoute | src/FlightReservationSystem.java:80-93 | the added flight's route keeps its flights and gains the new flight exactly when no flight there has the new flight's price |
| Engine.AddFlightInv | src/FlightReservationSystem.java:73-99 | adding a catalog line keeps the invariant |
| Engine.AddedRouteWellFormed | src/FlightReservationSystem.java:92-93 | the added flight's route stays strictly ascending and names flights of that route only |
| Engine.BookEffect | src/FlightReservationSystem.java:237-255 | a booking fails on an invalid code, or on an empty pool of the chosen flight; it changes nothing on an unknown route or when all flights are full; otherwise the cheapest non-full flight draws a seat and books the passenger at its current price, and nothing else changes |
| Engine.RebookingLeaksSeat | src/FlightReservationSystem.java:249-251 | rebooking a passenger already on the chosen flight keeps the ledger and the available count, yet the pool loses a seat that nobody holds |
| Engine.BookOnFlightInv | src/FlightReservationSystem.java:249-251 | drawing a seat on one flight and booking there keeps the invariant |
| Engine.BookInv | src/FlightReservationSystem.java:237-255 | a booking keeps the invariant |
| Engine.ChangePriceEffect | src/FlightReservationSystem.java:216-231 | an unregistered number changes nothing; otherwise only that flight's price changes, only its route is rebuilt, and the route holds its flights not of the old price, plus the flight unless one of them has the new price |
| Engine.RepricedRouteWellFormed | src/FlightReservationSystem.java:227-230 | after a price change the route is strictly ascending by the new prices |
| Engine.ChangePriceInv | src/FlightReservationSystem.java:216-231 | a price change keeps the invariant |
| Engine.CancelEffect | src/FlightReservationSystem.java:185-210 | a cancellation fails only on an invalid code; it changes nothing on an unknown route or when no flight holds the passenger; otherwise the dearest holder drops the reservation and recovers its seat, and nothing else changes |
| Engine.CancelFound | src/FlightReservationSystem.java:186-190 | on a known route, a cancellation is the cancellation on that route's flights |
| Engine.CancelOnFlightInv | src/FlightReservationSystem.java:205-208 | cancelling and recovering the seat on one flight keeps the invariant |
| Engine.CancelInv | src/FlightReservationSystem.java:185-210 | a cancellation keeps the invariant |
| Engine.ProcessTransactionErrors | src/FlightReservationSystem.java:158-167 | a transaction fails only with an invalid code or an empty pool; price changes never fail; an unrecognised kind succeeds and changes nothing; a cancellation fails only on an invalid code; a booking or cancellation with an invalid code fails with that error |
| Engine.ProcessTransactionInv | src/FlightReservationSystem.java:158-167 | every transaction keeps the invariant |
| Engine.LoadCatalog | src/FlightReservationSystem.java:56-66 | loading keeps the invariant, stops exactly when some line has an invalid code, and otherwise adds one flight per line |
| Engine.RunTransactions | src/FlightReservationSystem.java:108-116 | a run keeps the invariant and never stops on a passenger name |
| Engine.RunSplit | src/FlightReservationSystem.java:108-116 | a run splits at any point: if the prefix stopped, the whole run is the prefix's outcome and nothing after it is applied; otherwise the rest runs from the state the prefix reached |
| Engine.RunStopsAtFailure | src/FlightReservationSystem.java:108-116 | the run stops at the first transaction that throws, with the state from just before it and that transaction's error |
| Engine.InvalidCodeAborts | src/FlightReservationSystem.java:174-178 | a booking or cancellation with an invalid airport code aborts the batch with the invalid-code error and the state from just before it |
| Engine.DecodeTransaction | src/FlightReservationSystem.java:158-167 | a record is dispatched on the kind `Classify` gives its kind string; a recognised record with too few fields for its handler throws; otherwise the fields are read by position, and a record of no kind is unrecognised |
| Engine.DecodeRoundTrip | src/FlightReservationSystem.java:158-167 | every recognised transaction is read back from its kind's name and its fields; a kind string is read as unrecognised exactly when it names no kind |
| Engine.FiguresByNumber | src/FlightReservationSystem.java:134-140 | the figures added up are, for each registered number, that flight's ledger size and revenue |
| ReservationSystem.CollectStep | src/FlightReservationSystem.java:193-200 | after one step the set holds the holders among the flights scanned so far |
| ReservationSystem.CollectReservedFlights | src/FlightReservationSystem.java:191-201 | the loop's set is exactly the route's holders, in route order |
| ReservationSystem.LastReservedFlight | src/FlightReservationSystem.java:191-205 | the flight picked is the last holder of the passenger in route order, or none when no flight holds the passenger |
| ReservationSystem.LocateCancellation | src/FlightReservationSystem.java:185-205 | the lookup fails as the cancellation does; it finds nothing exactly when the cancellation changes nothing, and otherwise a flight holding the passenger whose cancellation is the engine's |
| ReservationSystem.FlightReservationSystem.constructor | src/FlightReservationSystem.java:56-58 | the new system is valid and empty |
| ReservationSystem.FlightReservationSystem.AddFlight | src/FlightReservationSystem.java:73-99 | the system stays valid and becomes the engine's `AddFlight`, or fails with its error and changes nothing |
| ReservationSystem.FlightReservationSystem.AddBuiltFlight | src/FlightReservationSystem.java:92-98 | inserting the built flight and registering its number gives the engine's `AddFlight` |
| ReservationSystem.FlightReservationSystem.InitiateFlights | src/FlightReservationSystem.java:56-66 | both maps are emptied first, whatever the system held; the system then becomes the engine's `LoadCatalog` from the empty system and fails exactly when it stops |
| ReservationSystem.FlightReservationSystem.ProcessBookPassenger | src/FlightReservationSystem.java:237-255 | the scan loop gives the engine's `BookPassenger`, or its error with nothing changed |
| ReservationSystem.FlightReservationSystem.BookOnFlight | src/FlightReservationSystem.java:249-252 | the chosen flight draws and books, or the draw fails and nothing changes |
| ReservationSystem.FlightReservationSystem.ProcessChangePrice | src/FlightReservationSystem.java:216-231 | the system becomes the engine's `ChangePrice` |
| ReservationSystem.FlightReservationSystem.RepriceFlight | src/FlightReservationSystem.java:229 | only the flight's price changes; the maps are unchanged |
| ReservationSystem.FlightReservationSystem.ProcessCancelPassenger | src/FlightReservationSystem.java:185-210 | the system becomes the engine's `CancelPassenger`, or its error with nothing changed |
| ReservationSystem.FlightReservationSystem.CancelMostExpensive | src/FlightReservationSystem.java:205-208 | the chosen flight drops the reservation and recovers its seat, and the system stays valid |
| ReservationSystem.FlightReservationSystem.ProcessTransaction | src/FlightReservationSystem.java:158-167 | the system becomes the engine's `ProcessTransaction`, or its error with nothing changed |
| ReservationSystem.FlightReservationSystem.HandleTransactions | src/FlightReservationSystem.java:108-116 | the system becomes the engine's `RunTransactions` and fails exactly when it stops |
| ReservationSystem.FlightReservationSystem.ReportTotals | src/FlightReservationSystem.java:129-141 | the totals are the sums of seats sold and of revenue over the registered flights |
| ReservationSystem.FlightReservationSystem.AddSummaries | src/FlightReservationSystem.java:134-141 | the loop adds up every registered flight's summary once, in any order |
| Scenarios.ChicagoDallas | tst/FlightReservationSystemTest.java:44-48 | after K792 (130) and A792 (140), K792 is first and A792 last on CHI-DFW |
| Scenarios.BookingTakesCheapest | tst/FlightReservationSystemTest.java:51-65 | a booking on CHI-DFW goes to K792 at 130, leaving 25 seats, and A792 is untouched |
| Scenarios.RepricingReorders | tst/FlightReservationSystemTest.java:67-86 | repricing A792 to 120 puts it ahead of K792 |
| Scenarios.LasVegasLosAngeles | tst/FlightReservationSystemTest.java:88-93 | loading A124 gives one flight and the LAS-LAX route |
| Scenarios.LasVegasBooking | tst/FlightReservationSystemTest.java:94-99 | booking on A124 succeeds and leaves 53 seats available |
| Scenarios.LasVegasBooked | tst/FlightReservationSystemTest.java:94-95 | the system after that booking satisfies the invariant |
| Scenarios.CancelOnSingleFlight | src/FlightReservationSystem.java:185-210 | on a one-flight route, cancelling a held reservation frees one seat and drops the entry |
| Scenarios.CancelRestoresSeats | tst/FlightReservationSystemTest.java:101-104 | cancelling after the booking gives back all 54 seats and the reservation is gone |
| Scenarios.RebookingLeakExample | src/FlightReservationSystem.java:249-251 | booking the same passenger on A124 again leaves 53 available but only 52 in the pool |

## Left out

- **File I/O and parsing.** Reading the catalog and transaction files, whitespace stripping, `split`, `Integer.parseInt`, and `FlightInfoCSVIndexEnum` are left out. Catalog lines are `Engine.CatalogRecord` values, already split and converted, so a catalog line with missing fields or a malformed number is not modelled. A transaction line arrives split into its kind string and its fields; `Engine.DecodeTransaction` dispatches it and reads the fields, and a record too short for its kind throws. The price text of a price change is converted outside the model.
- **The output writer.** `createOutput`'s text, `FlightSummary`'s summary string and `getSummary` are left out. So are the per-passenger lines and the `String.format` layout of `summaryFlight`. Only the numbers are modelled.
- **Hash codes and iteration order.** `hashCode` of `Passenger` and `OriginDestinationPair` is left out; equality is structural on datatypes. The order in which `HashMap` entries are visited is left open: the revenue and totals loops pick any remaining key, and the results are proved not to depend on the order. The order of report lines is not modelled.
- **`Math.random()`.** Its floating-point value is a parameter: an exact fraction `num/den` in `[0, 1)`. The product and the `(int)` cast are computed exactly, with truncation toward zero. Double rounding is not modelled.
- **Randomness as input.** Each transaction is given its own random value (the `rnds` sequence of `HandleTransactions`).
- **Getters and the builder.** Getters are datatype fields. `FlightBuilder` is the `Flight` constructor.
- **Nulls.** Nulls other than the passenger-name check are left out. A `null` route lookup is `None`. A registered flight always has its route indexed (proved as part of `Engine.Inv`), so `processChangePrice` never meets a null set.
- **Runners and test scaffolding.** `SystemRunner` and the test runners are left out. So are the `assert` statements in the flight tests, which are disabled in Java by default.
- Flights.FlightRecord.CompareTo: integers are unbounded. The 32-bit overflow of `this.pricePerSeat - o.pricePerSeat` is not modelled, so the sign is exact for all prices.
- Flights.Flight.SummaryFlight: the `int` revenue sum is unbounded here; 32-bit overflow is not modelled.
- ReservationSystem.FlightReservationSystem.ReportTotals: the `int` seat total and the `long` revenue total are unbounded here.

## Behaviours of the code a reader may not expect

The model reproduces each of these:

- **Ties evict.** Routes are ordered by price alone. A flight whose price is already on its route is not added to the route. A price change removes whichever flight has the old price. No tie-break by flight number is made, and distinct same-priced flights are not both kept, even for duplicate catalog lines (`RouteIndex.InsertContents`, `Engine.AddFlightRoute`, `Engine.ChangePriceEffect`).
- **Errors abort.** An invalid airport code in a catalog line, a booking or a cancellation throws, and the run stops (`Engine.LoadCatalog`, `Engine.RunStopsAtFailure`, `Engine.InvalidCodeAborts`). Drawing from an empty pool also throws. That happens when a flight is not full but its pool has leaked empty.
- **The seat draw is not uniform.** The draw passes its bounds the wrong way round. A pool of two always gives up its second seat, and a longer pool never gives up the seats at its first two positions (`Flights.SeatIndexInPool`).
- **Recovering a seat does not check for duplicates.** `recoverSeat` appends unconditionally (`Flights.FlightRecord.SeatRecovered`).
- **Rebooking leaks a seat.** The seat is drawn before `bookPassenger` checks for an existing reservation. Rebooking a passenger therefore loses a pool seat that nobody holds (`Engine.RebookingLeaksSeat`, `Scenarios.RebookingLeakExample`).
