/**
 * The price-ordered collection of one route. A route holds flight ids
 * (positions in the engine's list of flights) and is kept strictly
 * ascending by the flights' current prices. It behaves like an ordered set
 * whose comparison is compareTo: two flights of the same price count as
 * the same element, so adding one is ignored and removing one removes the
 * other.
 */
module RouteIndex {
  import opened Results
  import opened Passengers
  import opened Flights

  /** Every id of the route names a flight. */
  ghost predicate InBounds(fs: seq<FlightRecord>, ids: seq<nat>)
  {
    forall k :: 0 <= k < |ids| ==> ids[k] < |fs|
  }

  /** The route's flights have strictly increasing current prices. */
  ghost predicate Ascending(fs: seq<FlightRecord>, ids: seq<nat>)
    requires InBounds(fs, ids)
  {
    forall j, k :: 0 <= j < k < |ids| ==> fs[ids[j]].price < fs[ids[k]].price
  }

  /** Some flight of the route has this price. */
  ghost predicate PriceTaken(fs: seq<FlightRecord>, ids: seq<nat>, price: int)
    requires InBounds(fs, ids)
  {
    exists k :: 0 <= k < |ids| && fs[ids[k]].price == price
  }

  /**
   * add: walks up the route to the first flight that does not compare below
   * the new one; if that flight compares equal the route is left as it is,
   * otherwise the new flight goes in front of it.
   */
  function Insert(fs: seq<FlightRecord>, ids: seq<nat>, id: nat): (r: seq<nat>)
    requires InBounds(fs, ids) && id < |fs|
    ensures InBounds(fs, r)
    ensures forall x :: x in r ==> x in ids || x == id
    ensures forall x :: x in ids ==> x in r
    decreases |ids|
  {
    if ids == [] then [id]
    else
      var c := fs[id].CompareTo(fs[ids[0]]);
      if c == 0 then ids
      else if c < 0 then [id] + ids
      else [ids[0]] + Insert(fs, ids[1..], id)
  }

  /** remove: takes out the first flight whose price equals the given one, if any. */
  function RemoveByPrice(fs: seq<FlightRecord>, ids: seq<nat>, price: int): (r: seq<nat>)
    requires InBounds(fs, ids)
    ensures InBounds(fs, r)
    ensures forall x :: x in r ==> x in ids
    decreases |ids|
  {
    if ids == [] then []
    else if fs[ids[0]].price == price then ids[1..]
    else [ids[0]] + RemoveByPrice(fs, ids[1..], price)
  }

  /**
   * The position of the first flight of the route, in ascending price order,
   * that is not full; None when every flight is full.
   */
  function FirstNonFull(fs: seq<FlightRecord>, ids: seq<nat>): (r: Option<nat>)
    requires InBounds(fs, ids)
    ensures r.None? <==> forall k :: 0 <= k < |ids| ==> fs[ids[k]].IsFull()
    ensures r.Some? ==> r.value < |ids| && !fs[ids[r.value]].IsFull()
    ensures r.Some? ==> forall k :: 0 <= k < r.value ==> fs[ids[k]].IsFull()
    decreases |ids|
  {
    if ids == [] then None
    else if !fs[ids[0]].IsFull() then Some(0)
    else
      match FirstNonFull(fs, ids[1..])
      case None => None
      case Some(j) => Some(j + 1)
  }

  /** The flights of the route on which the passenger holds a reservation, in route order. */
  function Holders(fs: seq<FlightRecord>, ids: seq<nat>, p: Passenger): (r: seq<nat>)
    requires InBounds(fs, ids)
    ensures InBounds(fs, r)
    ensures forall x :: x in r <==> x in ids && p in fs[x].ledger
    decreases |ids|
  {
    if ids == [] then []
    else
      var last := ids[|ids| - 1];
      Holders(fs, ids[..|ids| - 1], p) + (if p in fs[last].ledger then [last] else [])
  }

  /**
   * The flight a cancellation acts on: the last of the route's holders of
   * the passenger, in route order; None when no flight of the route holds
   * the passenger.
   */
  function LastHolder(fs: seq<FlightRecord>, ids: seq<nat>, p: Passenger): (r: Option<nat>)
    requires InBounds(fs, ids)
    ensures r.Some? ==> r.value in ids && r.value < |fs| && p in fs[r.value].ledger
    ensures r.None? <==> forall x :: x in ids ==> p !in fs[x].ledger
  {
    var h := Holders(fs, ids, p);
    if h == [] then None
    else
      assert h[|h| - 1] in h;
      Some(h[|h| - 1])
  }

  // ---------------------------------------------------------------------
  // Properties
  // ---------------------------------------------------------------------

  /** The tail of an ascending route is ascending, and dearer than its head. */
  lemma TailAscending(fs: seq<FlightRecord>, ids: seq<nat>)
    requires InBounds(fs, ids) && Ascending(fs, ids) && ids != []
    ensures InBounds(fs, ids[1..]) && Ascending(fs, ids[1..])
    ensures forall x :: x in ids[1..] ==> fs[ids[0]].price < fs[x].price
  {
    forall x | x in ids[1..]
      ensures fs[ids[0]].price < fs[x].price
    {
      var k :| 0 <= k < |ids[1..]| && ids[1..][k] == x;
      assert ids[k + 1] == x;
    }
  }

  /** A flight cheaper than every flight of an ascending route can go in front of it. */
  lemma ConsAscending(fs: seq<FlightRecord>, head: nat, rest: seq<nat>)
    requires head < |fs| && InBounds(fs, rest) && Ascending(fs, rest)
    requires forall x :: x in rest ==> fs[head].price < fs[x].price
    ensures InBounds(fs, [head] + rest) && Ascending(fs, [head] + rest)
  {
    var r := [head] + rest;
    forall j, k | 0 <= j < k < |r|
      ensures fs[r[j]].price < fs[r[k]].price
    {
      assert r[k] == rest[k - 1] && rest[k - 1] in rest;
      if j > 0 {
        assert r[j] == rest[j - 1];
      }
    }
  }

  /** A price is taken on a non-empty route iff its head or its tail has it. */
  lemma PriceTakenCons(fs: seq<FlightRecord>, ids: seq<nat>, price: int)
    requires InBounds(fs, ids) && ids != []
    ensures InBounds(fs, ids[1..])
    ensures PriceTaken(fs, ids, price) <==> fs[ids[0]].price == price || PriceTaken(fs, ids[1..], price)
  {
    if PriceTaken(fs, ids, price) {
      var k :| 0 <= k < |ids| && fs[ids[k]].price == price;
      if k > 0 {
        assert ids[1..][k - 1] == ids[k];
      }
    }
    if PriceTaken(fs, ids[1..], price) {
      var k :| 0 <= k < |ids[1..]| && fs[ids[1..][k]].price == price;
      assert ids[k + 1] == ids[1..][k];
    }
  }

  /** On an ascending route, add keeps the route ascending. */
  lemma {:induction false} InsertAscending(fs: seq<FlightRecord>, ids: seq<nat>, id: nat)
    requires InBounds(fs, ids) && id < |fs| && Ascending(fs, ids)
    ensures Ascending(fs, Insert(fs, ids, id))
    decreases |ids|
  {
    if ids != [] {
      TailAscending(fs, ids);
      var c := fs[id].CompareTo(fs[ids[0]]);
      if c < 0 {
        ConsAscending(fs, id, ids);
      } else if c > 0 {
        InsertAscending(fs, ids[1..], id);
        ConsAscending(fs, ids[0], Insert(fs, ids[1..], id));
      }
    }
  }

  /**
   * add leaves the route unchanged when a flight of the same price is
   * already there and otherwise adds exactly the new flight.
   */
  lemma {:induction false} InsertContents(fs: seq<FlightRecord>, ids: seq<nat>, id: nat)
    requires InBounds(fs, ids) && id < |fs| && Ascending(fs, ids)
    ensures PriceTaken(fs, ids, fs[id].price) ==> Insert(fs, ids, id) == ids
    ensures !PriceTaken(fs, ids, fs[id].price) ==> multiset(Insert(fs, ids, id)) == multiset(ids) + multiset{id}
    decreases |ids|
  {
    if ids != [] {
      PriceTakenCons(fs, ids, fs[id].price);
      TailAscending(fs, ids);
      var c := fs[id].CompareTo(fs[ids[0]]);
      if c < 0 {
        assert !PriceTaken(fs, ids[1..], fs[id].price);
      } else if c > 0 {
        var tail := ids[1..];
        InsertContents(fs, tail, id);
        assert ids == [ids[0]] + tail;
        assert multiset(ids) == multiset([ids[0]]) + multiset(tail);
      }
    }
  }

  /**
   * The flights of the route after add: the ones already there, and the
   * new flight exactly when no flight there has its price.
   */
  lemma InsertMembers(fs: seq<FlightRecord>, ids: seq<nat>, id: nat)
    requires InBounds(fs, ids) && id < |fs| && Ascending(fs, ids)
    ensures forall x :: x in Insert(fs, ids, id) <==>
      x in ids || (x == id && forall y :: y in ids ==> fs[y].price != fs[id].price)
  {
    InsertContents(fs, ids, id);
    var r := Insert(fs, ids, id);
    if PriceTaken(fs, ids, fs[id].price) {
      var k :| 0 <= k < |ids| && fs[ids[k]].price == fs[id].price;
      assert ids[k] in ids;
    } else {
      forall x
        ensures x in r <==> x in ids || x == id
      {
        assert x in r <==> x in multiset(r);
        assert x in ids <==> x in multiset(ids);
      }
      forall y | y in ids
        ensures fs[y].price != fs[id].price
      {
        var k :| 0 <= k < |ids| && ids[k] == y;
      }
    }
  }

  /**
   * On an ascending route, remove keeps the route ascending and takes out
   * exactly the flights of the given price (at most one), and nothing else.
   */
  lemma {:induction false} RemoveEffect(fs: seq<FlightRecord>, ids: seq<nat>, price: int)
    requires InBounds(fs, ids) && Ascending(fs, ids)
    ensures Ascending(fs, RemoveByPrice(fs, ids, price))
    ensures forall x :: x in RemoveByPrice(fs, ids, price) <==> x in ids && fs[x].price != price
    ensures !PriceTaken(fs, ids, price) ==> RemoveByPrice(fs, ids, price) == ids
    decreases |ids|
  {
    if ids != [] {
      var tail := ids[1..];
      assert ids == [ids[0]] + tail;
      TailAscending(fs, ids);
      PriceTakenCons(fs, ids, price);
      if fs[ids[0]].price != price {
        RemoveEffect(fs, tail, price);
        ConsAscending(fs, ids[0], RemoveByPrice(fs, tail, price));
      }
    }
  }

  /**
   * changePrice on an ascending route: the flights of the old price go,
   * the flight is repriced, and adding it back gives an ascending route
   * of the remaining flights plus the repriced one, unless a remaining
   * flight already has the new price.
   */
  lemma RepriceOnRoute(fs: seq<FlightRecord>, ids: seq<nat>, id: nat, newPrice: int)
    requires InBounds(fs, ids) && Ascending(fs, ids) && id < |fs|
    ensures var rest := RemoveByPrice(fs, ids, fs[id].price);
      var gs := fs[id := fs[id].Repriced(newPrice)];
      && InBounds(gs, rest)
      && Ascending(gs, Insert(gs, rest, id))
      && forall x :: x in Insert(gs, rest, id) <==>
           || (x in ids && fs[x].price != fs[id].price)
           || (x == id && forall y :: y in ids && fs[y].price != fs[id].price ==> fs[y].price != newPrice)
  {
    var rest := RemoveByPrice(fs, ids, fs[id].price);
    RemoveEffect(fs, ids, fs[id].price);
    var gs := fs[id := fs[id].Repriced(newPrice)];
    assert id !in rest;
    assert forall y :: y in rest ==> gs[y] == fs[y];
    assert Ascending(gs, rest) by {
      forall j, k | 0 <= j < k < |rest|
        ensures gs[rest[j]].price < gs[rest[k]].price
      {
        assert rest[j] in rest && rest[k] in rest;
      }
    }
    InsertAscending(gs, rest, id);
    InsertMembers(gs, rest, id);
  }

  /** A route's holders, taken in route order, are ascending as well. */
  lemma {:induction false} HoldersAscending(fs: seq<FlightRecord>, ids: seq<nat>, p: Passenger)
    requires InBounds(fs, ids) && Ascending(fs, ids)
    ensures Ascending(fs, Holders(fs, ids, p))
    decreases |ids|
  {
    if ids != [] {
      var init := ids[..|ids| - 1];
      var last := ids[|ids| - 1];
      assert Ascending(fs, init);
      HoldersAscending(fs, init, p);
      var h := Holders(fs, init, p);
      forall x | x in h
        ensures fs[x].price < fs[last].price
      {
        var k :| 0 <= k < |init| && init[k] == x;
      }
    }
  }

  /**
   * The last holder on an ascending route is the holder with the highest
   * price: every other flight holding the passenger is cheaper.
   */
  lemma {:induction false} LastHolderMostExpensive(fs: seq<FlightRecord>, ids: seq<nat>, p: Passenger)
    requires InBounds(fs, ids) && Ascending(fs, ids)
    requires Holders(fs, ids, p) != []
    ensures var h := Holders(fs, ids, p);
      forall x :: x in h && x != h[|h| - 1] ==> fs[x].price < fs[h[|h| - 1]].price
  {
    HoldersAscending(fs, ids, p);
    var h := Holders(fs, ids, p);
    forall x | x in h && x != h[|h| - 1]
      ensures fs[x].price < fs[h[|h| - 1]].price
    {
      var k :| 0 <= k < |h| && h[k] == x;
    }
  }

  /** Adding a flight dearer than every flight present puts it at the end. */
  lemma {:induction false} InsertDearest(fs: seq<FlightRecord>, ids: seq<nat>, id: nat)
    requires InBounds(fs, ids) && id < |fs|
    requires forall x :: x in ids ==> fs[x].price < fs[id].price
    ensures Insert(fs, ids, id) == ids + [id]
    decreases |ids|
  {
    if ids != [] {
      assert ids[0] in ids;
      InsertDearest(fs, ids[1..], id);
      assert [ids[0]] + (ids[1..] + [id]) == ids + [id];
    }
  }

  /**
   * One step of collecting the holders in route order: the holders among
   * the first k + 1 flights are those among the first k, with flight k
   * added to the price-ordered set when it holds the passenger.
   */
  lemma HoldersStep(fs: seq<FlightRecord>, ids: seq<nat>, k: nat, p: Passenger)
    requires InBounds(fs, ids) && Ascending(fs, ids) && k < |ids|
    ensures Holders(fs, ids[..k + 1], p) ==
      if p in fs[ids[k]].ledger then Insert(fs, Holders(fs, ids[..k], p), ids[k])
      else Holders(fs, ids[..k], p)
  {
    assert ids[..k + 1][..k] == ids[..k];
    if p in fs[ids[k]].ledger {
      var h := Holders(fs, ids[..k], p);
      forall x | x in h
        ensures fs[x].price < fs[ids[k]].price
      {
        var j :| 0 <= j < k && ids[j] == x;
      }
      InsertDearest(fs, h, ids[k]);
    }
  }

  /** The first non-full flight is the cheapest flight of the route that is not full. */
  lemma {:induction false} FirstNonFullCheapest(fs: seq<FlightRecord>, ids: seq<nat>)
    requires InBounds(fs, ids) && Ascending(fs, ids)
    requires FirstNonFull(fs, ids).Some?
    ensures var j := FirstNonFull(fs, ids).value;
      forall k :: 0 <= k < |ids| && !fs[ids[k]].IsFull() ==> fs[ids[j]].price <= fs[ids[k]].price
  {
  }

  /** The dearest flight of the route on which the passenger holds a reservation. */
  ghost predicate DearestHolder(fs: seq<FlightRecord>, ids: seq<nat>, p: Passenger, id: nat)
  {
    && id in ids && id < |fs| && p in fs[id].ledger
    && forall x :: x in ids && x < |fs| && x != id && p in fs[x].ledger ==> fs[x].price < fs[id].price
  }

  /** The cheapest flight of the route that is not full. */
  ghost predicate CheapestOpen(fs: seq<FlightRecord>, ids: seq<nat>, id: nat)
  {
    && id in ids && id < |fs| && !fs[id].IsFull()
    && forall x :: x in ids && x < |fs| && !fs[x].IsFull() ==> fs[id].price <= fs[x].price
  }

  /**
   * On an ascending route, the dearest holder of a passenger is exactly the
   * last of the holders collected in route order.
   */
  lemma DearestHolderIsLast(fs: seq<FlightRecord>, ids: seq<nat>, p: Passenger)
    requires InBounds(fs, ids) && Ascending(fs, ids)
    ensures forall id: nat :: DearestHolder(fs, ids, p, id) <==> LastHolder(fs, ids, p) == Some(id)
  {
    var h := Holders(fs, ids, p);
    if h != [] {
      var last := h[|h| - 1];
      assert last in h;
      assert LastHolder(fs, ids, p) == Some(last);
      LastHolderMostExpensive(fs, ids, p);
      forall id: nat | DearestHolder(fs, ids, p, id)
        ensures id == last
      {
        assert id in h;
      }
    }
  }

  /**
   * On an ascending route, the cheapest flight that is not full is exactly
   * the first one the scan finds, and there is none when every flight is
   * full.
   */
  lemma CheapestOpenIsFirst(fs: seq<FlightRecord>, ids: seq<nat>)
    requires InBounds(fs, ids) && Ascending(fs, ids)
    ensures var first := FirstNonFull(fs, ids);
      forall id: nat :: CheapestOpen(fs, ids, id) <==> first.Some? && id == ids[first.value]
    ensures FirstNonFull(fs, ids).None? <==> forall x :: x in ids ==> fs[x].IsFull()
  {
    var first := FirstNonFull(fs, ids);
    if first.Some? {
      var j := first.value;
      FirstNonFullCheapest(fs, ids);
      assert ids[j] in ids;
      forall id: nat | CheapestOpen(fs, ids, id)
        ensures id == ids[j]
      {
        var k :| 0 <= k < |ids| && ids[k] == id;
      }
    } else {
      forall x | x in ids
        ensures fs[x].IsFull()
      {
        var k :| 0 <= k < |ids| && ids[k] == x;
      }
    }
  }
}
