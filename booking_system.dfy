/**
 * The booking manager: a catalog of flights, a ledger of bookings and the counter that
 * numbers them, with the searches over the catalog, the two sorts and the revenue total.
 */
module BookingSystem {
  import opened Flights
  import opened FlightSorting

  // ---------------------------------------------------------------------------------------------
  // Booking identifiers: "BK" followed by the counter in decimal
  // ---------------------------------------------------------------------------------------------

  /** The decimal digit character of `d`: a lookup helper for `DecimalString`. */
  function DigitChar(d: int): (c: char)
    requires 0 <= d < 10
    ensures '0' <= c <= '9' && c as int - '0' as int == d
  {
    ('0' as int + d) as char
  }

  /** The decimal representation of `n`, most significant digit first, without leading zeros. */
  function DecimalString(n: nat): (s: string)
    ensures 1 <= |s|
    ensures forall i :: 0 <= i < |s| ==> '0' <= s[i] <= '9'
    ensures |s| > 1 ==> s[0] != '0'
  {
    if n < 10 then [DigitChar(n)] else DecimalString(n / 10) + [DigitChar(n % 10)]
  }

  /** The number a string of decimal digits denotes. */
  function DigitsValue(s: string): nat
  {
    if s == [] then 0
    else
      var d := s[|s| - 1] as int - '0' as int;
      DigitsValue(s[..|s| - 1]) * 10 + (if 0 <= d < 10 then d else 0)
  }

  /** Reading back the decimal representation of `n` gives `n`. */
  lemma {:induction false} DecimalRoundTrip(n: nat)
    ensures DigitsValue(DecimalString(n)) == n
  {
    var s := DecimalString(n);
    if n < 10 {
      assert s[..0] == [];
    } else {
      assert s[..|s| - 1] == DecimalString(n / 10);
      DecimalRoundTrip(n / 10);
    }
  }

  /** The identifier the manager gives the booking it makes while its counter is `n`. */
  function BookingIdOf(n: nat): string
  {
    "BK" + DecimalString(n)
  }

  /** Different counter values give different booking identifiers. */
  lemma BookingIdInjective(m: nat, n: nat)
    ensures BookingIdOf(m) == BookingIdOf(n) ==> m == n
  {
    if BookingIdOf(m) == BookingIdOf(n) {
      assert BookingIdOf(m)[2..] == DecimalString(m);
      assert BookingIdOf(n)[2..] == DecimalString(n);
      DecimalRoundTrip(m);
      DecimalRoundTrip(n);
    }
  }

  /** The first booking of a fresh manager is "BK1000". */
  lemma FirstBookingId()
    ensures BookingIdOf(1000) == "BK1000"
  {
    assert DecimalString(1) == "1";
    assert DecimalString(10) == "10";
    assert DecimalString(100) == "100";
    assert DecimalString(1000) == "1000";
  }

  /** `id` was handed out while the counter ran from 1000 up to, but not including, `counter`. */
  ghost predicate Issued(id: string, counter: int)
  {
    exists k: nat :: 1000 <= k < counter && id == BookingIdOf(k)
  }

  // ---------------------------------------------------------------------------------------------
  // Catalog scans
  // ---------------------------------------------------------------------------------------------

  /** The index of the first flight numbered `fn`, or `|fs|` when there is none. */
  function FirstNumbered(fs: seq<Flight>, fn: string): (i: nat)
    ensures i <= |fs|
    ensures i < |fs| ==> fs[i].flightNumber == fn
    ensures forall j :: 0 <= j < i ==> fs[j].flightNumber != fn
  {
    if fs == [] then 0
    else if fs[0].flightNumber == fn then 0
    else 1 + FirstNumbered(fs[1..], fn)
  }

  /** A flight numbered `fn` with none before it is the first one. */
  lemma FirstNumberedAt(fs: seq<Flight>, fn: string, i: int)
    requires 0 <= i < |fs| && fs[i].flightNumber == fn
    requires forall j :: 0 <= j < i ==> fs[j].flightNumber != fn
    ensures FirstNumbered(fs, fn) == i
  {
  }

  /** The index of the first flight arriving at `dest`, or `|fs|` when there is none. */
  function FirstArriving(fs: seq<Flight>, dest: string): (i: nat)
    ensures i <= |fs|
    ensures i < |fs| ==> fs[i].arrivalCity == dest
    ensures forall j :: 0 <= j < i ==> fs[j].arrivalCity != dest
  {
    if fs == [] then 0
    else if fs[0].arrivalCity == dest then 0
    else 1 + FirstArriving(fs[1..], dest)
  }

  /** The flights of `fs` whose base fare lies in `[minPrice, maxPrice]`, in catalog order. */
  function InPriceRange(fs: seq<Flight>, minPrice: real, maxPrice: real): (r: seq<Flight>)
    ensures forall f :: f in r ==> f in fs && minPrice <= f.Price() <= maxPrice
    ensures forall f :: f in fs && minPrice <= f.Price() <= maxPrice ==> f in r
  {
    if fs == [] then []
    else
      var price := fs[0].Price();
      (if price >= minPrice && price <= maxPrice then [fs[0]] else [])
        + InPriceRange(fs[1..], minPrice, maxPrice)
  }

  /** The range filter keeps catalog order: filtering a concatenation concatenates the filtered parts. */
  lemma {:induction false} InPriceRangeAppend(a: seq<Flight>, b: seq<Flight>, minPrice: real, maxPrice: real)
    ensures InPriceRange(a + b, minPrice, maxPrice) == InPriceRange(a, minPrice, maxPrice) + InPriceRange(b, minPrice, maxPrice)
  {
    if a == [] {
      assert a + b == b;
    } else {
      assert (a + b)[0] == a[0] && (a + b)[1..] == a[1..] + b;
      InPriceRangeAppend(a[1..], b, minPrice, maxPrice);
    }
  }

  // ---------------------------------------------------------------------------------------------
  // Revenue
  // ---------------------------------------------------------------------------------------------

  /** The price of `b` when it is confirmed, nothing otherwise. */
  function Earned(b: Booking): real
    reads b
  {
    if b.confirmed then b.TotalPrice() else 0.0
  }

  /** The sum of the total prices of the confirmed bookings of `bs`. */
  function Revenue(bs: seq<Booking>): (r: real)
    reads bs
    ensures r >= 0.0
  {
    if bs == [] then 0.0 else Earned(bs[0]) + Revenue(bs[1..])
  }

  /** A ledger earns nothing exactly when none of its bookings is confirmed. */
  lemma {:induction false} RevenueZero(bs: seq<Booking>)
    ensures Revenue(bs) == 0.0 <==> forall i :: 0 <= i < |bs| ==> !bs[i].confirmed
  {
    if bs != [] {
      RevenueZero(bs[1..]);
      assert bs[0].confirmed ==> Earned(bs[0]) >= bs[0].flight.Price() > 0.0;
      assert Revenue(bs) == Earned(bs[0]) + Revenue(bs[1..]);
      assert forall i :: 1 <= i < |bs| ==> bs[i] == bs[1..][i - 1];
    }
  }

  /** Revenue adds up over a concatenation of ledgers. */
  lemma {:induction false} RevenueAppend(a: seq<Booking>, b: seq<Booking>)
    ensures Revenue(a + b) == Revenue(a) + Revenue(b)
  {
    if a == [] {
      assert a + b == b;
    } else {
      assert (a + b)[0] == a[0] && (a + b)[1..] == a[1..] + b;
      RevenueAppend(a[1..], b);
    }
  }

  /** A ledger of two confirmed bookings earns both prices. */
  lemma PairRevenue(b1: Booking, b2: Booking)
    requires b1.confirmed && b2.confirmed
    ensures Revenue([b1, b2]) == b1.TotalPrice() + b2.TotalPrice()
  {
    assert [b1, b2][1..] == [b2];
    assert [b2][1..] == [];
    assert Revenue([b2]) == Earned(b2) + Revenue([]);
  }

  /** A booking in front of a ledger adds what it earns. */
  lemma RevenueCons(x: Booking, back: seq<Booking>)
    ensures Revenue([x] + back) == Earned(x) + Revenue(back)
  {
    assert ([x] + back)[0] == x && ([x] + back)[1..] == back;
  }

  /** A sequence is its prefix before `k`, its element at `k` and the rest. */
  lemma SplitAround<T>(b: seq<T>, k: int)
    requires 0 <= k < |b|
    ensures b == b[..k] + ([b[k]] + b[k + 1..])
  {
    assert b == b[..k] + b[k..];
  }

  /** Taking one booking out of a ledger takes out exactly what it earns. */
  lemma RevenueRemove(b: seq<Booking>, k: int)
    requires 0 <= k < |b|
    ensures Revenue(b) == Earned(b[k]) + Revenue(b[..k] + b[k + 1..])
  {
    var front, back := b[..k], b[k + 1..];
    SplitAround(b, k);
    RevenueAppend(front, [b[k]] + back);
    RevenueCons(b[k], back);
    RevenueAppend(front, back);
  }

  /** Taking the head of `a` out of `a`, and its copy at `k` out of `b`, leaves equal multisets. */
  lemma RemoveMatched<T>(a: seq<T>, b: seq<T>, k: int)
    requires multiset(a) == multiset(b) && a != [] && 0 <= k < |b| && b[k] == a[0]
    ensures multiset(a[1..]) == multiset(b[..k] + b[k + 1..])
  {
    var rest := b[..k] + b[k + 1..];
    assert a == [a[0]] + a[1..];
    assert b == b[..k] + [b[k]] + b[k + 1..];
    assert multiset(b) == multiset(b[..k]) + multiset{a[0]} + multiset(b[k + 1..]);
    assert multiset(rest) == multiset(b[..k]) + multiset(b[k + 1..]);
    forall x ensures multiset(a[1..])[x] == multiset(rest)[x] {
      assert multiset(a)[x] == multiset(b)[x];
    }
  }

  /** Revenue does not depend on the order of the ledger. */
  lemma {:induction false} RevenuePermutation(a: seq<Booking>, b: seq<Booking>)
    requires multiset(a) == multiset(b)
    ensures Revenue(a) == Revenue(b)
    decreases |a|
  {
    if a != [] {
      assert a[0] in multiset(b);
      var k :| 0 <= k < |b| && b[k] == a[0];
      var rest := b[..k] + b[k + 1..];
      RemoveMatched(a, b, k);
      RevenuePermutation(a[1..], rest);
      RevenueRemove(b, k);
    }
  }

  // ---------------------------------------------------------------------------------------------
  // The ledger invariant
  // ---------------------------------------------------------------------------------------------

  /**
   * A ledger made by a counter now at `counter`: the counter has advanced once per booking
   * from 1000, each booking is held once, and every booking carries its own identifier, one
   * the counter has issued.
   */
  ghost predicate LedgerValid(bs: seq<Booking>, counter: int)
  {
    && counter == 1000 + |bs|
    && (forall b :: b in bs ==> multiset(bs)[b] == 1)
    && (forall b :: b in bs ==> Issued(b.bookingId, counter))
    && (forall b, c :: b in bs && c in bs && b != c ==> b.bookingId != c.bookingId)
  }

  /** Appending a new booking that carries the next identifier keeps the ledger valid. */
  lemma LedgerGrow(bs: seq<Booking>, counter: int, b: Booking)
    requires LedgerValid(bs, counter) && b !in bs && b.bookingId == BookingIdOf(counter)
    ensures LedgerValid(bs + [b], counter + 1)
  {
    NewIdUnissued(counter);
    var ts := bs + [b];
    assert multiset(ts) == multiset(bs) + multiset{b};
    forall c | c in ts ensures Issued(c.bookingId, counter + 1) {
      if c == b {
        assert 1000 <= counter < counter + 1;
      } else {
        var k: nat :| 1000 <= k < counter && c.bookingId == BookingIdOf(k);
        assert 1000 <= k < counter + 1;
      }
    }
  }

  /** Reordering a valid ledger keeps it valid. */
  lemma LedgerPermute(bs: seq<Booking>, ts: seq<Booking>, counter: int)
    requires LedgerValid(bs, counter) && multiset(ts) == multiset(bs)
    ensures LedgerValid(ts, counter)
  {
    assert |ts| == |multiset(ts)| == |multiset(bs)| == |bs|;
    assert forall b :: b in ts <==> b in bs by {
      assert forall b :: b in ts <==> b in multiset(ts);
      assert forall b :: b in bs <==> b in multiset(bs);
    }
  }

  // ---------------------------------------------------------------------------------------------
  // The manager
  // ---------------------------------------------------------------------------------------------

  class FlightBookingSystem {
    var flights: seq<Flight>
    var bookings: seq<Booking>
    var bookingCounter: int

    /** The ledger and the counter agree (see `LedgerValid`). */
    ghost predicate Valid()
      reads this
    {
      LedgerValid(bookings, bookingCounter)
    }

    /** An empty catalog and ledger, with the counter at 1000. */
    constructor ()
      ensures flights == [] && bookings == [] && bookingCounter == 1000
      ensures Valid()
    {
      flights := [];
      bookings := [];
      bookingCounter := 1000;
    }

    /** Appends a flight to the catalog. */
    method AddFlight(f: Flight)
      modifies this
      ensures flights == old(flights) + [f]
      ensures bookings == old(bookings) && bookingCounter == old(bookingCounter)
      ensures old(Valid()) ==> Valid()
    {
      flights := flights + [f];
    }

    /**
     * Books the passenger on the first catalog flight numbered `fn`: the booking gets the
     * identifier "BK" + counter, the counter moves on and the booking joins the ledger.
     * Without such a flight nothing changes and the result is `null`.
     */
    method CreateBooking(p: Passenger, fn: string, sc: SeatClass) returns (b: Booking?)
      requires Valid()
      modifies this
      ensures Valid() && flights == old(flights)
      ensures b == null <==> FirstNumbered(flights, fn) == |flights|
      ensures b == null ==> bookings == old(bookings) && bookingCounter == old(bookingCounter)
      ensures b != null ==> fresh(b) && bookings == old(bookings) + [b] && bookingCounter == old(bookingCounter) + 1
      ensures b != null ==> b.bookingId == BookingIdOf(old(bookingCounter)) && b.flight == flights[FirstNumbered(flights, fn)]
      ensures b != null ==> b.passenger == p && b.seatClass == sc && !b.confirmed
    {
      var i := 0;
      while i < |flights|
        invariant 0 <= i <= |flights|
        invariant forall j :: 0 <= j < i ==> flights[j].flightNumber != fn
      {
        if flights[i].flightNumber == fn {
          FirstNumberedAt(flights, fn, i);
          var id := BookingIdOf(bookingCounter);
          b := new Booking(id, flights[i], p, sc);
          LedgerGrow(bookings, bookingCounter, b);
          bookingCounter := bookingCounter + 1;
          bookings := bookings + [b];
          return;
        }
        i := i + 1;
      }
      b := null;
    }

    /** The first catalog flight arriving at `dest`, or `null`. */
    function FindFlightByDestination(dest: string): (f: Flight?)
      reads this
      ensures f == null <==> forall g :: g in flights ==> g.arrivalCity != dest
      ensures f != null ==> exists i :: 0 <= i < |flights| && flights[i] == f && f.arrivalCity == dest
                                        && forall j :: 0 <= j < i ==> flights[j].arrivalCity != dest
    {
      var i := FirstArriving(flights, dest);
      if i < |flights| then flights[i] else null
    }

    /** The catalog flights whose base fare lies in `[minPrice, maxPrice]`, in catalog order. */
    function FindFlightsByPriceRange(minPrice: real, maxPrice: real): (r: seq<Flight>)
      reads this
      ensures forall i :: 0 <= i < |r| ==> r[i] in flights && minPrice <= r[i].Price() <= maxPrice
      ensures forall i :: 0 <= i < |flights| && minPrice <= flights[i].Price() <= maxPrice ==> flights[i] in r
    {
      InPriceRange(flights, minPrice, maxPrice)
    }

    /**
     * Sorts a copy of the catalog by base fare and binary-searches it for the last flight
     * within budget: the most expensive flight costing at most `maxPrice`, or `null` when
     * every flight costs more. The catalog itself is not reordered.
     */
    method FindCheapestFlight(maxPrice: real) returns (r: Flight?)
      ensures r == null <==> forall f :: f in flights ==> f.Price() > maxPrice
      ensures r != null ==> r in flights && r.Price() <= maxPrice
      ensures r != null ==> forall f :: f in flights && f.Price() <= maxPrice ==> f.Price() <= r.Price()
    {
      var fs := flights;
      var a := new Flight[|fs|](i requires 0 <= i < |fs| => fs[i]);
      assert a[..] == fs;
      SortFlightsByPrice(a);
      assert forall f :: f in fs <==> f in a[..] by {
        assert forall f :: f in fs <==> f in multiset(fs);
      }
      r := SearchWithinBudget(a, maxPrice);
    }

    /** Stably sorts the ledger by total price. */
    method SortBookingsByPrice()
      modifies this
      ensures StableSortOf(old(bookings), bookings)
      ensures multiset(bookings) == multiset(old(bookings))
      ensures flights == old(flights) && bookingCounter == old(bookingCounter)
      ensures old(Valid()) ==> Valid()
    {
      var bs := bookings;
      var a := new Booking[|bs|](i requires 0 <= i < |bs| => bs[i]);
      assert a[..] == bs;
      SortBookings(a);
      bookings := a[..];
      StablePerm(bs, bookings);
      if LedgerValid(bs, bookingCounter) {
        LedgerPermute(bs, bookings, bookingCounter);
      }
    }

    /** The sum of the total prices of the confirmed bookings in the ledger. */
    function TotalRevenue(): (r: real)
      reads this, bookings
      ensures r >= 0.0
      ensures r == 0.0 <==> forall i :: 0 <= i < |bookings| ==> !bookings[i].confirmed
    {
      RevenueZero(bookings);
      Revenue(bookings)
    }
  }

  /** The identifier issued at `counter` is none of those issued before it. */
  lemma NewIdUnissued(counter: int)
    requires counter >= 1000
    ensures !Issued(BookingIdOf(counter), counter)
  {
    forall k: nat | 1000 <= k < counter
      ensures BookingIdOf(counter) != BookingIdOf(k)
    {
      BookingIdInjective(k, counter);
    }
  }

  /**
   * Binary search of a fare-sorted array for the last flight costing at most `maxPrice`:
   * each probe within budget is remembered and the search moves right, otherwise left.
   */
  method SearchWithinBudget(a: array<Flight>, maxPrice: real) returns (r: Flight?)
    requires PriceSorted(a[..])
    ensures r == null <==> forall f :: f in a[..] ==> f.Price() > maxPrice
    ensures r != null ==> r in a[..] && r.Price() <= maxPrice
    ensures r != null ==> forall f :: f in a[..] && f.Price() <= maxPrice ==> f.Price() <= r.Price()
  {
    var left, right := 0, a.Length - 1;
    r := null;
    while left <= right
      invariant 0 <= left <= right + 1 <= a.Length
      invariant forall k :: 0 <= k < left ==> a[k].Price() <= maxPrice
      invariant forall k :: right < k < a.Length ==> a[k].Price() > maxPrice
      invariant r == null <==> left == 0
      invariant r != null ==> r == a[left - 1]
    {
      var mid := left + (right - left) / 2;
      var price := a[mid].Price();
      if price <= maxPrice {
        r := a[mid];
        left := mid + 1;
      } else {
        right := mid - 1;
      }
    }
    assert forall f :: f in a[..] ==> exists k :: 0 <= k < a.Length && a[k] == f;
  }

  /**
   * The manager's demonstration: a domestic and an international flight, then one Economy
   * booking on the first and one Business booking on the second, both confirmed.
   */
  method DemoLedger() returns (system: FlightBookingSystem, booking1: Booking, booking2: Booking)
    ensures system.bookings == [booking1, booking2]
    ensures booking1.bookingId == BookingIdOf(1000)
    ensures booking1.confirmed && booking1.TotalPrice() == 5000.0
    ensures booking2.confirmed && booking2.TotalPrice() == 62500.0
  {
    system := new FlightBookingSystem();
    var domestic := new Flight(Domestic, "AI101", "Delhi", "Mumbai", "10:00", "11:30", 150);
    var international := new Flight(International, "AI301", "Delhi", "New York", "22:00", "06:00", 300);
    system.AddFlight(domestic);
    system.AddFlight(international);
    var john := Passenger("John Doe", "P123456", "+91-9876543210", "john@example.com");
    var jane := Passenger("Jane Smith", "P789012", "+1-555-0123", "jane@example.com");
    assert FirstNumbered(system.flights, "AI101") == 0;
    assert FirstNumbered(system.flights, "AI301") == 1;
    var b1 := system.CreateBooking(john, "AI101", Economy);
    var b2 := system.CreateBooking(jane, "AI301", Business);
    booking1, booking2 := b1, b2;
    var ok1 := booking1.ConfirmBooking();
    var ok2 := booking2.ConfirmBooking();
  }

  /** The demonstration ledger earns 67500, and its first booking is "BK1000". */
  method BookingDemo() returns (firstId: string, revenue: real)
    ensures firstId == "BK1000" && revenue == 67500.0
  {
    var system, booking1, booking2 := DemoLedger();
    FirstBookingId();
    firstId := booking1.bookingId;
    PairRevenue(booking1, booking2);
    revenue := system.TotalRevenue();
  }

  /**
   * The searches of the demonstration on the same catalog: the flight to Mumbai is AI101,
   * one flight costs between 4000 and 6000, and the dearest flight within 10000 is AI101.
   */
  method SearchDemo() returns (toMumbai: string, affordable: int, cheapest: string)
    ensures toMumbai == "AI101" && affordable == 1 && cheapest == "AI101"
  {
    var system := new FlightBookingSystem();
    var domestic := new Flight(Domestic, "AI101", "Delhi", "Mumbai", "10:00", "11:30", 150);
    var international := new Flight(International, "AI301", "Delhi", "New York", "22:00", "06:00", 300);
    system.AddFlight(domestic);
    system.AddFlight(international);
    assert system.flights == [domestic, international];
    var found := system.FindFlightByDestination("Mumbai");
    toMumbai := found.flightNumber;
    assert InPriceRange([international], 4000.0, 6000.0) == [] by {
      assert [international][1..] == [];
    }
    assert [domestic, international][1..] == [international];
    affordable := |system.FindFlightsByPriceRange(4000.0, 6000.0)|;
    var cheap := system.FindCheapestFlight(10000.0);
    cheapest := cheap.flightNumber;
  }
}
