/**
 * Flights, passengers and bookings of the flight-booking engine, with the fare tables:
 * the two flight kinds and their base fares, the seat-class multipliers, the standard and
 * discount pricing strategies and the factory that builds a flight from a type tag.
 */
module Flights {

  datatype Option<T> = None | Some(value: T)

  /** The two flight subtypes; each fixes a base fare. */
  datatype FlightKind = Domestic | International

  datatype SeatClass = Economy | Business | First

  /** A passenger is only ever read, so it is a value. */
  datatype Passenger = Passenger(name: string, passportNumber: string, contactNumber: string, email: string)

  /** The base fare of a flight kind: 5000 for a domestic, 25000 for an international flight. */
  function BasePrice(kind: FlightKind): (p: real)
    ensures p > 0.0
  {
    match kind
    case Domestic => 5000.0
    case International => 25000.0
  }

  /** The seat-class multiplier a booking prices itself with. */
  function Multiplier(sc: SeatClass): (m: real)
    ensures 1.0 <= m <= 4.0
  {
    match sc
    case Economy => 1.0
    case Business => 2.5
    case First => 4.0
  }

  /** The price of a booking: the flight's base fare times the class multiplier. */
  function TicketPrice(kind: FlightKind, sc: SeatClass): (p: real)
    ensures BasePrice(kind) <= p <= 4.0 * BasePrice(kind)
  {
    BasePrice(kind) * Multiplier(sc)
  }

  /** The standard pricing strategy: 1.0 unless the class is Business (2.5) or First (4.0). */
  function StandardPrice(basePrice: real, sc: SeatClass): (p: real)
    ensures p == basePrice * Multiplier(sc)
  {
    var multiplier := if sc == Business then 2.5 else if sc == First then 4.0 else 1.0;
    basePrice * multiplier
  }

  /** The discount strategy: 0.8 unless the class is Business (2.0) or First (3.2). */
  function DiscountPrice(basePrice: real, sc: SeatClass): (p: real)
    ensures p == 0.8 * StandardPrice(basePrice, sc)
  {
    var multiplier := if sc == Business then 2.0 else if sc == First then 3.2 else 0.8;
    basePrice * multiplier
  }

  /** The standard strategy prices every flight exactly as a booking does. */
  lemma StandardIsBookingPrice(kind: FlightKind, sc: SeatClass)
    ensures StandardPrice(BasePrice(kind), sc) == TicketPrice(kind, sc)
  {
  }

  /** On the base fare 5000, Business costs 12500 under the standard and 10000 under the discount strategy. */
  lemma PricingDemo()
    ensures StandardPrice(5000.0, Business) == 12500.0
    ensures DiscountPrice(5000.0, Business) == 10000.0
  {
  }

  /** A flight: fixed route, times and kind, and a counter of the seats still free. */
  class Flight {
    const flightNumber: string
    const departureCity: string
    const arrivalCity: string
    const departureTime: string
    const arrivalTime: string
    const kind: FlightKind
    const totalSeats: int
    var availableSeats: int

    /** The seat counter stays between 0 and the capacity. */
    ghost predicate Valid()
      reads this
    {
      0 <= availableSeats <= totalSeats
    }

    /** A new flight has every seat free. */
    constructor (kind: FlightKind, fn: string, dep: string, arr: string, depTime: string, arrTime: string, seats: int)
      ensures this.kind == kind && flightNumber == fn && departureCity == dep && arrivalCity == arr
      ensures departureTime == depTime && arrivalTime == arrTime
      ensures totalSeats == seats && availableSeats == seats
      ensures seats >= 0 ==> Valid()
    {
      this.kind := kind;
      flightNumber := fn;
      departureCity := dep;
      arrivalCity := arr;
      departureTime := depTime;
      arrivalTime := arrTime;
      totalSeats := seats;
      availableSeats := seats;
    }

    /** The base fare of the flight's kind. */
    function Price(): (p: real)
      ensures p > 0.0
      ensures p == 5000.0 <==> kind == Domestic
    {
      BasePrice(kind)
    }

    /** Takes one seat when one is free; reports whether it did. */
    method BookSeat() returns (ok: bool)
      modifies this
      ensures ok <==> old(availableSeats) > 0
      ensures availableSeats == if ok then old(availableSeats) - 1 else old(availableSeats)
      ensures old(Valid()) ==> Valid()
    {
      if availableSeats > 0 {
        availableSeats := availableSeats - 1;
        return true;
      }
      return false;
    }
  }

  /** A booking of one passenger on one flight, priced when it is made, confirmed later. */
  class Booking {
    const bookingId: string
    const flight: Flight
    const passenger: Passenger
    const seatClass: SeatClass
    var confirmed: bool

    /** A new booking is pending. */
    constructor (id: string, f: Flight, p: Passenger, sc: SeatClass)
      ensures bookingId == id && flight == f && passenger == p && seatClass == sc
      ensures !confirmed
    {
      bookingId := id;
      flight := f;
      passenger := p;
      seatClass := sc;
      confirmed := false;
    }

    /** The price fixed at construction; it depends only on data that never changes. */
    function TotalPrice(): (p: real)
      ensures flight.Price() <= p <= 4.0 * flight.Price()
    {
      TicketPrice(flight.kind, seatClass)
    }

    /**
     * Books a seat on the flight and marks the booking confirmed when that succeeds. It does
     * not look at `confirmed`: confirming twice takes a second seat if one is free.
     */
    method ConfirmBooking() returns (ok: bool)
      modifies this, flight
      ensures ok <==> old(flight.availableSeats) > 0
      ensures flight.availableSeats == if ok then old(flight.availableSeats) - 1 else old(flight.availableSeats)
      ensures confirmed == (old(confirmed) || ok)
      ensures old(flight.Valid()) ==> flight.Valid()
    {
      ok := flight.BookSeat();
      if ok {
        confirmed := true;
      }
    }

    /**
     * Confirmation that refuses a booking already confirmed: it succeeds exactly when the
     * booking is pending and the flight has a free seat, and a refusal changes nothing.
     */
    method ConfirmBookingChecked() returns (ok: bool)
      modifies this, flight
      ensures ok <==> !old(confirmed) && old(flight.availableSeats) > 0
      ensures flight.availableSeats == if ok then old(flight.availableSeats) - 1 else old(flight.availableSeats)
      ensures confirmed == (old(confirmed) || ok)
      ensures old(flight.Valid()) ==> flight.Valid()
    {
      if confirmed {
        return false;
      }
      ok := ConfirmBooking();
    }
  }

  /** Confirming one booking twice on a flight with two free seats takes both seats. */
  method ConfirmTwiceDemo() returns (first: bool, second: bool, left: int)
    ensures first && second && left == 0
  {
    var f := new Flight(Domestic, "AI101", "Delhi", "Mumbai", "10:00", "11:30", 2);
    var b := new Booking("BK1000", f, Passenger("John Doe", "P123456", "+91-9876543210", "john@example.com"), Economy);
    first := b.ConfirmBooking();
    second := b.ConfirmBooking();
    left := f.availableSeats;
  }

  /** With the check, the second confirmation of the same booking is refused and keeps its seat. */
  method ConfirmTwiceCheckedDemo() returns (first: bool, second: bool, left: int)
    ensures first && !second && left == 1
  {
    var f := new Flight(Domestic, "AI101", "Delhi", "Mumbai", "10:00", "11:30", 2);
    var b := new Booking("BK1000", f, Passenger("John Doe", "P123456", "+91-9876543210", "john@example.com"), Economy);
    first := b.ConfirmBookingChecked();
    second := b.ConfirmBookingChecked();
    left := f.availableSeats;
  }

  /** The flight kind a factory tag names: only "Domestic" and "International" are known. */
  function KindOfTag(tag: string): (r: Option<FlightKind>)
    ensures r == Some(Domestic) <==> tag == "Domestic"
    ensures r == Some(International) <==> tag == "International"
    ensures r == None <==> tag != "Domestic" && tag != "International"
  {
    if tag == "Domestic" then Some(Domestic)
    else if tag == "International" then Some(International)
    else None
  }

  /** The flight factory: a new flight of the tagged kind, or `null` for an unknown tag. */
  method CreateFlight(tag: string, fn: string, dep: string, arr: string, depTime: string, arrTime: string, seats: int)
    returns (f: Flight?)
    ensures f == null <==> KindOfTag(tag) == None
    ensures f != null ==> fresh(f) && Some(f.kind) == KindOfTag(tag) && f.flightNumber == fn
    ensures f != null ==> f.departureCity == dep && f.arrivalCity == arr && f.departureTime == depTime
    ensures f != null ==> f.arrivalTime == arrTime && f.totalSeats == seats && f.availableSeats == seats
  {
    match KindOfTag(tag)
    case Some(kind) =>
      f := new Flight(kind, fn, dep, arr, depTime, arrTime, seats);
    case None =>
      f := null;
  }
}
