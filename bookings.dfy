/** The booking service (`BookingServiceImpl`): bookings with their
    passengers and cancellations, booking a trip (fetch the trip, check it,
    take the seats from the bus service's counter, record the booking,
    allocate seat numbers), cancelling with a refund (record the refund, give
    the seats back), and the queries over bookings. The bus service is the
    `BusDatabase` it calls into; its clock is the parameter `now`. */
module Bookings {
  import opened Wrappers
  import opened Calendar
  import opened BusCatalog
  import Schedules
  import SeatAllocator
  import Refund
  import Sorting

  datatype BookingStatus = Confirmed | Cancelled

  /** One passenger of a booking request. */
  datatype PassengerRequest = PassengerRequest(passengerName: string, age: int, gender: string)

  datatype Passenger = Passenger(passengerName: string, age: int, gender: string, seatNumber: int)

  datatype BookingRequest = BookingRequest(scheduleId: int, noOfSeats: int, passengers: seq<PassengerRequest>)

  datatype Booking = Booking(
    id: int, userId: int, scheduleId: int, bookingTime: DateTime,
    totalAmount: real, noOfSeats: int, status: BookingStatus, passengers: seq<Passenger>)

  datatype Cancellation = Cancellation(bookingId: int, userId: int, cancelDate: DateTime, refundAmount: real)

  /** What a successful cancellation reports. */
  datatype CancellationResponse = CancellationResponse(
    bookingId: int, userId: int, cancelDate: DateTime, refundAmount: real, refundPercent: real)

  /** Why a CancellationNotAllowedException is raised. */
  datatype Refusal = AlreadyCancelled | TooCloseToDeparture

  /** The exceptions the booking service raises; `RemoteError` is a failure
      reported by the bus service. */
  datatype BookingError =
    | ScheduleNotFound
    | InsufficientSeats
    | IllegalArgument
    | BookingNotFound
    | UnauthorizedAccess
    | CancellationNotAllowed(reason: Refusal)
    | RemoteError(cause: CatalogError)

  // ---------------------------------------------------------------------
  // Seats held by bookings.

  /** The seat numbers a list of passengers hold. */
  function SeatNumbers(ps: seq<Passenger>): set<int> {
    set p | p in ps :: p.seatNumber
  }

  /** The seat numbers a booking's passengers hold. */
  function SeatsOf(b: Booking): set<int> {
    SeatNumbers(b.passengers)
  }

  predicate DistinctSeats(ps: seq<Passenger>) {
    forall i, j :: 0 <= i < j < |ps| ==> ps[i].seatNumber != ps[j].seatNumber
  }

  /** findOccupiedSeatsByScheduleId: the seats of the passengers of the
      trip's CONFIRMED bookings. */
  function Occupied(bookings: map<int, Booking>, scheduleId: int): set<int> {
    set id, s | id in bookings && bookings[id].status == Confirmed && bookings[id].scheduleId == scheduleId
                && s in SeatsOf(bookings[id]) :: s
  }

  /** Two confirmed bookings of the same trip never share a seat. */
  ghost predicate SeatsExclusive(bookings: map<int, Booking>) {
    forall a, b :: a in bookings && b in bookings && a != b
                   && bookings[a].status == Confirmed && bookings[b].status == Confirmed
                   && bookings[a].scheduleId == bookings[b].scheduleId ==>
      SeatsOf(bookings[a]) !! SeatsOf(bookings[b])
  }

  /** A stored booking: one passenger per seat, each on a different seat, and
      a positive amount. */
  ghost predicate WellFormed(b: Booking) {
    && b.noOfSeats >= 1
    && |b.passengers| == b.noOfSeats
    && DistinctSeats(b.passengers)
    && b.totalAmount > 0.0
    && ValidDate(b.bookingTime.date)
  }

  /** The booking service's tables. Cancellations are keyed by the booking
      they cancel (one per booking). */
  class BookingStore {
    var bookings: map<int, Booking>
    var cancellations: map<int, Cancellation>
    var nextBookingId: int

    ghost predicate Valid()
      reads this
    {
      && (forall id :: id in bookings ==> bookings[id].id == id && id < nextBookingId && WellFormed(bookings[id]))
      && (forall id :: id in cancellations ==>
            && id in bookings && bookings[id].status == Cancelled
            && cancellations[id].bookingId == id && cancellations[id].userId == bookings[id].userId)
      && (forall id :: id in bookings && bookings[id].status == Cancelled ==> id in cancellations)
      && SeatsExclusive(bookings)
    }

    constructor ()
      ensures Valid()
      ensures bookings == map[] && cancellations == map[]
    {
      bookings, cancellations, nextBookingId := map[], map[], 1;
    }

    /** hasActiveBookingsByScheduleId (existsByScheduleIdAndStatus with
        CONFIRMED). */
    predicate HasActiveBookings(scheduleId: int)
      reads this
    {
      exists id :: id in bookings && bookings[id].scheduleId == scheduleId && bookings[id].status == Confirmed
    }
  }

  /** A trip has active bookings exactly when some seat of it is occupied:
      every confirmed booking holds at least one seat. */
  lemma ActiveIffOccupied(store: BookingStore, scheduleId: int)
    requires store.Valid()
    ensures store.HasActiveBookings(scheduleId) <==> Occupied(store.bookings, scheduleId) != {}
  {
    if store.HasActiveBookings(scheduleId) {
      var id :| id in store.bookings && store.bookings[id].scheduleId == scheduleId && store.bookings[id].status == Confirmed;
      var b := store.bookings[id];
      assert b.passengers[0] in b.passengers;
      assert b.passengers[0].seatNumber in SeatsOf(b);
      assert b.passengers[0].seatNumber in Occupied(store.bookings, scheduleId);
    }
  }

  /** Saving a booking that holds no seat, because it has no passengers yet
      or is cancelled, occupies no further seat. */
  lemma OccupiedIgnoresSeatlessBooking(bookings: map<int, Booking>, b: Booking, scheduleId: int)
    requires b.id !in bookings
    requires b.passengers == [] || b.status == Cancelled
    ensures Occupied(bookings[b.id := b], scheduleId) == Occupied(bookings, scheduleId)
  {
    var after := bookings[b.id := b];
    forall s | s in Occupied(after, scheduleId) ensures s in Occupied(bookings, scheduleId) {
      var id :| id in after && after[id].status == Confirmed && after[id].scheduleId == scheduleId && s in SeatsOf(after[id]);
      assert id != b.id && id in bookings;
    }
    forall s | s in Occupied(bookings, scheduleId) ensures s in Occupied(after, scheduleId) {
      var id :| id in bookings && bookings[id].status == Confirmed && bookings[id].scheduleId == scheduleId && s in SeatsOf(bookings[id]);
      assert id in after && after[id] == bookings[id];
    }
  }

  /** Adding a confirmed booking whose seats are all unoccupied on its trip
      keeps the seats of confirmed bookings exclusive. */
  lemma AddBookingKeepsSeatsExclusive(bookings: map<int, Booking>, b: Booking)
    requires SeatsExclusive(bookings)
    requires b.id !in bookings
    requires SeatsOf(b) !! Occupied(bookings, b.scheduleId)
    ensures SeatsExclusive(bookings[b.id := b])
  {
    var after := bookings[b.id := b];
    forall x, y | x in after && y in after && x != y
                  && after[x].status == Confirmed && after[y].status == Confirmed
                  && after[x].scheduleId == after[y].scheduleId
      ensures SeatsOf(after[x]) !! SeatsOf(after[y])
    {
      if x == b.id || y == b.id {
        var other := if x == b.id then y else x;
        forall s | s in SeatsOf(after[other]) ensures s in Occupied(bookings, b.scheduleId) {
        }
      }
    }
  }

  /** Turning one booking from confirmed to cancelled keeps the seats of the
      remaining confirmed bookings exclusive. */
  lemma CancelKeepsSeatsExclusive(bookings: map<int, Booking>, id: int)
    requires SeatsExclusive(bookings)
    requires id in bookings
    ensures SeatsExclusive(bookings[id := bookings[id].(status := Cancelled)])
  {
  }

  /** Cancelling a confirmed booking frees exactly its own seats on its trip:
      no other confirmed booking holds any of them. */
  lemma {:induction false} CancelFreesSeats(bookings: map<int, Booking>, id: int)
    requires SeatsExclusive(bookings)
    requires id in bookings && bookings[id].status == Confirmed
    ensures Occupied(bookings[id := bookings[id].(status := Cancelled)], bookings[id].scheduleId) ==
            Occupied(bookings, bookings[id].scheduleId) - SeatsOf(bookings[id])
  {
    var b := bookings[id];
    var after := bookings[id := b.(status := Cancelled)];
    forall s | s in Occupied(after, b.scheduleId)
      ensures s in Occupied(bookings, b.scheduleId) - SeatsOf(b)
    {
      var k :| k in after && after[k].status == Confirmed && after[k].scheduleId == b.scheduleId && s in SeatsOf(after[k]);
      assert k != id && after[k] == bookings[k];
    }
    forall s | s in Occupied(bookings, b.scheduleId) - SeatsOf(b)
      ensures s in Occupied(after, b.scheduleId)
    {
      var k :| k in bookings && bookings[k].status == Confirmed && bookings[k].scheduleId == b.scheduleId && s in SeatsOf(bookings[k]);
      assert k != id && after[k] == bookings[k];
    }
  }

  // ---------------------------------------------------------------------
  // Booking a trip.

  /** The checks of createBooking that precede any change, in their order:
      the trip must be found, have enough seats left, and the request must
      name one passenger per seat. */
  function CreateRefusal(snapshot: Option<ScheduleView>, req: BookingRequest): Option<BookingError> {
    if snapshot.None? then Some(ScheduleNotFound)
    else if snapshot.value.availableSeats < req.noOfSeats then Some(InsufficientSeats)
    else if |req.passengers| != req.noOfSeats then Some(BookingError.IllegalArgument)
    else None
  }

  /** A request that passes the checks against the trip as the bus service
      reports it is one the bus service's counter accepts: the decrease
      leaves the counter non-negative, so the adjustment cannot fail. */
  lemma AdmittedRequestFitsCounter(db: BusDatabase, req: BookingRequest)
    requires CreateRefusal(db.Snapshot(req.scheduleId), req).None?
    ensures req.scheduleId in db.schedules
    ensures db.schedules[req.scheduleId].availableSeats - req.noOfSeats >= 0
    ensures |req.passengers| == req.noOfSeats
  {
  }

  function PassengerOf(p: PassengerRequest, seatNumber: int): Passenger {
    Passenger(p.passengerName, p.age, p.gender, seatNumber)
  }

  /** Passenger i of the request on the i-th seat. */
  function Seated(ps: seq<PassengerRequest>, seats: seq<int>): (passengers: seq<Passenger>)
    requires |seats| == |ps|
    ensures |passengers| == |ps|
    ensures forall i :: 0 <= i < |ps| ==> passengers[i] == PassengerOf(ps[i], seats[i])
  {
    seq(|ps|, i requires 0 <= i < |ps| => PassengerOf(ps[i], seats[i]))
  }

  /** Seating passengers on distinct seats gives each a different seat, and
      the seats they hold are exactly the seats given. */
  lemma SeatedSeats(ps: seq<PassengerRequest>, seats: seq<int>)
    requires |seats| == |ps|
    requires SeatAllocator.StrictlyAscending(seats)
    ensures DistinctSeats(Seated(ps, seats))
    ensures forall s :: s in SeatNumbers(Seated(ps, seats)) <==> s in seats
  {
    var passengers := Seated(ps, seats);
    forall s | s in seats ensures exists p :: p in passengers && p.seatNumber == s {
      var k :| 0 <= k < |seats| && seats[k] == s;
      assert passengers[k] in passengers;
    }
  }

  /** Lines 69-89 of createBooking: save the new CONFIRMED booking, allocate
      the lowest free seat numbers of the trip (the seats of its confirmed
      bookings are taken), and seat passenger i on the i-th of them. A failed
      allocation rolls the booking back; its identity value stays consumed. */
  method SaveAndSeat(store: BookingStore, userId: int, req: BookingRequest, totalSeats: int, totalAmount: real, now: DateTime)
    returns (r: Result<Booking, BookingError>)
    requires store.Valid()
    requires req.noOfSeats > 0 && |req.passengers| == req.noOfSeats
    requires totalAmount > 0.0
    requires ValidDate(now.date)
    modifies store
    ensures store.Valid()
    ensures store.nextBookingId == old(store.nextBookingId) + 1
    ensures store.cancellations == old(store.cancellations)
    ensures r.Ok? <==> SeatAllocator.AllocateSeats(totalSeats, old(Occupied(store.bookings, req.scheduleId)), req.noOfSeats).Ok?
    ensures r.Err? ==> r == Err(InsufficientSeats) && store.bookings == old(store.bookings)
    ensures r.Ok? ==>
              && r.value.id == old(store.nextBookingId) && r.value.id !in old(store.bookings)
              && store.bookings == old(store.bookings)[r.value.id := r.value]
              && r.value.userId == userId && r.value.scheduleId == req.scheduleId && r.value.bookingTime == now
              && r.value.status == Confirmed && r.value.noOfSeats == req.noOfSeats && r.value.totalAmount == totalAmount
              && var seats := SeatAllocator.AllocateSeats(totalSeats, old(Occupied(store.bookings, req.scheduleId)), req.noOfSeats);
                 seats.Ok? && |seats.value| == req.noOfSeats && r.value.passengers == Seated(req.passengers, seats.value)
  {
    var saved := store.bookings;
    var booking := Booking(store.nextBookingId, userId, req.scheduleId, now, totalAmount, req.noOfSeats, Confirmed, []);
    store.bookings := store.bookings[booking.id := booking];
    store.nextBookingId := store.nextBookingId + 1;
    var occupied := Occupied(store.bookings, req.scheduleId);
    OccupiedIgnoresSeatlessBooking(saved, booking, req.scheduleId);
    var allocation := SeatAllocator.GenerateAvailableSeats(totalSeats, occupied, req.noOfSeats);
    match allocation {
      case Err(_) =>
        store.bookings := saved;
        r := Err(InsufficientSeats);
      case Ok(seats) =>
        SeatAllocator.AllocationSound(totalSeats, occupied, req.noOfSeats);
        var passengers: seq<Passenger> := [];
        var i := 0;
        while i < |req.passengers|
          invariant 0 <= i <= |req.passengers|
          invariant |passengers| == i
          invariant forall k :: 0 <= k < i ==> passengers[k] == PassengerOf(req.passengers[k], seats[k])
        {
          passengers := passengers + [PassengerOf(req.passengers[i], seats[i])];
          i := i + 1;
        }
        assert passengers == Seated(req.passengers, seats);
        SeatedSeats(req.passengers, seats);
        booking := booking.(passengers := passengers);
        AddBookingKeepsSeatsExclusive(saved, booking);
        store.bookings := saved[booking.id := booking];
        r := Ok(booking);
    }
  }

  /** createBooking. After the checks the bus service's counter is decreased
      by the number of seats before the booking is saved and seated; nothing
      gives those seats back when seating fails. The amount is the price the
      trip view reports (with its AC surcharge) times the number of seats. */
  method CreateBooking(store: BookingStore, db: BusDatabase, userId: int, req: BookingRequest, now: DateTime)
    returns (r: Result<Booking, BookingError>)
    requires store.Valid() && db.Valid()
    requires req.noOfSeats > 0
    requires ValidDate(now.date)
    modifies store, db
    ensures store.Valid() && db.Valid()
    ensures CreateRefusal(old(db.Snapshot(req.scheduleId)), req).Some? ==>
              && r == Err(CreateRefusal(old(db.Snapshot(req.scheduleId)), req).value)
              && db.schedules == old(db.schedules)
              && store.bookings == old(store.bookings) && store.nextBookingId == old(store.nextBookingId)
    ensures CreateRefusal(old(db.Snapshot(req.scheduleId)), req).None? ==>
              && req.scheduleId in old(db.schedules)
              && db.schedules == old(db.schedules)[req.scheduleId :=
                   old(db.schedules[req.scheduleId]).(availableSeats := old(db.schedules[req.scheduleId].availableSeats) - req.noOfSeats)]
              && store.nextBookingId == old(store.nextBookingId) + 1
              && (r.Ok? <==> SeatAllocator.AllocateSeats(old(db.Snapshot(req.scheduleId)).value.totalSeats,
                                                          old(Occupied(store.bookings, req.scheduleId)), req.noOfSeats).Ok?)
              && (r.Err? ==> r == Err(InsufficientSeats))
    ensures r.Err? ==> store.bookings == old(store.bookings)
    ensures r.Ok? ==>
              && r.value.id == old(store.nextBookingId) && r.value.id !in old(store.bookings)
              && store.bookings == old(store.bookings)[r.value.id := r.value]
              && r.value.userId == userId && r.value.scheduleId == req.scheduleId && r.value.bookingTime == now
              && r.value.status == Confirmed && r.value.noOfSeats == req.noOfSeats
              && old(db.Snapshot(req.scheduleId)).Some?
              && r.value.totalAmount == old(db.Snapshot(req.scheduleId)).value.price * (req.noOfSeats as real)
              && |req.passengers| == req.noOfSeats
              && var seats := SeatAllocator.AllocateSeats(old(db.Snapshot(req.scheduleId)).value.totalSeats,
                                                          old(Occupied(store.bookings, req.scheduleId)), req.noOfSeats);
                 seats.Ok? && |seats.value| == req.noOfSeats && r.value.passengers == Seated(req.passengers, seats.value)
    ensures store.cancellations == old(store.cancellations)
    ensures db.buses == old(db.buses) && db.routes == old(db.routes)
    ensures db.nextBusId == old(db.nextBusId) && db.nextRouteId == old(db.nextRouteId)
    ensures db.nextScheduleId == old(db.nextScheduleId)
  {
    var snapshot := db.Snapshot(req.scheduleId);
    if snapshot.None? {
      return Err(ScheduleNotFound);
    }
    var schedule := snapshot.value;
    if schedule.availableSeats < req.noOfSeats {
      return Err(InsufficientSeats);
    }
    if |req.passengers| != req.noOfSeats {
      return Err(BookingError.IllegalArgument);
    }
    var totalAmount := schedule.price * (req.noOfSeats as real);
    PriceViews(db.routes[schedule.routeId].price, schedule.busType);
    var adjusted := Schedules.UpdateAvailableSeats(db, req.scheduleId, -req.noOfSeats);
    match adjusted {
      case Err(e) =>
        r := Err(RemoteError(e));
      case Ok(_) =>
        r := SaveAndSeat(store, userId, req, schedule.totalSeats, totalAmount, now);
    }
  }

  // ---------------------------------------------------------------------
  // Cancelling a booking.

  /** The outcome of cancelBooking's checks, in their order: the booking must
      exist, belong to the requester and not be cancelled already, its trip
      must be found, and departure must be at least two whole hours away.
      The value is the refund. */
  function CancelDecision(booking: Option<Booking>, userId: int, snapshot: Option<ScheduleView>, now: DateTime)
    : Result<real, BookingError>
    requires ValidDate(now.date)
    requires snapshot.Some? ==> ValidDate(snapshot.value.travelDate)
  {
    if booking.None? then Err(BookingNotFound)
    else if booking.value.userId != userId then Err(UnauthorizedAccess)
    else if booking.value.status == Cancelled then Err(CancellationNotAllowed(AlreadyCancelled))
    else if snapshot.None? then Err(ScheduleNotFound)
    else
      match Refund.CalculateRefundAmount(booking.value.totalAmount,
                                         DateTime(snapshot.value.travelDate, snapshot.value.departure), now)
      case Ok(amount) => Ok(amount)
      case Err(_) => Err(CancellationNotAllowed(TooCloseToDeparture))
  }

  /** The same decision read from the two services' tables. */
  function CancelDecisionIn(store: BookingStore, db: BusDatabase, bookingId: int, userId: int, now: DateTime)
    : Result<real, BookingError>
    reads store, db
    requires db.Valid()
    requires ValidDate(now.date)
  {
    if bookingId in store.bookings then
      CancelDecision(Some(store.bookings[bookingId]), userId, db.Snapshot(store.bookings[bookingId].scheduleId), now)
    else
      CancelDecision(None, userId, None, now)
  }

  /** The owner of a confirmed booking on a trip that still exists may cancel
      exactly when departure is at least two hours (7200 seconds) away; the
      refund is then between a quarter and nine tenths of the amount paid. A
      cancelled booking cannot be cancelled again. */
  lemma CancelDecisionWindow(b: Booking, userId: int, schedule: ScheduleView, now: DateTime)
    requires ValidDate(now.date) && ValidDate(schedule.travelDate)
    requires b.totalAmount >= 0.0
    ensures var departure := DateTime(schedule.travelDate, schedule.departure);
      b.userId == userId && b.status == Confirmed ==>
        && (CancelDecision(Some(b), userId, Some(schedule), now).Ok? <==>
              EpochSeconds(departure) - EpochSeconds(now) >= 2 * 3600)
        && (CancelDecision(Some(b), userId, Some(schedule), now).Ok? ==>
              b.totalAmount * 0.25 <= CancelDecision(Some(b), userId, Some(schedule), now).value <= b.totalAmount * 0.90)
    ensures b.status == Cancelled && b.userId == userId ==>
              CancelDecision(Some(b), userId, Some(schedule), now) == Err(CancellationNotAllowed(AlreadyCancelled))
  {
    Refund.RefundWindow(b.totalAmount, DateTime(schedule.travelDate, schedule.departure), now);
  }

  /** cancelBooking. On success the booking becomes CANCELLED, exactly one
      cancellation carrying the refund is recorded, and the seats are given
      back to the bus service's counter. Every refusal changes nothing. */
  method CancelBooking(store: BookingStore, db: BusDatabase, bookingId: int, userId: int, now: DateTime)
    returns (r: Result<CancellationResponse, BookingError>)
    requires store.Valid() && db.Valid()
    requires ValidDate(now.date)
    modifies store, db
    ensures store.Valid() && db.Valid()
    ensures r.Err? <==> old(CancelDecisionIn(store, db, bookingId, userId, now)).Err?
    ensures r.Err? ==>
              && r.error == old(CancelDecisionIn(store, db, bookingId, userId, now)).error
              && store.bookings == old(store.bookings) && store.cancellations == old(store.cancellations)
              && db.schedules == old(db.schedules)
    ensures r.Ok? ==>
              && bookingId in old(store.bookings) && bookingId !in old(store.cancellations)
              && var b := old(store.bookings[bookingId]);
                 var refund := old(CancelDecisionIn(store, db, bookingId, userId, now)).value;
                 && store.bookings == old(store.bookings)[bookingId := b.(status := Cancelled)]
                 && store.cancellations == old(store.cancellations)[bookingId := Cancellation(bookingId, userId, now, refund)]
                 && b.scheduleId in old(db.schedules)
                 && db.schedules == old(db.schedules)[b.scheduleId :=
                      old(db.schedules[b.scheduleId]).(availableSeats := old(db.schedules[b.scheduleId].availableSeats) + b.noOfSeats)]
                 && r.value == CancellationResponse(bookingId, userId, now, refund, r.value.refundPercent)
                 && Refund.RefundPercent(refund, b.totalAmount) == Some(r.value.refundPercent)
                 && refund == b.totalAmount * r.value.refundPercent / 100.0
                 && r.value.refundPercent in {90.0, 75.0, 50.0, 25.0}
    ensures store.nextBookingId == old(store.nextBookingId)
    ensures db.buses == old(db.buses) && db.routes == old(db.routes)
    ensures db.nextBusId == old(db.nextBusId) && db.nextRouteId == old(db.nextRouteId)
    ensures db.nextScheduleId == old(db.nextScheduleId)
  {
    if bookingId !in store.bookings {
      return Err(BookingNotFound);
    }
    var booking := store.bookings[bookingId];
    if booking.userId != userId {
      return Err(UnauthorizedAccess);
    }
    if booking.status == Cancelled {
      return Err(CancellationNotAllowed(AlreadyCancelled));
    }
    var snapshot := db.Snapshot(booking.scheduleId);
    if snapshot.None? {
      return Err(ScheduleNotFound);
    }
    var schedule := snapshot.value;
    var departure := DateTime(schedule.travelDate, schedule.departure);
    var refund := Refund.CalculateRefundAmount(booking.totalAmount, departure, now);
    if refund.Err? {
      return Err(CancellationNotAllowed(TooCloseToDeparture));
    }
    var refundAmount := refund.value;

    // The status change and the cancellation are saved before the seats are
    // given back, in one transaction: if giving the seats back fails, both
    // are rolled back. They are written here once it has succeeded.
    var restored := Schedules.UpdateAvailableSeats(db, booking.scheduleId, booking.noOfSeats);
    match restored {
      case Err(e) =>
        r := Err(RemoteError(e));
      case Ok(_) =>
        RecordCancellation(store, booking, now, refundAmount);
        var response := RefundResponse(bookingId, userId, now, booking.totalAmount, refundAmount,
                                       HoursBetween(now, departure));
        r := Ok(response);
    }
  }

  /** The booking service's writes of an accepted cancellation: the booking
      turns CANCELLED and its one cancellation record carries the refund. */
  method RecordCancellation(store: BookingStore, booking: Booking, now: DateTime, refundAmount: real)
    requires store.Valid()
    requires booking.id in store.bookings && store.bookings[booking.id] == booking
    requires booking.status == Confirmed
    modifies store
    ensures store.Valid()
    ensures store.bookings == old(store.bookings)[booking.id := booking.(status := Cancelled)]
    ensures store.cancellations ==
              old(store.cancellations)[booking.id := Cancellation(booking.id, booking.userId, now, refundAmount)]
    ensures store.nextBookingId == old(store.nextBookingId)
  {
    CancelKeepsSeatsExclusive(store.bookings, booking.id);
    store.bookings := store.bookings[booking.id := booking.(status := Cancelled)];
    store.cancellations := store.cancellations[booking.id := Cancellation(booking.id, booking.userId, now, refundAmount)];
  }

  /** The response of an accepted cancellation: its refund percent is the
      refund over the amount paid, rounded as cancelBooking rounds it, and it
      is exactly the tier's percent. */
  method RefundResponse(bookingId: int, userId: int, now: DateTime, totalAmount: real, refundAmount: real, hours: int)
    returns (response: CancellationResponse)
    requires totalAmount > 0.0
    requires Refund.RefundForHours(totalAmount, hours) == Ok(refundAmount)
    ensures response == CancellationResponse(bookingId, userId, now, refundAmount, response.refundPercent)
    ensures Refund.RefundPercent(refundAmount, totalAmount) == Some(response.refundPercent)
    ensures refundAmount == totalAmount * response.refundPercent / 100.0
    ensures response.refundPercent in {90.0, 75.0, 50.0, 25.0}
  {
    Refund.RefundPercentOfTier(totalAmount, hours);
    var percent := Refund.RefundPercent(refundAmount, totalAmount);
    response := CancellationResponse(bookingId, userId, now, refundAmount, percent.value);
  }

  // ---------------------------------------------------------------------
  // Queries.

  /** isUpcomingJourney: a later travel date, or the same date with a
      departure strictly after the current time of day. */
  predicate IsUpcomingJourney(travelDate: Date, departure: Time, currentDate: Date, currentTime: Time) {
    if DateBefore(currentDate, travelDate) then true
    else if travelDate == currentDate then departure > currentTime
    else false
  }

  /** A journey is upcoming exactly when its departure instant is strictly
      after now. */
  lemma UpcomingMeansDepartureAfterNow(travelDate: Date, departure: Time, now: DateTime)
    requires ValidDate(travelDate) && ValidDate(now.date)
    ensures IsUpcomingJourney(travelDate, departure, now.date, now.time)
        <==> DateTimeBefore(now, DateTime(travelDate, departure))
    ensures IsUpcomingJourney(travelDate, departure, now.date, now.time)
        <==> EpochSeconds(now) < EpochSeconds(DateTime(travelDate, departure))
  {
    EpochSecondsOrder(now, DateTime(travelDate, departure));
  }

  /** A booking together with its trip as the bus service reports it. */
  datatype Journey = Journey(booking: Booking, schedule: ScheduleView)

  /** Journeys are listed by departure (travel date, then time). */
  function JourneyKey(j: Journey): int {
    if ValidDate(j.schedule.travelDate) then EpochSeconds(DateTime(j.schedule.travelDate, j.schedule.departure)) else 0
  }

  /** The journey a stored booking contributes to the user's upcoming list:
      the user's confirmed booking whose trip is found and upcoming. */
  function UpcomingJourneyOf(store: BookingStore, db: BusDatabase, userId: int, now: DateTime, id: int): Option<Journey>
    reads store, db
  {
    if id in store.bookings && store.bookings[id].userId == userId && store.bookings[id].status == Confirmed then
      match db.Snapshot(store.bookings[id].scheduleId)
      case Some(schedule) =>
        if IsUpcomingJourney(schedule.travelDate, schedule.departure, now.date, now.time)
        then Some(Journey(store.bookings[id], schedule))
        else None
      case None => None
    else None
  }


  /** Some confirmed booking of the user whose trip the bus service cannot
      find: the fetch for it answers 404, and the Feign client, which has no
      fallback, throws. */
  predicate ConfirmedTripMissing(store: BookingStore, db: BusDatabase, userId: int)
    reads store, db
  {
    exists id :: id in store.bookings && store.bookings[id].userId == userId && store.bookings[id].status == Confirmed
                 && db.Snapshot(store.bookings[id].scheduleId).None?
  }

  /** getUpcomingJourneys: the user's confirmed bookings, each with its trip,
      kept when the trip is upcoming, latest departure first. Each booking's
      trip is fetched; one that is not found fails the whole listing. */
  method GetUpcomingJourneys(store: BookingStore, db: BusDatabase, userId: int, now: DateTime)
    returns (r: Result<seq<Journey>, BookingError>)
    requires store.Valid()
    ensures r.Err? <==> ConfirmedTripMissing(store, db, userId)
    ensures r.Err? ==> r.error == ScheduleNotFound
    ensures r.Ok? ==> forall j :: j in r.value ==> UpcomingJourneyOf(store, db, userId, now, j.booking.id) == Some(j)
    ensures r.Ok? ==> forall id :: UpcomingJourneyOf(store, db, userId, now, id).Some? ==>
                        UpcomingJourneyOf(store, db, userId, now, id).value in r.value
    ensures r.Ok? ==> forall j :: j in r.value ==> multiset(r.value)[j] == 1
    ensures r.Ok? ==> Sorting.SortedDesc(r.value, JourneyKey)
  {
    r := CollectUpcomingJourneys(store, db, userId, now);
    if r.Ok? {
      var journeys := Sorting.SortDescBy(r.value, JourneyKey);
      Sorting.SortDescByMeaning(r.value, JourneyKey);
      r := Ok(journeys);
    }
  }

  /** The loop of getUpcomingJourneys, before the final sort: one journey per
      confirmed booking of the user whose trip is upcoming. */
  method CollectUpcomingJourneys(store: BookingStore, db: BusDatabase, userId: int, now: DateTime)
    returns (r: Result<seq<Journey>, BookingError>)
    requires store.Valid()
    ensures r.Err? <==> ConfirmedTripMissing(store, db, userId)
    ensures r.Err? ==> r.error == ScheduleNotFound
    ensures r.Ok? ==> forall j :: j in r.value ==> UpcomingJourneyOf(store, db, userId, now, j.booking.id) == Some(j)
    ensures r.Ok? ==> forall id :: UpcomingJourneyOf(store, db, userId, now, id).Some? ==>
                        UpcomingJourneyOf(store, db, userId, now, id).value in r.value
    ensures r.Ok? ==> forall j :: j in r.value ==> multiset(r.value)[j] == 1
  {
    var rows := set id | id in store.bookings && store.bookings[id].userId == userId && store.bookings[id].status == Confirmed;
    var upcoming: seq<Journey> := [];
    ghost var visited: set<int> := {};
    while rows != {}
      invariant rows !! visited
      invariant rows + visited == set id | id in store.bookings && store.bookings[id].userId == userId && store.bookings[id].status == Confirmed
      invariant forall id :: id in visited ==> db.Snapshot(store.bookings[id].scheduleId).Some?
      invariant forall j :: j in upcoming ==>
                  j.booking.id in visited && UpcomingJourneyOf(store, db, userId, now, j.booking.id) == Some(j)
      invariant forall id :: id in visited && UpcomingJourneyOf(store, db, userId, now, id).Some? ==>
                  UpcomingJourneyOf(store, db, userId, now, id).value in upcoming
      invariant forall j :: j in upcoming ==> multiset(upcoming)[j] == 1
      decreases rows
    {
      var row := Sorting.Pick(rows);
      var booking := store.bookings[row];
      var schedule := db.Snapshot(booking.scheduleId);
      if schedule.None? {
        return Err(ScheduleNotFound);
      }
      if IsUpcomingJourney(schedule.value.travelDate, schedule.value.departure, now.date, now.time) {
        var journey := Journey(booking, schedule.value);
        assert journey !in upcoming;
        assert multiset(upcoming + [journey]) == multiset(upcoming) + multiset{journey};
        upcoming := upcoming + [journey];
      }
      rows, visited := rows - {row}, visited + {row};
    }
    r := Ok(upcoming);
  }

  /** Bookings are listed by booking time. */
  function BookingTimeKey(b: Booking): int {
    if ValidDate(b.bookingTime.date) then EpochSeconds(b.bookingTime) else 0
  }

  /** Some booking among `rows` whose trip the bus service cannot find. */
  predicate TripMissing(db: BusDatabase, rows: set<Booking>)
    reads db
  {
    exists b :: b in rows && db.Snapshot(b.scheduleId).None?
  }

  /** A listing of bookings, each shown with its trip: it fails when one
      trip cannot be fetched, and otherwise lists every booking once, latest
      booking time first. */
  ghost function Listing(db: BusDatabase, rows: set<Booking>): (r: Result<seq<Booking>, BookingError>)
    reads db
    ensures r.Err? <==> TripMissing(db, rows)
    ensures r.Err? ==> r.error == ScheduleNotFound
    ensures r.Ok? ==> forall b :: b in r.value <==> b in rows
    ensures r.Ok? ==> forall b :: b in r.value ==> multiset(r.value)[b] == 1
    ensures r.Ok? ==> |r.value| == |rows|
    ensures r.Ok? ==> Sorting.SortedDesc(r.value, BookingTimeKey)
  {
    if TripMissing(db, rows) then Err(ScheduleNotFound)
    else
      var unordered := Sorting.SeqOfSet(rows);
      Sorting.SortDescByMeaning(unordered, BookingTimeKey);
      var sorted := Sorting.SortDescBy(unordered, BookingTimeKey);
      assert multiset(sorted) == multiset(unordered);
      Ok(sorted)
  }

  /** getAllBookings: every booking, latest booking time first. */
  ghost function AllBookings(store: BookingStore, db: BusDatabase): (r: Result<seq<Booking>, BookingError>)
    reads store, db
    ensures r.Err? <==> TripMissing(db, store.bookings.Values)
    ensures r.Ok? ==> forall b :: b in r.value <==> b in store.bookings.Values
    ensures r.Ok? ==> forall b :: b in r.value ==> multiset(r.value)[b] == 1
    ensures r.Ok? ==> Sorting.SortedDesc(r.value, BookingTimeKey)
  {
    Listing(db, store.bookings.Values)
  }

  /** getUserBookings: the user's bookings, latest booking time first. */
  ghost function UserBookings(store: BookingStore, db: BusDatabase, userId: int): (r: Result<seq<Booking>, BookingError>)
    reads store, db
    ensures r.Err? <==> TripMissing(db, set b | b in store.bookings.Values && b.userId == userId)
    ensures r.Ok? ==> forall b :: b in r.value <==> b in store.bookings.Values && b.userId == userId
    ensures r.Ok? ==> forall b :: b in r.value ==> multiset(r.value)[b] == 1
    ensures r.Ok? ==> Sorting.SortedDesc(r.value, BookingTimeKey)
  {
    Listing(db, set b | b in store.bookings.Values && b.userId == userId)
  }

  /** When the full listing succeeds, the user's listing succeeds too and is
      the full list restricted to that user; the full list has one entry per
      stored booking. */
  lemma UserBookingsAreAllBookingsOfUser(store: BookingStore, db: BusDatabase, userId: int)
    ensures AllBookings(store, db).Ok? ==>
              && UserBookings(store, db, userId).Ok?
              && (forall b :: b in UserBookings(store, db, userId).value <==>
                                b in AllBookings(store, db).value && b.userId == userId)
              && |AllBookings(store, db).value| == |store.bookings.Values|
  {
    var mine := set b | b in store.bookings.Values && b.userId == userId;
    if TripMissing(db, mine) {
      var b :| b in mine && db.Snapshot(b.scheduleId).None?;
      assert b in store.bookings.Values;
    }
  }
}
