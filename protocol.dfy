/** The seat-inventory protocol across the two services: the booking service
    holds bookings and seat numbers, the bus service holds each trip's
    available-seat counter, and every booking or cancellation adjusts that
    counter remotely. The members here run the services' operations one after
    another and state what the whole exchange guarantees. */
module Protocol {
  import opened Wrappers
  import opened Calendar
  import opened BusCatalog
  import opened Bookings
  import Schedules

  /** deleteSchedule with the booking service answering its question: the
      trip is removed exactly when it exists and no confirmed booking holds
      a seat on it; otherwise nothing changes. */
  method DeleteScheduleAskingBookings(store: BookingStore, db: BusDatabase, id: int)
    returns (r: Result<(), CatalogError>)
    requires store.Valid() && db.Valid()
    modifies db
    ensures db.Valid()
    ensures r.Ok? <==> id in old(db.schedules) && Occupied(store.bookings, id) == {}
    ensures r.Err? ==> r.error == (if id in old(db.schedules) then ScheduleHasBookings else ResourceNotFound)
    ensures db.schedules == if r.Ok? then old(db.schedules) - {id} else old(db.schedules)
  {
    ActiveIffOccupied(store, id);
    r := Schedules.DeleteSchedule(db, id, Schedules.Reply(200, Some(store.HasActiveBookings(id))));
  }

  /** A booking followed by its owner's cancellation. The cancellation is
      accepted exactly when departure is at least two hours after it, and an
      accepted one returns the trip's counter and its occupied seats to what
      they were before the booking; only the cancelled booking and its
      cancellation record remain. */
  method BookThenCancel(store: BookingStore, db: BusDatabase, userId: int, req: BookingRequest,
                        bookedAt: DateTime, cancelAt: DateTime)
    returns (booked: Result<Booking, BookingError>, cancelled: Option<Result<CancellationResponse, BookingError>>)
    requires store.Valid() && db.Valid()
    requires req.noOfSeats > 0
    requires ValidDate(bookedAt.date) && ValidDate(cancelAt.date)
    modifies store, db
    ensures store.Valid() && db.Valid()
    ensures cancelled.Some? <==> booked.Ok?
    ensures booked.Ok? ==>
              && old(db.Snapshot(req.scheduleId)).Some?
              && var trip := old(db.Snapshot(req.scheduleId)).value;
                 (cancelled.value.Ok? <==>
                    EpochSeconds(DateTime(trip.travelDate, trip.departure)) - EpochSeconds(cancelAt) >= 2 * 3600)
    ensures booked.Ok? && cancelled.value.Ok? ==>
              && db.schedules == old(db.schedules)
              && Occupied(store.bookings, req.scheduleId) == old(Occupied(store.bookings, req.scheduleId))
              && store.bookings == old(store.bookings)[booked.value.id := booked.value.(status := Cancelled)]
              && booked.value.id in store.cancellations
              && store.cancellations[booked.value.id].refundAmount <= booked.value.totalAmount * 0.90
  {
    ghost var bookings0, schedules0 := store.bookings, db.schedules;
    booked := BookSeats(store, db, userId, req, bookedAt);
    if booked.Err? {
      return booked, None;
    }
    var b := booked.value;
    ghost var bookings1, schedules1 := store.bookings, db.schedules;
    var response := CancelOwnBooking(store, db, b, cancelAt);
    cancelled := Some(response);
    if response.Ok? {
      CounterRoundTrip(schedules0, schedules1, db.schedules, b.scheduleId, b.noOfSeats);
      assert bookings0[b.id := b][b.id := b.(status := Cancelled)] == bookings0[b.id := b.(status := Cancelled)];
      OccupiedIgnoresSeatlessBooking(bookings0, b.(status := Cancelled), req.scheduleId);
    }
  }

  /** createBooking as the exchange above needs it: a booking is new, owned
      by the requester and confirmed, it lowers the counter of its trip by
      its seats, and the bus service reports the trip's departure unchanged. */
  method BookSeats(store: BookingStore, db: BusDatabase, userId: int, req: BookingRequest, bookedAt: DateTime)
    returns (r: Result<Booking, BookingError>)
    requires store.Valid() && db.Valid()
    requires req.noOfSeats > 0
    requires ValidDate(bookedAt.date)
    modifies store, db
    ensures store.Valid() && db.Valid()
    ensures r.Ok? ==>
              && old(db.Snapshot(req.scheduleId)).Some?
              && var b := r.value;
                 && b.id !in old(store.bookings) && store.bookings == old(store.bookings)[b.id := b]
                 && b.userId == userId && b.status == Confirmed && b.scheduleId == req.scheduleId
                 && b.scheduleId in old(db.schedules)
                 && db.schedules == old(db.schedules)[b.scheduleId :=
                      old(db.schedules[b.scheduleId]).(availableSeats := old(db.schedules[b.scheduleId].availableSeats) - b.noOfSeats)]
                 && db.Snapshot(b.scheduleId).Some?
                 && db.Snapshot(b.scheduleId).value.travelDate == old(db.Snapshot(req.scheduleId)).value.travelDate
                 && db.Snapshot(b.scheduleId).value.departure == old(db.Snapshot(req.scheduleId)).value.departure
  {
    r := CreateBooking(store, db, userId, req, bookedAt);
  }

  /** Lowering a trip's counter by n and raising it by n restores the table. */
  lemma CounterRoundTrip(schedules: map<int, Schedule>, lowered: map<int, Schedule>, restored: map<int, Schedule>,
                         id: int, n: int)
    requires id in schedules
    requires lowered == schedules[id := schedules[id].(availableSeats := schedules[id].availableSeats - n)]
    requires restored == lowered[id := lowered[id].(availableSeats := lowered[id].availableSeats + n)]
    ensures restored == schedules
  {
    assert lowered[id].(availableSeats := lowered[id].availableSeats + n) == schedules[id];
  }

  /** cancelBooking by the owner of a confirmed booking on a trip that still
      exists: accepted exactly when departure is at least two hours away. */
  method CancelOwnBooking(store: BookingStore, db: BusDatabase, b: Booking, cancelAt: DateTime)
    returns (r: Result<CancellationResponse, BookingError>)
    requires store.Valid() && db.Valid()
    requires ValidDate(cancelAt.date)
    requires b.id in store.bookings && store.bookings[b.id] == b && b.status == Confirmed
    requires db.Snapshot(b.scheduleId).Some?
    modifies store, db
    ensures store.Valid() && db.Valid()
    ensures var trip := old(db.Snapshot(b.scheduleId)).value;
            r.Ok? <==> EpochSeconds(DateTime(trip.travelDate, trip.departure)) - EpochSeconds(cancelAt) >= 2 * 3600
    ensures r.Ok? ==>
              && b.scheduleId in old(db.schedules)
              && db.schedules == old(db.schedules)[b.scheduleId :=
                   old(db.schedules[b.scheduleId]).(availableSeats := old(db.schedules[b.scheduleId].availableSeats) + b.noOfSeats)]
              && store.bookings == old(store.bookings)[b.id := b.(status := Cancelled)]
              && b.id in store.cancellations
              && store.cancellations[b.id].refundAmount <= b.totalAmount * 0.90
  {
    CancelDecisionWindow(b, b.userId, db.Snapshot(b.scheduleId).value, cancelAt);
    r := CancelBooking(store, db, b.id, b.userId, cancelAt);
  }

  /** A booking can be cancelled once: a second cancellation by its owner is
      refused as already cancelled and changes nothing. */
  method CancelTwice(store: BookingStore, db: BusDatabase, bookingId: int, userId: int,
                     first: DateTime, second: DateTime)
    returns (r1: Result<CancellationResponse, BookingError>, r2: Result<CancellationResponse, BookingError>)
    requires store.Valid() && db.Valid()
    requires ValidDate(first.date) && ValidDate(second.date)
    modifies store, db
    ensures store.Valid() && db.Valid()
    ensures r1.Ok? ==> r2 == Err(CancellationNotAllowed(AlreadyCancelled))
    ensures r1.Ok? ==>
              && bookingId in store.bookings && store.bookings[bookingId].status == Cancelled
              && store.cancellations == old(store.cancellations)[bookingId := Cancellation(bookingId, userId, first, r1.value.refundAmount)]
  {
    r1 := CancelBooking(store, db, bookingId, userId, first);
    r2 := CancelBooking(store, db, bookingId, userId, second);
  }
}
