/** The trip operations of the bus service (`ScheduleServiceImpl`): create
    and update with the one-trip-per-bus-and-day guard, the seat-counter
    adjustment the booking service calls, and deletion guarded by the
    booking service's answer about active bookings. */
module Schedules {
  import opened Wrappers
  import opened Calendar
  import opened BusCatalog

  /** A create or update request. Request validation demands a seat count
      that is not negative; a missing count is `None`. */
  datatype ScheduleRequest = ScheduleRequest(
    busId: int, routeId: int, travelDate: Date, departure: Time, arrival: Time,
    availableSeats: Option<int>)

  /** What the request's seat count becomes: a missing or zero count is the
      bus's full capacity. */
  function InitialSeats(req: ScheduleRequest, bus: Bus): (seats: int)
    ensures req.availableSeats.None? || req.availableSeats.value == 0 ==> seats == bus.totalSeats
    ensures req.availableSeats.Some? && req.availableSeats.value != 0 ==> seats == req.availableSeats.value
  {
    if req.availableSeats.None? || req.availableSeats.value == 0 then bus.totalSeats else req.availableSeats.value
  }

  /** The stored trip a request describes, given its bus. */
  function ScheduleOf(id: int, req: ScheduleRequest, bus: Bus): (s: Schedule)
    ensures s.id == id && s.busId == req.busId && s.routeId == req.routeId && s.travelDate == req.travelDate
    ensures s.availableSeats == InitialSeats(req, bus)
  {
    Schedule(id, req.busId, req.routeId, req.travelDate, req.departure, req.arrival, InitialSeats(req, bus))
  }

  /** createSchedule: a bus already running on that date is refused with
      IllegalState; then an unknown bus, then an unknown route, is not found;
      on success one trip with a fresh id is added. */
  method CreateSchedule(db: BusDatabase, req: ScheduleRequest) returns (r: Result<Schedule, CatalogError>)
    requires db.Valid()
    requires ValidDate(req.travelDate)
    requires req.availableSeats.Some? ==> req.availableSeats.value >= 0
    modifies db
    ensures db.Valid()
    ensures old(db.ExistsByBusIdAndTravelDate(req.busId, req.travelDate)) ==> r == Err(IllegalState)
    ensures !old(db.ExistsByBusIdAndTravelDate(req.busId, req.travelDate))
            && (req.busId !in old(db.buses) || req.routeId !in old(db.routes)) ==>
              r == Err(ResourceNotFound)
    ensures r.Ok? <==> && !old(db.ExistsByBusIdAndTravelDate(req.busId, req.travelDate))
                       && req.busId in old(db.buses) && req.routeId in old(db.routes)
    ensures r.Err? ==> db.schedules == old(db.schedules) && db.nextScheduleId == old(db.nextScheduleId)
    ensures r.Ok? ==> && r.value == ScheduleOf(old(db.nextScheduleId), req, old(db.buses[req.busId]))
                      && r.value.id !in old(db.schedules)
                      && db.schedules == old(db.schedules)[r.value.id := r.value]
                      && db.nextScheduleId == old(db.nextScheduleId) + 1
    ensures db.buses == old(db.buses) && db.routes == old(db.routes)
    ensures db.nextBusId == old(db.nextBusId) && db.nextRouteId == old(db.nextRouteId)
  {
    if db.ExistsByBusIdAndTravelDate(req.busId, req.travelDate) {
      r := Err(IllegalState);
    } else if req.busId !in db.buses {
      r := Err(ResourceNotFound);
    } else if req.routeId !in db.routes {
      r := Err(ResourceNotFound);
    } else {
      var schedule := ScheduleOf(db.nextScheduleId, req, db.buses[req.busId]);
      db.schedules := db.schedules[schedule.id := schedule];
      db.nextScheduleId := db.nextScheduleId + 1;
      r := Ok(schedule);
    }
  }

  /** updateSchedule: the same-bus-and-date check runs first and does not
      exclude the trip being updated; then an unknown trip, bus or route is
      not found; on success the id is kept, every other field is
      overwritten, and a missing or zero seat count resets the counter to the
      bus's capacity whatever has been sold. */
  method UpdateSchedule(db: BusDatabase, id: int, req: ScheduleRequest) returns (r: Result<Schedule, CatalogError>)
    requires db.Valid()
    requires ValidDate(req.travelDate)
    requires req.availableSeats.Some? ==> req.availableSeats.value >= 0
    modifies db
    ensures db.Valid()
    ensures old(db.ExistsByBusIdAndTravelDate(req.busId, req.travelDate)) ==> r == Err(IllegalState)
    ensures !old(db.ExistsByBusIdAndTravelDate(req.busId, req.travelDate))
            && (id !in old(db.schedules) || req.busId !in old(db.buses) || req.routeId !in old(db.routes)) ==>
              r == Err(ResourceNotFound)
    ensures r.Ok? <==> && !old(db.ExistsByBusIdAndTravelDate(req.busId, req.travelDate))
                       && id in old(db.schedules) && req.busId in old(db.buses) && req.routeId in old(db.routes)
    ensures r.Err? ==> db.schedules == old(db.schedules)
    ensures r.Ok? ==> && r.value == ScheduleOf(id, req, old(db.buses[req.busId]))
                      && db.schedules == old(db.schedules)[id := r.value]
    ensures db.buses == old(db.buses) && db.routes == old(db.routes)
    ensures db.nextBusId == old(db.nextBusId) && db.nextRouteId == old(db.nextRouteId)
    ensures db.nextScheduleId == old(db.nextScheduleId)
  {
    if db.ExistsByBusIdAndTravelDate(req.busId, req.travelDate) {
      r := Err(IllegalState);
    } else if id !in db.schedules {
      r := Err(ResourceNotFound);
    } else if req.busId !in db.buses {
      r := Err(ResourceNotFound);
    } else if req.routeId !in db.routes {
      r := Err(ResourceNotFound);
    } else {
      var schedule := ScheduleOf(id, req, db.buses[req.busId]);
      db.schedules := db.schedules[id := schedule];
      r := Ok(schedule);
    }
  }

  /** An update that keeps a trip's bus and travel date finds that pair
      already taken (by the trip itself), so it is always refused. */
  lemma UpdateKeepingBusAndDateIsTaken(db: BusDatabase, id: int, req: ScheduleRequest)
    requires id in db.schedules
    requires req.busId == db.schedules[id].busId && req.travelDate == db.schedules[id].travelDate
    ensures db.ExistsByBusIdAndTravelDate(req.busId, req.travelDate)
  {
    assert db.schedules[id].busId == req.busId;
  }

  // ---------------------------------------------------------------------
  // The capacity ledger.

  /** updateAvailableSeats: an unknown trip is not found; a decrease below
      zero is refused with IllegalArgument (checked before the update and
      again by the guarded update itself); otherwise the counter moves by
      `seatChange`, with no upper bound. Only that counter changes. */
  method UpdateAvailableSeats(db: BusDatabase, scheduleId: int, seatChange: int) returns (r: Result<(), CatalogError>)
    requires db.Valid()
    modifies db
    ensures db.Valid()
    ensures scheduleId !in old(db.schedules) ==> r == Err(ResourceNotFound)
    ensures scheduleId in old(db.schedules) && old(db.schedules[scheduleId].availableSeats) + seatChange < 0 ==>
              r == Err(IllegalArgument)
    ensures r.Ok? <==> scheduleId in old(db.schedules) && old(db.schedules[scheduleId].availableSeats) + seatChange >= 0
    ensures r.Ok? ==>
              db.schedules == old(db.schedules)[scheduleId := old(db.schedules[scheduleId]).(availableSeats := old(db.schedules[scheduleId].availableSeats) + seatChange)]
    ensures r.Err? ==> db.schedules == old(db.schedules)
    ensures db.buses == old(db.buses) && db.routes == old(db.routes)
    ensures db.nextBusId == old(db.nextBusId) && db.nextRouteId == old(db.nextRouteId)
    ensures db.nextScheduleId == old(db.nextScheduleId)
  {
    var count := db.CountById(scheduleId);
    if count == 0 {
      return Err(ResourceNotFound);
    }
    if seatChange < 0 {
      var current := db.FindAvailableSeatsById(scheduleId);
      if current.None? {
        return Err(ResourceNotFound);
      }
      if current.value + seatChange < 0 {
        return Err(IllegalArgument);
      }
    }
    var updatedRows := db.UpdateAvailableSeatsRow(scheduleId, seatChange);
    var after := db.FindAvailableSeatsById(scheduleId);
    if updatedRows == 0 {
      r := Err(FailedUpdateError(after, seatChange));
    } else {
      r := Ok(());
    }
  }

  /** Why a guarded update changed no row, read from the counter afterwards:
      the trip is gone, the change would make the counter negative, or
      neither (InvalidOperation). */
  function FailedUpdateError(current: Option<int>, seatChange: int): (e: CatalogError)
    ensures current.None? <==> e == ResourceNotFound
    ensures e == IllegalArgument <==> current.Some? && current.value + seatChange < 0
  {
    match current
    case None => ResourceNotFound
    case Some(seats) => if seats + seatChange < 0 then IllegalArgument else InvalidOperation
  }

  // ---------------------------------------------------------------------
  // Deletion guarded by the booking service.

  /** The booking service's answer to "does this trip have active bookings":
      an HTTP reply with a status and a possibly missing body, a 404, or any
      other remote failure. */
  datatype BookingsAnswer =
    | Reply(status: int, body: Option<bool>)
    | RemoteNotFound
    | RemoteFailure

  predicate Is2xx(status: int) {
    200 <= status <= 299
  }

  /** checkForActiveBookings */
  function CheckForActiveBookings(answer: BookingsAnswer): Result<bool, CatalogError> {
    match answer
    case Reply(status, body) =>
      if Is2xx(status) && body.Some? then Ok(body.value) else Ok(false)
    case RemoteNotFound => Ok(false)
    case RemoteFailure => Err(BookingServiceUnavailable)
  }

  /** Active bookings are reported only by a successful reply whose body is
      true; a 404, a non-2xx reply or an empty body count as none; any other
      remote failure is an error. */
  lemma CheckForActiveBookingsCases(answer: BookingsAnswer)
    ensures CheckForActiveBookings(answer) == Ok(true)
        <==> answer.Reply? && Is2xx(answer.status) && answer.body == Some(true)
    ensures CheckForActiveBookings(answer).Err?
        <==> answer == RemoteFailure
    ensures CheckForActiveBookings(answer).Err? ==> CheckForActiveBookings(answer).error == BookingServiceUnavailable
  {
  }

  /** deleteSchedule: an unknown trip is not found; if the booking service
      cannot be asked, deletion fails; if it reports active bookings the trip
      is kept; otherwise exactly that trip is removed. */
  method DeleteSchedule(db: BusDatabase, id: int, answer: BookingsAnswer) returns (r: Result<(), CatalogError>)
    requires db.Valid()
    modifies db
    ensures db.Valid()
    ensures id !in old(db.schedules) ==> r == Err(ResourceNotFound)
    ensures id in old(db.schedules) && CheckForActiveBookings(answer).Err? ==> r == Err(BookingServiceUnavailable)
    ensures id in old(db.schedules) && CheckForActiveBookings(answer) == Ok(true) ==> r == Err(ScheduleHasBookings)
    ensures r.Ok? <==> id in old(db.schedules) && CheckForActiveBookings(answer) == Ok(false)
    ensures db.schedules == if r.Ok? then old(db.schedules) - {id} else old(db.schedules)
    ensures db.buses == old(db.buses) && db.routes == old(db.routes)
    ensures db.nextBusId == old(db.nextBusId) && db.nextRouteId == old(db.nextRouteId)
    ensures db.nextScheduleId == old(db.nextScheduleId)
  {
    if id !in db.schedules {
      return Err(ResourceNotFound);
    }
    var hasActiveBookings := CheckForActiveBookings(answer);
    if hasActiveBookings.Err? {
      return Err(hasActiveBookings.error);
    }
    if hasActiveBookings.value {
      return Err(ScheduleHasBookings);
    }
    db.schedules := db.schedules - {id};
    r := Ok(());
  }
}
