/** The bus service's data: buses, routes and scheduled trips, the tables
    that hold them, the repository queries over the trip table (among them the
    guarded seat-counter update that is the capacity ledger), and the
    response view of a trip with its AC price surcharge. */
module BusCatalog {
  import opened Wrappers
  import opened Calendar
  import Sorting

  datatype Bus = Bus(id: int, busName: string, busNumber: string, busType: string, totalSeats: int)

  datatype Route = Route(
    id: int, fromLocation: string, toLocation: string,
    distanceKm: Option<int>, durationOfTravelMinutes: Option<int>, price: real)

  datatype Schedule = Schedule(
    id: int, busId: int, routeId: int,
    travelDate: Date, departure: Time, arrival: Time, availableSeats: int)

  /** A trip as the schedule endpoint reports it: the trip's own fields with
      its bus's seat count and type and the route's price after the AC
      surcharge. */
  datatype ScheduleView = ScheduleView(
    id: int, busId: int, routeId: int,
    travelDate: Date, departure: Time, arrival: Time, availableSeats: int,
    totalSeats: int, busType: string, price: real)

  /** Which rule a DuplicateResourceException reports (its message). */
  datatype Duplicate = BusNumber | RoutePair | SameEndpoints

  /** The exceptions the bus service raises. */
  datatype CatalogError =
    | ResourceNotFound
    | DuplicateResource(rule: Duplicate)
    | ResourceInUse
    | IllegalState
    | IllegalArgument
    | InvalidOperation
    | ScheduleHasBookings
    | BookingServiceUnavailable

  // ---------------------------------------------------------------------
  // Case-insensitive comparison (ASCII letters).

  function ToLowerChar(c: char): char {
    if 'A' <= c <= 'Z' then (c as int + 32) as char else c
  }

  function ToLower(s: string): string {
    seq(|s|, i requires 0 <= i < |s| => ToLowerChar(s[i]))
  }

  predicate EqualsIgnoreCase(a: string, b: string) {
    ToLower(a) == ToLower(b)
  }

  // ---------------------------------------------------------------------
  // Prices: 40% surcharge on AC buses.

  /** The price in the schedule view: "AC" matched ignoring case. */
  function SchedulePrice(price: real, busType: string): real {
    if EqualsIgnoreCase("AC", busType) then price + price * 0.4 else price
  }

  /** The price in the search view: "AC" matched exactly. */
  function SearchPrice(price: real, busType: string): real {
    if busType == "AC" then price + price * 0.4 else price
  }

  /** A surcharged price is 1.4 times the base price and an unsurcharged one
      is the base price; a positive base price stays positive and is never
      lowered. The two views disagree exactly on a non-zero price for a bus
      type that is "AC" in another letter case, such as "ac". */
  lemma PriceViews(price: real, busType: string)
    ensures SchedulePrice(price, busType) == if EqualsIgnoreCase("AC", busType) then 1.4 * price else price
    ensures SearchPrice(price, busType) == if busType == "AC" then 1.4 * price else price
    ensures price > 0.0 ==> price <= SchedulePrice(price, busType) <= 1.4 * price
    ensures SchedulePrice(price, busType) != SearchPrice(price, busType)
        <==> price != 0.0 && EqualsIgnoreCase("AC", busType) && busType != "AC"
  {
  }

  /** A bus typed "ac" is surcharged in the schedule view and not in search. */
  lemma LowerCaseAcDisagrees(price: real)
    requires price > 0.0
    ensures SchedulePrice(price, "ac") == 1.4 * price
    ensures SearchPrice(price, "ac") == price
  {
    assert ToLower("ac") == ToLower("AC");
  }

  // ---------------------------------------------------------------------
  // The database of the bus service.

  class BusDatabase {
    var buses: map<int, Bus>
    var routes: map<int, Route>
    var schedules: map<int, Schedule>
    /** Identity generators of the three tables. */
    var nextBusId: int
    var nextRouteId: int
    var nextScheduleId: int

    /** Bus numbers are pairwise distinct. */
    ghost predicate UniqueBusNumbers()
      reads this
    {
      forall a, b :: a in buses && b in buses && a != b ==> buses[a].busNumber != buses[b].busNumber
    }

    /** No two routes share their (from, to) pair. */
    ghost predicate UniqueRoutePairs()
      reads this
    {
      forall a, b :: a in routes && b in routes && a != b ==>
        routes[a].fromLocation != routes[b].fromLocation || routes[a].toLocation != routes[b].toLocation
    }

    /** A bus runs at most one trip per travel date. */
    ghost predicate OneTripPerBusAndDay()
      reads this
    {
      forall a, b :: a in schedules && b in schedules && a != b && schedules[a].busId == schedules[b].busId ==>
        schedules[a].travelDate != schedules[b].travelDate
    }

    ghost predicate Valid()
      reads this
    {
      && (forall id :: id in buses ==> buses[id].id == id && id < nextBusId && buses[id].totalSeats >= 1)
      && (forall id :: id in routes ==>
            routes[id].id == id && id < nextRouteId && routes[id].price > 0.0
            && !EqualsIgnoreCase(routes[id].fromLocation, routes[id].toLocation))
      && (forall id :: id in schedules ==>
            schedules[id].id == id && id < nextScheduleId
            && schedules[id].busId in buses && schedules[id].routeId in routes
            && ValidDate(schedules[id].travelDate) && schedules[id].availableSeats >= 0)
      && UniqueBusNumbers()
      && UniqueRoutePairs()
      && OneTripPerBusAndDay()
    }

    constructor ()
      ensures Valid()
      ensures buses == map[] && routes == map[] && schedules == map[]
    {
      buses, routes, schedules := map[], map[], map[];
      nextBusId, nextRouteId, nextScheduleId := 1, 1, 1;
    }

    // -------------------------------------------------------------------
    // Queries over the bus and route tables.

    /** findByBusNumber(...).isPresent() */
    predicate BusNumberTaken(busNumber: string)
      reads this
    {
      exists id :: id in buses && buses[id].busNumber == busNumber
    }

    /** findByFromLocationAndToLocation(...).isPresent(): exact match. */
    predicate RoutePairTaken(fromLocation: string, toLocation: string)
      reads this
    {
      exists id :: id in routes && routes[id].fromLocation == fromLocation && routes[id].toLocation == toLocation
    }

    /** existsByBusIdInSchedules */
    predicate BusInSchedules(busId: int)
      reads this
    {
      exists id :: id in schedules && schedules[id].busId == busId
    }

    /** existsByRouteIdInSchedules */
    predicate RouteInSchedules(routeId: int)
      reads this
    {
      exists id :: id in schedules && schedules[id].routeId == routeId
    }

    // -------------------------------------------------------------------
    // Queries over the trip table.

    /** existsByBusIdAndTravelDate */
    predicate ExistsByBusIdAndTravelDate(busId: int, travelDate: Date)
      reads this
    {
      exists id :: id in schedules && schedules[id].busId == busId && schedules[id].travelDate == travelDate
    }

    /** countById: SELECT COUNT(*) on the primary key. */
    function CountById(scheduleId: int): (n: int)
      reads this
      ensures n == 0 <==> scheduleId !in schedules
      ensures 0 <= n <= 1
    {
      if scheduleId in schedules then 1 else 0
    }

    /** findAvailableSeatsById: no row, no value. */
    function FindAvailableSeatsById(scheduleId: int): (seats: Option<int>)
      reads this
      ensures seats.None? <==> scheduleId !in schedules
      ensures seats.Some? ==> seats.value == schedules[scheduleId].availableSeats
    {
      if scheduleId in schedules then Some(schedules[scheduleId].availableSeats) else None
    }

    /** The row filter of the two search queries, without the date. */
    predicate OnRouteWithSeats(s: Schedule, source: string, destination: string)
      reads this
    {
      s.routeId in routes
      && routes[s.routeId].fromLocation == source
      && routes[s.routeId].toLocation == destination
      && s.availableSeats > 0
    }

    /** findAvailableBuses: the trips of a route on a date with a free seat,
        in no particular order. */
    ghost function FindAvailableBuses(source: string, destination: string, date: Date): set<Schedule>
      reads this
    {
      set id | id in schedules && OnRouteWithSeats(schedules[id], source, destination)
                && schedules[id].travelDate == date :: schedules[id]
    }

    /** findAvailableBusesByRoute: the same filter on every date, ordered by
        travel date, then departure. */
    ghost function FindAvailableBusesByRoute(source: string, destination: string): (r: seq<Schedule>)
      reads this
      ensures Sorting.SortedAsc(r, DepartureKey)
    {
      Sorting.SortAscBy(
        Sorting.SeqOfSet(set id | id in schedules && OnRouteWithSeats(schedules[id], source, destination) :: schedules[id]),
        DepartureKey)
    }

    /** getScheduleById as the booking service receives it: the trip's own
        fields and seat counter, its bus's capacity and type, and the route's
        price with the AC surcharge. In a valid catalog every stored trip is
        found, and its price is positive and at least the route's. */
    function Snapshot(scheduleId: int): (v: Option<ScheduleView>)
      reads this
      ensures v.Some? ==> scheduleId in schedules && v.value.id == schedules[scheduleId].id
      ensures Valid() ==> (v.Some? <==> scheduleId in schedules)
      ensures v.Some? ==>
                var s := schedules[scheduleId];
                && s.busId in buses && s.routeId in routes
                && v.value.travelDate == s.travelDate && v.value.departure == s.departure && v.value.arrival == s.arrival
                && v.value.availableSeats == s.availableSeats
                && v.value.totalSeats == buses[s.busId].totalSeats
                && v.value.price == SchedulePrice(routes[s.routeId].price, buses[s.busId].busType)
      ensures Valid() && v.Some? ==>
                && v.value.totalSeats >= 1
                && 0.0 < routes[schedules[scheduleId].routeId].price <= v.value.price
    {
      if scheduleId in schedules && schedules[scheduleId].busId in buses && schedules[scheduleId].routeId in routes then
        var s := schedules[scheduleId];
        var bus := buses[s.busId];
        Some(ScheduleView(s.id, s.busId, s.routeId, s.travelDate, s.departure, s.arrival, s.availableSeats,
                          bus.totalSeats, bus.busType, SchedulePrice(routes[s.routeId].price, bus.busType)))
      else None
    }

    // -------------------------------------------------------------------
    // The capacity ledger's one write.

    /** updateAvailableSeats (native query): adds `seatChange` to the row's
        counter only when the row exists and the sum is not negative; there is
        no upper bound. Returns the number of rows changed. */
    method UpdateAvailableSeatsRow(scheduleId: int, seatChange: int) returns (updatedRows: int)
      modifies this
      ensures updatedRows == if scheduleId in old(schedules) && old(schedules[scheduleId].availableSeats) + seatChange >= 0 then 1 else 0
      ensures schedules == if updatedRows == 1
        then old(schedules)[scheduleId := old(schedules[scheduleId]).(availableSeats := old(schedules[scheduleId].availableSeats) + seatChange)]
        else old(schedules)
      ensures buses == old(buses) && routes == old(routes)
      ensures nextBusId == old(nextBusId) && nextRouteId == old(nextRouteId) && nextScheduleId == old(nextScheduleId)
    {
      if scheduleId in schedules && schedules[scheduleId].availableSeats + seatChange >= 0 {
        var s := schedules[scheduleId];
        schedules := schedules[scheduleId := s.(availableSeats := s.availableSeats + seatChange)];
        updatedRows := 1;
      } else {
        updatedRows := 0;
      }
    }
  }

  /** The order of the by-route search: travel date, then departure time. */
  function DepartureKey(s: Schedule): int {
    if ValidDate(s.travelDate) then EpochSeconds(DateTime(s.travelDate, s.departure)) else 0
  }

  /** The dated search returns exactly the trips of the by-route search that
      fall on that date; the by-route search lists each matching trip once,
      earliest departure first. */
  lemma SearchesAgree(db: BusDatabase, source: string, destination: string, date: Date)
    ensures forall s ::
              s in db.FindAvailableBuses(source, destination, date)
              <==> s in db.FindAvailableBusesByRoute(source, destination) && s.travelDate == date
    ensures forall s ::
              s in db.FindAvailableBusesByRoute(source, destination) ==>
              s.availableSeats > 0 && db.OnRouteWithSeats(s, source, destination)
  {
    var all := set id | id in db.schedules && db.OnRouteWithSeats(db.schedules[id], source, destination) :: db.schedules[id];
    var listed := Sorting.SeqOfSet(all);
    var r := db.FindAvailableBusesByRoute(source, destination);
    assert multiset(r) == multiset(listed);
    forall s ensures s in r <==> s in all {
      assert s in r <==> s in multiset(r);
      assert s in listed <==> s in multiset(listed);
    }
  }
}
