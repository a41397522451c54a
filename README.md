# Bus reservation: seat inventory

This project models the seat inventory of a Spring bus-reservation system. Two
services share it:

- **The bus service** keeps buses, routes and trips (schedules). Each trip has
  an available-seat counter, which a guarded SQL update adjusts.
- **The booking service** keeps bookings, passengers with their seat numbers,
  and cancellations. It calls the bus service over HTTP to read a trip and to
  adjust its counter.

The model also covers the web client's `getArrivalDate`, which names the day
a trip arrives.

Modules, one per part of the source:

- `Wrappers`: Option and Result.
- `Calendar`: Gregorian dates and times of day, day numbers, and seconds since
  an epoch. Java's `LocalDateTime` comparisons and `ChronoUnit.HOURS.between`
  are stated on these.
- `ArrivalDate`: `getArrivalDate` from `ProfileContext.jsx`, with a parser that
  shows its `YYYY-MM-DD` output round-trips.
- `Sorting`: the orderings the services apply (latest first, `ORDER BY ... ASC`)
  and the rows of a query without `ORDER BY`.
- `SeatAllocator`: `generateAvailableSeats`. It is a loop, proved against the
  function that specifies it.
- `Refund`: `calculateRefundAmount` and the reported refund percent.
- `BusCatalog`: the bus service's tables as a class `BusDatabase`. Its methods
  update the tables in place. It also holds the repository queries, the guarded
  counter update and the two price views.
- `Buses`, `Routes`, `Schedules`: the bus service's operations on those tables.
- `Bookings`: the booking service's tables as a class `BookingStore`, with
  `createBooking`, `cancelBooking` and the queries.
- `Protocol`: the two services' operations run one after another, and what the
  exchange guarantees.

How the two services interact:

- **Transactions.** Both services run in `@Transactional` methods. When one
  throws, its own tables roll back, but a change already made through the
  other service persists.
- **A booking that fails after the counter update.** `createBooking` lowers
  the trip's counter before it allocates seats. When allocation then fails, the
  booking is undone but the counter stays lowered. `Bookings.CreateBooking`
  states this.
- **Cancellation.** The model writes `cancelBooking`'s local changes after the
  remote counter update. Under the rollback this is equivalent to the source's
  order, because a failed remote call undoes the local writes.
- **A failed allocation consumes an id.** The rolled-back booking's identifier
  is not reused: `nextBookingId` still advances.

## Model

| member | source | states |
|---|---|---|
| Calendar.DaysInMonth | Frontend/user-interface-complete/src/context/ProfileContext.jsx:40-55 | Gregorian month lengths: 28 to 31 days, under 30 only in February, 29 exactly in a leap February. |
| Calendar.NextDay | Frontend/user-interface-complete/src/context/ProfileContext.jsx:44-46 | The day after a valid date is a valid, later date; 31 December rolls over to 1 January of the next year. |
| Calendar.NextDayIsImmediateSuccessor | Frontend/user-interface-complete/src/context/ProfileContext.jsx:44-46 | No valid date lies strictly between a date and its next day. |
| Calendar.DayNumberOrder | Backend/BookingService/src/main/java/com/reservation/BookingService/Model/DAO/serviceImpl/BookingServiceImpl.java:230-233 | Day numbers order valid dates exactly as the calendar does, and equal day numbers mean equal dates. |
| Calendar.DayNumberNextDay | Frontend/user-interface-complete/src/context/ProfileContext.jsx:44-46 | The next day's day number is one more. |
| Calendar.EpochSecondsOrder | Backend/BookingService/src/main/java/com/reservation/BookingService/Model/DAO/serviceImpl/BookingServiceImpl.java:226-234 | Seconds since the epoch order date-times exactly as LocalDateTime.compareTo does. |
| Calendar.WholeHours | Backend/BookingService/src/main/java/com/reservation/BookingService/Model/DAO/serviceImpl/BookingServiceImpl.java:282 | A signed second count becomes whole hours truncated toward zero, as ChronoUnit.HOURS.between does. |
| Calendar.HoursAtLeast | Backend/BookingService/src/main/java/com/reservation/BookingService/Model/DAO/serviceImpl/BookingServiceImpl.java:282-291 | At least h whole hours (h >= 1) lie between two instants exactly when h * 3600 seconds do. |
| ArrivalDate.ArrivalDayRollover | Frontend/user-interface-complete/src/context/ProfileContext.jsx:40-46 | The arrival day is the travel day when arrival is later than departure and the next calendar day otherwise; it is always valid and never earlier. |
| ArrivalDate.NatDigits | Frontend/user-interface-complete/src/context/ProfileContext.jsx:50 | A year prints as a non-empty string of decimal digits. |
| ArrivalDate.NatDigitsValue | Frontend/user-interface-complete/src/context/ProfileContext.jsx:50 | The digits printed for a number read back as that number. |
| ArrivalDate.YearStringParses | Frontend/user-interface-complete/src/context/ProfileContext.jsx:50 | A printed year, negative or not, parses back to the same year. |
| ArrivalDate.Pad2Value | Frontend/user-interface-complete/src/context/ProfileContext.jsx:51-52 | padStart(2, '0') on a month or day gives two digits that read back as the number. |
| ArrivalDate.FormatDateRoundTrip | Frontend/user-interface-complete/src/context/ProfileContext.jsx:50-54 | The YYYY-MM-DD string of a valid date parses back to that date. |
| ArrivalDate.GetArrivalDateMeaning | Frontend/user-interface-complete/src/context/ProfileContext.jsx:40-55 | getArrivalDate names the travel date when arrival is after departure and the next day when arrival is at or before departure. |
| ArrivalDate.NewYearRollover | Frontend/user-interface-complete/src/context/ProfileContext.jsx:44-46 | An overnight trip on 31 December arrives on 1 January of the following year. |
| SeatAllocator.GenerateAvailableSeats | Backend/BookingService/src/main/java/com/reservation/BookingService/Model/DAO/serviceImpl/BookingServiceImpl.java:253-276 | The loop returns exactly the allocation AllocateSeats specifies, including the early stop and the shortage error. |
| SeatAllocator.FreeUpToPrefix | Backend/BookingService/src/main/java/com/reservation/BookingService/Model/DAO/serviceImpl/BookingServiceImpl.java:260-267 | The free seats up to m are a prefix of the free seats up to any n >= m. |
| SeatAllocator.FreeUpToMeaning | Backend/BookingService/src/main/java/com/reservation/BookingService/Model/DAO/serviceImpl/BookingServiceImpl.java:260-262 | The scan lists, in strictly ascending order, exactly the seats 1..n that are not occupied. |
| SeatAllocator.AllocationSound | Backend/BookingService/src/main/java/com/reservation/BookingService/Model/DAO/serviceImpl/BookingServiceImpl.java:253-276 | A successful allocation of r > 0 seats has exactly r distinct seats, in ascending order, each within 1..totalSeats and unoccupied. |
| SeatAllocator.AllocationPicksLowest | Backend/BookingService/src/main/java/com/reservation/BookingService/Model/DAO/serviceImpl/BookingServiceImpl.java:260-265 | Every unoccupied seat at or below the highest seat handed out is itself handed out: the lowest free seats are chosen. |
| SeatAllocator.FreeUpToLength | Backend/BookingService/src/main/java/com/reservation/BookingService/Model/DAO/serviceImpl/BookingServiceImpl.java:260-262 | The number of seats the scan finds is the number of free seats in 1..n. |
| SeatAllocator.AllocationFailsIff | Backend/BookingService/src/main/java/com/reservation/BookingService/Model/DAO/serviceImpl/BookingServiceImpl.java:271-273 | Allocation fails exactly when seats are requested and fewer seats are free than requested. |
| Refund.RefundFractionTiers | Backend/BookingService/src/main/java/com/reservation/BookingService/Model/DAO/serviceImpl/BookingServiceImpl.java:284-295 | The refund tiers are 90/75/50/25 percent; none exists below two whole hours, and more hours never give less. |
| Refund.RefundWindow | Backend/BookingService/src/main/java/com/reservation/BookingService/Model/DAO/serviceImpl/BookingServiceImpl.java:278-298 | calculateRefundAmount refuses exactly when departure is under 7200 seconds away; otherwise the refund lies between a quarter and nine tenths of the amount, and 24 hours or more give nine tenths. |
| Refund.RefundReferenceValues | Backend/BookingService/src/main/java/com/reservation/BookingService/Model/DAO/serviceImpl/BookingServiceImpl.java:284-297 | For an amount of 1000 the refunds at 30, 20, 8, 3 and 1 hours are 900, 750, 500, 250 and a refusal. |
| Refund.RoundHalfUp | Backend/BookingService/src/main/java/com/reservation/BookingService/Model/DAO/serviceImpl/BookingServiceImpl.java:333-334 | HALF_UP rounding of a non-negative value lands within half a unit of it. |
| Refund.RefundPercentAccuracy | Backend/BookingService/src/main/java/com/reservation/BookingService/Model/DAO/serviceImpl/BookingServiceImpl.java:331-335 | The reported percent is within half a percentage point of refund / total * 100. |
| Refund.RefundPercentOfTier | Backend/BookingService/src/main/java/com/reservation/BookingService/Model/DAO/serviceImpl/BookingServiceImpl.java:331-335 | For an accepted cancellation the reported percent is the tier itself (90, 75, 50 or 25), and the refund is exactly that percent of the total. |
| Sorting.Insert | Backend/BookingService/src/main/java/com/reservation/BookingService/Model/DAO/serviceImpl/BookingServiceImpl.java:142-143 | Insertion into a list sorted latest-first keeps it sorted and adds exactly the new element. |
| Sorting.SortDescBy | Backend/BookingService/src/main/java/com/reservation/BookingService/Model/DAO/serviceImpl/BookingServiceImpl.java:142-143 | Sorting latest-first is a permutation of the input and is ordered by the key, descending. |
| Sorting.SortDescByMeaning | Backend/BookingService/src/main/java/com/reservation/BookingService/Model/DAO/serviceImpl/BookingServiceImpl.java:225-234 | The latest-first sort keeps the length and the elements of the list. |
| Sorting.SortAscBy | Backend/BusService/src/main/java/com/reservation/BusService/Model/Repositories/ScheduleRepository.java:36 | ORDER BY ... ASC is a permutation ordered by the key, ascending. |
| Sorting.SeqOfSet | Backend/BookingService/src/main/java/com/reservation/BookingService/Model/DAO/serviceImpl/BookingServiceImpl.java:140 | A query result without ORDER BY lists every matching row, each exactly once. |
| BusCatalog.PriceViews | Backend/BusService/src/main/java/com/reservation/BusService/Model/DAO/ServiceImpl/ScheduleServiceImpl.java:248-254 | The trip view adds 40% for an AC bus compared ignoring case; the search view only for exactly "AC"; the two views differ exactly for a non-zero price on a type such as "ac". |
| BusCatalog.LowerCaseAcDisagrees | Backend/BusService/src/main/java/com/reservation/BusService/Model/DAO/ServiceImpl/ScheduleServiceImpl.java:269-275 | A bus typed "ac" is priced 1.4 times the base in the trip view and at the base in search results. |
| BusCatalog.BusDatabase.constructor | Backend/BusService/src/main/java/com/reservation/BusService/Model/DAO/ServiceImpl/ScheduleServiceImpl.java:27-34 | A new database holds no buses, routes or trips. |
| BusCatalog.BusDatabase.FindAvailableBusesByRoute | Backend/BusService/src/main/java/com/reservation/BusService/Model/Repositories/ScheduleRepository.java:30-38 | The route search lists trips in ascending travel date and departure order. |
| BusCatalog.BusDatabase.Snapshot | Backend/BusService/src/main/java/com/reservation/BusService/Model/DAO/ServiceImpl/ScheduleServiceImpl.java:148-155 | getScheduleById finds exactly the stored trips of a valid catalog, and reports the trip's times and seat counter, its bus's capacity, and the route price with the AC surcharge (positive, and at least the route's price). |
| BusCatalog.BusDatabase.UpdateAvailableSeatsRow | Backend/BusService/src/main/java/com/reservation/BusService/Model/Repositories/ScheduleRepository.java:41-43 | The native update adds the change only to an existing row whose counter stays non-negative, returns the row count, and changes nothing else. |
| BusCatalog.SearchesAgree | Backend/BusService/src/main/java/com/reservation/BusService/Model/Repositories/ScheduleRepository.java:16-38 | The dated search lists exactly the route search's trips on that date; both list only trips on that route with seats left. |
| Buses.CreateBus | Backend/BusService/src/main/java/com/reservation/BusService/Model/DAO/ServiceImpl/BusServiceImpl.java:27-38 | A duplicate bus number is refused and changes nothing; otherwise the bus is stored under the next id and the catalog stays valid. |
| Buses.UpdateBus | Backend/BusService/src/main/java/com/reservation/BusService/Model/DAO/ServiceImpl/BusServiceImpl.java:40-56 | An unknown id is refused; taking another bus's number is refused; otherwise the bus is replaced in place. |
| Buses.DeleteBus | Backend/BusService/src/main/java/com/reservation/BusService/Model/DAO/ServiceImpl/BusServiceImpl.java:58-68 | An unknown id is refused; a bus used by a trip is refused; otherwise exactly that bus is removed. |
| Routes.CreateRoute | Backend/BusService/src/main/java/com/reservation/BusService/Model/DAO/ServiceImpl/RouteServiceImpl.java:27-43 | An existing endpoint pair, then endpoints equal ignoring case, are refused; otherwise the route is stored under the next id. |
| Routes.UpdateRoute | Backend/BusService/src/main/java/com/reservation/BusService/Model/DAO/ServiceImpl/RouteServiceImpl.java:45-68 | An unknown id is refused; the pair check runs only when an endpoint changes; equal endpoints are always refused; otherwise the route is replaced. |
| Routes.DeleteRoute | Backend/BusService/src/main/java/com/reservation/BusService/Model/DAO/ServiceImpl/RouteServiceImpl.java:70-80 | An unknown id is refused; a route used by a trip is refused; otherwise exactly that route is removed. |
| Routes.RecreateStoredRoute | Backend/BusService/src/main/java/com/reservation/BusService/Model/DAO/ServiceImpl/RouteServiceImpl.java:27-33 | Submitting a stored route's endpoints again is refused as a duplicate pair and leaves the routes unchanged. |
| Schedules.CreateSchedule | Backend/BusService/src/main/java/com/reservation/BusService/Model/DAO/ServiceImpl/ScheduleServiceImpl.java:36-68 | A bus already running that day is refused first, then an unknown bus or route; otherwise the trip is stored under the next id. |
| Schedules.UpdateSchedule | Backend/BusService/src/main/java/com/reservation/BusService/Model/DAO/ServiceImpl/ScheduleServiceImpl.java:71-104 | The same-day check runs first without excluding the trip itself; then unknown trip, bus or route are refused; otherwise the trip is replaced. |
| Schedules.UpdateKeepingBusAndDateIsTaken | Backend/BusService/src/main/java/com/reservation/BusService/Model/DAO/ServiceImpl/ScheduleServiceImpl.java:74-80 | An update that keeps a trip's bus and date always meets the same-day check, so it is always refused. |
| Schedules.UpdateAvailableSeats | Backend/BusService/src/main/java/com/reservation/BusService/Model/DAO/ServiceImpl/ScheduleServiceImpl.java:159-205 | The counter change succeeds exactly when the trip exists and the counter stays non-negative; success applies it, any refusal changes nothing. |
| Schedules.CheckForActiveBookingsCases | Backend/BusService/src/main/java/com/reservation/BusService/Model/DAO/ServiceImpl/ScheduleServiceImpl.java:125-146 | A 2xx answer with true means active bookings; a 404 or any other answer without a body means none; only a failing call is an error, reported as the booking service being unavailable. |
| Schedules.DeleteSchedule | Backend/BusService/src/main/java/com/reservation/BusService/Model/DAO/ServiceImpl/ScheduleServiceImpl.java:107-123 | An unknown trip is refused; a failing booking service or active bookings refuse the deletion; otherwise exactly that trip is removed. |
| Bookings.BookingStore.constructor | Backend/BookingService/src/main/java/com/reservation/BookingService/Model/DAO/serviceImpl/BookingServiceImpl.java:31-38 | A new store holds no bookings or cancellations. |
| Bookings.ActiveIffOccupied | Backend/BookingService/src/main/java/com/reservation/BookingService/Model/DAO/serviceImpl/BookingServiceImpl.java:170-173 | A trip has a confirmed booking exactly when some seat on it is occupied. |
| Bookings.OccupiedIgnoresSeatlessBooking | Backend/BookingService/src/main/java/com/reservation/BookingService/Model/DAO/serviceImpl/BookingServiceImpl.java:69-70 | Saving a booking before its passengers, or a cancelled one, leaves the trip's occupied seats unchanged. |
| Bookings.AddBookingKeepsSeatsExclusive | Backend/BookingService/src/main/java/com/reservation/BookingService/Model/DAO/serviceImpl/BookingServiceImpl.java:74-90 | A confirmed booking whose seats are all unoccupied keeps confirmed bookings of a trip from sharing a seat. |
| Bookings.CancelKeepsSeatsExclusive | Backend/BookingService/src/main/java/com/reservation/BookingService/Model/DAO/serviceImpl/BookingServiceImpl.java:124-126 | Cancelling a booking keeps confirmed bookings from sharing a seat. |
| Bookings.CancelFreesSeats | Backend/BookingService/src/main/java/com/reservation/BookingService/Model/DAO/serviceImpl/BookingServiceImpl.java:124-126 | Cancelling a confirmed booking frees exactly its own seats on its trip. |
| Bookings.AdmittedRequestFitsCounter | Backend/BookingService/src/main/java/com/reservation/BookingService/Model/DAO/serviceImpl/BookingServiceImpl.java:53-67 | A request that passes createBooking's checks leaves the counter non-negative, so the remote decrease cannot fail. |
| Bookings.SeatedSeats | Backend/BookingService/src/main/java/com/reservation/BookingService/Model/DAO/serviceImpl/BookingServiceImpl.java:77-87 | Seating passengers on ascending seats gives each a different seat, and the booking's seats are exactly the allocated ones. |
| Bookings.SaveAndSeat | Backend/BookingService/src/main/java/com/reservation/BookingService/Model/DAO/serviceImpl/BookingServiceImpl.java:69-90 | After the counter is decreased: on an allocation shortage the saved booking is rolled back; otherwise the booking is stored with its passengers seated on the allocated seats. |
| Bookings.CreateBooking | Backend/BookingService/src/main/java/com/reservation/BookingService/Model/DAO/serviceImpl/BookingServiceImpl.java:44-95 | Refusals in source order change nothing; otherwise the remote counter drops by the seat count, the booking succeeds exactly when the allocator finds the seats, and a booking holds the request's passengers on the lowest free seats at price times seats. |
| Bookings.CancelDecisionWindow | Backend/BookingService/src/main/java/com/reservation/BookingService/Model/DAO/serviceImpl/BookingServiceImpl.java:99-122 | The owner may cancel a confirmed booking exactly when departure is at least 7200 seconds away, for a quarter to nine tenths of the amount; a cancelled booking is refused as already cancelled. |
| Bookings.CancelBooking | Backend/BookingService/src/main/java/com/reservation/BookingService/Model/DAO/serviceImpl/BookingServiceImpl.java:99-135 | Refusals in source order change nothing; success marks the booking cancelled, records one cancellation with the refund, and returns the seats to the counter. The reported percent is the two-decimal quotient of the refund by the total, times 100, and the refund is exactly that percent of the total: 90, 75, 50 or 25. |
| Bookings.RecordCancellation | Backend/BookingService/src/main/java/com/reservation/BookingService/Model/DAO/serviceImpl/BookingServiceImpl.java:124-130 | The booking turns CANCELLED and exactly one cancellation record with the refund is added; the store stays valid (confirmed seats stay exclusive, every cancelled booking has its record). |
| Bookings.RefundResponse | Backend/BookingService/src/main/java/com/reservation/BookingService/Model/DAO/serviceImpl/BookingServiceImpl.java:331-335 | The response carries the refund and a percent that is the rounded quotient of refund by total, equals one of the tiers, and gives back the refund exactly as that percent of the total. |
| Bookings.UpcomingMeansDepartureAfterNow | Backend/BookingService/src/main/java/com/reservation/BookingService/Model/DAO/serviceImpl/BookingServiceImpl.java:240-250 | A journey is upcoming exactly when its departure is later than now. |
| Bookings.GetUpcomingJourneys | Backend/BookingService/src/main/java/com/reservation/BookingService/Model/DAO/serviceImpl/BookingServiceImpl.java:204-237 | The listing fails with ScheduleNotFound exactly when one of the user's confirmed bookings has a trip that cannot be fetched. Otherwise it lists exactly the user's confirmed bookings whose trip departs after now, each once, latest departure first. |
| Bookings.CollectUpcomingJourneys | Backend/BookingService/src/main/java/com/reservation/BookingService/Model/DAO/serviceImpl/BookingServiceImpl.java:209-223 | The loop fails with ScheduleNotFound exactly when a confirmed booking's trip is missing; otherwise it collects exactly one journey per confirmed, upcoming booking of the user. |
| Bookings.AllBookings | Backend/BookingService/src/main/java/com/reservation/BookingService/Model/DAO/serviceImpl/BookingServiceImpl.java:138-151 | getAllBookings fails exactly when some booking's trip cannot be fetched; otherwise it lists every booking once, latest booking time first. |
| Bookings.Listing | Backend/BookingService/src/main/java/com/reservation/BookingService/Model/DAO/serviceImpl/BookingServiceImpl.java:140-150 | A listing that fetches each booking's trip fails exactly when one trip is missing; otherwise it holds every row once, latest booking time first. |
| Bookings.UserBookings | Backend/BookingService/src/main/java/com/reservation/BookingService/Model/DAO/serviceImpl/BookingServiceImpl.java:154-167 | getUserBookings fails exactly when one of the user's bookings has a trip that cannot be fetched; otherwise it lists exactly the user's bookings, each once, latest booking time first. |
| Bookings.UserBookingsAreAllBookingsOfUser | Backend/BookingService/src/main/java/com/reservation/BookingService/Model/DAO/serviceImpl/BookingServiceImpl.java:138-167 | When the full listing succeeds, so does the user's, and it is the full list restricted to that user; the full list has one entry per stored booking. |
| Protocol.DeleteScheduleAskingBookings | Backend/BusService/src/main/java/com/reservation/BusService/Model/DAO/ServiceImpl/ScheduleServiceImpl.java:107-146 | With the booking service answering, a trip is deleted exactly when it exists and no confirmed booking holds a seat on it. |
| Protocol.BookThenCancel | Backend/BookingService/src/main/java/com/reservation/BookingService/Model/DAO/serviceImpl/BookingServiceImpl.java:44-135 | After a booking, its owner's cancellation is accepted exactly when departure is at least two hours away; an accepted one restores the trip's counter and occupied seats. |
| Protocol.BookSeats | Backend/BookingService/src/main/java/com/reservation/BookingService/Model/DAO/serviceImpl/BookingServiceImpl.java:44-95 | A successful booking is new, owned by the requester and confirmed, lowers its trip's counter by its seats, and leaves the trip's departure as reported. |
| Protocol.CancelOwnBooking | Backend/BookingService/src/main/java/com/reservation/BookingService/Model/DAO/serviceImpl/BookingServiceImpl.java:99-135 | The owner's cancellation of a confirmed booking is accepted exactly when departure is at least two hours away; it raises the counter by the booking's seats. |
| Protocol.CounterRoundTrip | Backend/BookingService/src/main/java/com/reservation/BookingService/Model/DAO/serviceImpl/BookingServiceImpl.java:67 | Lowering a trip's counter by n (line 67) and raising it by n (line 133) restores the table. |
| Protocol.CancelTwice | Backend/BookingService/src/main/java/com/reservation/BookingService/Model/DAO/serviceImpl/BookingServiceImpl.java:108-111 | After a successful cancellation, a second cancellation of the same booking is refused as already cancelled. |

## Left out

- HTTP and Feign are not modelled as such. The trip the booking service reads is the bus service's `Snapshot`. The Feign client has no fallback, so a 404 from `getScheduleById` raises an exception. The model names that failure `ScheduleNotFound`: `createBooking` and `cancelBooking` report it, and the three listings (`getAllBookings`, `getUserBookings`, `getUpcomingJourneys`) fail as a whole when a listed booking's trip is gone. A failing remote counter update is `RemoteError`.
- Integer widths are not modelled: ids, seat counts and seat changes are unbounded integers. In the source `seatChange` and `totalSeats` are 32-bit `Integer`s and `available_seats` is an INT column, so `available_seats + :seatChange` fails outside the 32-bit range, and the allocator's `seatNumber <= totalSeats` loop does not stop after the last seat when `totalSeats` is `Integer.MAX_VALUE`, because the counter wraps. The model promises nothing about these overflow edges.
- Concurrency is left out: two bookings racing for the same seats, and the window between the counter check and the update, are not modelled.
- Clocks are parameters (`now`, `bookedAt`, `cancelAt`). Time zones, daylight-saving shifts and sub-second precision are left out; a time of day is whole seconds.
- The client's `new Date` parsing of malformed strings is left out; `getArrivalDate` takes an already valid date and times.
- `BusCatalog.ToLower` folds ASCII letters only; Java's full Unicode case folding in `equalsIgnoreCase` is not modelled.
- SQL collation is left out: the repository queries compare strings exactly.
- Money is an exact real. The two-decimal scale of the database columns is not modelled; the percent's `divide(..., 2, HALF_UP)` is.
- The DTO mapping itself (`mapToBookingResponseDto`, and `convertToResponseDto` beyond the price and the fields `Snapshot` reports) only copies fields and is left out; the trip fetch made for each listed booking is modelled. `getAllSchedules`, `getBusById`, `getAllBuses`, `getRouteById` and `getAllRoutes` only read and copy rows and are left out.
- `getPassengersByScheduleId` only lists rows and is left out.
- `findOccupiedSeatsByScheduleId` returns a list; the model uses the set of its seats, since the allocator only asks whether a seat is in it.
- Bookings.AllBookings: states membership, once-each and order but not the stability of the sort among equal booking times.
- Bookings.UserBookings: states membership, once-each and order but not the stability of the sort among equal booking times.
- Bookings.GetUpcomingJourneys: states membership, once-each and order but not the stability of the sort among equal departures.
- Passenger gender is a `Gender` enumeration in the source and text in the model; no operation inspects it, and the enumeration's file is not part of this model.
- User accounts, authentication and the API gateway are not part of this model; a user is an integer id.
