/** The bus operations of the bus service (`BusServiceImpl`): create, update
    and delete over the bus table, guarded by the unique bus number and by
    the rule that a scheduled bus cannot be deleted. */
module Buses {
  import opened Wrappers
  import opened BusCatalog

  /** A create or update request; request validation demands at least one
      seat. */
  datatype BusRequest = BusRequest(busName: string, busNumber: string, busType: string, totalSeats: int)

  /** createBus: a number already in use is a duplicate; otherwise one bus
      with the request's fields and a fresh id is added. */
  method CreateBus(db: BusDatabase, req: BusRequest) returns (r: Result<Bus, CatalogError>)
    requires db.Valid()
    requires req.totalSeats >= 1
    modifies db
    ensures db.Valid()
    ensures r.Err? <==> old(db.BusNumberTaken(req.busNumber))
    ensures r.Err? ==> r.error == DuplicateResource(BusNumber) && db.buses == old(db.buses) && db.nextBusId == old(db.nextBusId)
    ensures r.Ok? ==> && r.value == Bus(old(db.nextBusId), req.busName, req.busNumber, req.busType, req.totalSeats)
                      && r.value.id !in old(db.buses)
                      && db.buses == old(db.buses)[r.value.id := r.value]
                      && db.nextBusId == old(db.nextBusId) + 1
    ensures db.routes == old(db.routes) && db.schedules == old(db.schedules)
    ensures db.nextRouteId == old(db.nextRouteId) && db.nextScheduleId == old(db.nextScheduleId)
  {
    if db.BusNumberTaken(req.busNumber) {
      r := Err(DuplicateResource(BusNumber));
    } else {
      var bus := Bus(db.nextBusId, req.busName, req.busNumber, req.busType, req.totalSeats);
      db.buses := db.buses[bus.id := bus];
      db.nextBusId := db.nextBusId + 1;
      r := Ok(bus);
    }
  }

  /** updateBus: an unknown id is not found; the number is checked for
      duplicates only when it changes; the id is kept and every other field
      is overwritten. */
  method UpdateBus(db: BusDatabase, id: int, req: BusRequest) returns (r: Result<Bus, CatalogError>)
    requires db.Valid()
    requires req.totalSeats >= 1
    modifies db
    ensures db.Valid()
    ensures id !in old(db.buses) ==> r == Err(ResourceNotFound)
    ensures id in old(db.buses) ==>
              (r.Err? <==> old(db.buses[id].busNumber) != req.busNumber && old(db.BusNumberTaken(req.busNumber)))
    ensures id in old(db.buses) && r.Err? ==> r.error == DuplicateResource(BusNumber)
    ensures r.Err? ==> db.buses == old(db.buses)
    ensures r.Ok? ==> && r.value == Bus(id, req.busName, req.busNumber, req.busType, req.totalSeats)
                      && db.buses == old(db.buses)[id := r.value]
    ensures db.routes == old(db.routes) && db.schedules == old(db.schedules)
    ensures db.nextBusId == old(db.nextBusId) && db.nextRouteId == old(db.nextRouteId)
    ensures db.nextScheduleId == old(db.nextScheduleId)
  {
    if id !in db.buses {
      r := Err(ResourceNotFound);
    } else if db.buses[id].busNumber != req.busNumber && db.BusNumberTaken(req.busNumber) {
      r := Err(DuplicateResource(BusNumber));
    } else {
      var bus := Bus(id, req.busName, req.busNumber, req.busType, req.totalSeats);
      db.buses := db.buses[id := bus];
      r := Ok(bus);
    }
  }

  /** deleteBus: an unknown id is not found; a bus that some trip uses is
      kept and reported in use; otherwise exactly that bus is removed. */
  method DeleteBus(db: BusDatabase, id: int) returns (r: Result<(), CatalogError>)
    requires db.Valid()
    modifies db
    ensures db.Valid()
    ensures id !in old(db.buses) ==> r == Err(ResourceNotFound)
    ensures id in old(db.buses) && old(db.BusInSchedules(id)) ==> r == Err(ResourceInUse)
    ensures r.Ok? <==> id in old(db.buses) && !old(db.BusInSchedules(id))
    ensures db.buses == if r.Ok? then old(db.buses) - {id} else old(db.buses)
    ensures db.routes == old(db.routes) && db.schedules == old(db.schedules)
    ensures db.nextBusId == old(db.nextBusId) && db.nextRouteId == old(db.nextRouteId)
    ensures db.nextScheduleId == old(db.nextScheduleId)
  {
    if id !in db.buses {
      r := Err(ResourceNotFound);
    } else if db.BusInSchedules(id) {
      r := Err(ResourceInUse);
    } else {
      db.buses := db.buses - {id};
      r := Ok(());
    }
  }
}
