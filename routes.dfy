/** The route operations of the bus service (`RouteServiceImpl`): create,
    update and delete over the route table, guarded by the unique (from, to)
    pair, by the rule that source and destination differ ignoring case, and
    by the rule that a scheduled route cannot be deleted. */
module Routes {
  import opened Wrappers
  import opened BusCatalog

  /** A create or update request; request validation demands a positive
      price. */
  datatype RouteRequest = RouteRequest(
    fromLocation: string, toLocation: string,
    distanceKm: Option<int>, durationOfTravelMinutes: Option<int>, price: real)

  /** The stored route a request describes. */
  function RouteOf(id: int, req: RouteRequest): (route: Route)
    ensures route.id == id && route.price == req.price
    ensures route.fromLocation == req.fromLocation && route.toLocation == req.toLocation
  {
    Route(id, req.fromLocation, req.toLocation, req.distanceKm, req.durationOfTravelMinutes, req.price)
  }

  /** createRoute: the exact (from, to) pair is checked for duplicates first,
      then source and destination are compared ignoring case; on success one
      route with the request's fields and a fresh id is added. */
  method CreateRoute(db: BusDatabase, req: RouteRequest) returns (r: Result<Route, CatalogError>)
    requires db.Valid()
    requires req.price > 0.0
    modifies db
    ensures db.Valid()
    ensures old(db.RoutePairTaken(req.fromLocation, req.toLocation)) ==> r == Err(DuplicateResource(RoutePair))
    ensures !old(db.RoutePairTaken(req.fromLocation, req.toLocation)) && EqualsIgnoreCase(req.fromLocation, req.toLocation) ==>
              r == Err(DuplicateResource(SameEndpoints))
    ensures r.Ok? <==> !old(db.RoutePairTaken(req.fromLocation, req.toLocation)) && !EqualsIgnoreCase(req.fromLocation, req.toLocation)
    ensures r.Err? ==> db.routes == old(db.routes) && db.nextRouteId == old(db.nextRouteId)
    ensures r.Ok? ==> && r.value == RouteOf(old(db.nextRouteId), req)
                      && r.value.id !in old(db.routes)
                      && db.routes == old(db.routes)[r.value.id := r.value]
                      && db.nextRouteId == old(db.nextRouteId) + 1
    ensures db.buses == old(db.buses) && db.schedules == old(db.schedules)
    ensures db.nextBusId == old(db.nextBusId) && db.nextScheduleId == old(db.nextScheduleId)
  {
    if db.RoutePairTaken(req.fromLocation, req.toLocation) {
      r := Err(DuplicateResource(RoutePair));
    } else if EqualsIgnoreCase(req.fromLocation, req.toLocation) {
      r := Err(DuplicateResource(SameEndpoints));
    } else {
      var route := RouteOf(db.nextRouteId, req);
      db.routes := db.routes[route.id := route];
      db.nextRouteId := db.nextRouteId + 1;
      r := Ok(route);
    }
  }

  /** updateRoute: an unknown id is not found; the pair is checked for
      duplicates only when from or to changes; the same-endpoints rule always
      applies; the id is kept and every other field is overwritten. */
  method UpdateRoute(db: BusDatabase, id: int, req: RouteRequest) returns (r: Result<Route, CatalogError>)
    requires db.Valid()
    requires req.price > 0.0
    modifies db
    ensures db.Valid()
    ensures id !in old(db.routes) ==> r == Err(ResourceNotFound)
    ensures id in old(db.routes)
            && (old(db.routes[id].fromLocation) != req.fromLocation || old(db.routes[id].toLocation) != req.toLocation)
            && old(db.RoutePairTaken(req.fromLocation, req.toLocation)) ==>
              r == Err(DuplicateResource(RoutePair))
    ensures r.Ok? <==> && id in old(db.routes)
                       && !((old(db.routes[id].fromLocation) != req.fromLocation || old(db.routes[id].toLocation) != req.toLocation)
                            && old(db.RoutePairTaken(req.fromLocation, req.toLocation)))
                       && !EqualsIgnoreCase(req.fromLocation, req.toLocation)
    ensures id in old(db.routes) && r.Err? && r != Err(DuplicateResource(RoutePair)) ==> r == Err(DuplicateResource(SameEndpoints))
    ensures r.Err? ==> db.routes == old(db.routes)
    ensures r.Ok? ==> r.value == RouteOf(id, req) && db.routes == old(db.routes)[id := r.value]
    ensures db.buses == old(db.buses) && db.schedules == old(db.schedules)
    ensures db.nextBusId == old(db.nextBusId) && db.nextRouteId == old(db.nextRouteId)
    ensures db.nextScheduleId == old(db.nextScheduleId)
  {
    if id !in db.routes {
      r := Err(ResourceNotFound);
    } else if (db.routes[id].fromLocation != req.fromLocation || db.routes[id].toLocation != req.toLocation)
              && db.RoutePairTaken(req.fromLocation, req.toLocation) {
      r := Err(DuplicateResource(RoutePair));
    } else if EqualsIgnoreCase(req.fromLocation, req.toLocation) {
      r := Err(DuplicateResource(SameEndpoints));
    } else {
      var route := RouteOf(id, req);
      db.routes := db.routes[id := route];
      r := Ok(route);
    }
  }

  /** deleteRoute: an unknown id is not found; a route that some trip uses is
      kept and reported in use; otherwise exactly that route is removed. */
  method DeleteRoute(db: BusDatabase, id: int) returns (r: Result<(), CatalogError>)
    requires db.Valid()
    modifies db
    ensures db.Valid()
    ensures id !in old(db.routes) ==> r == Err(ResourceNotFound)
    ensures id in old(db.routes) && old(db.RouteInSchedules(id)) ==> r == Err(ResourceInUse)
    ensures r.Ok? <==> id in old(db.routes) && !old(db.RouteInSchedules(id))
    ensures db.routes == if r.Ok? then old(db.routes) - {id} else old(db.routes)
    ensures db.buses == old(db.buses) && db.schedules == old(db.schedules)
    ensures db.nextBusId == old(db.nextBusId) && db.nextRouteId == old(db.nextRouteId)
    ensures db.nextScheduleId == old(db.nextScheduleId)
  {
    if id !in db.routes {
      r := Err(ResourceNotFound);
    } else if db.RouteInSchedules(id) {
      r := Err(ResourceInUse);
    } else {
      db.routes := db.routes - {id};
      r := Ok(());
    }
  }

  /** Submitting a stored route's own endpoints to createRoute again is
      refused as a duplicate pair, and the route table is left as it was. */
  method RecreateStoredRoute(db: BusDatabase, id: int) returns (r: Result<Route, CatalogError>)
    requires db.Valid()
    requires id in db.routes
    modifies db
    ensures r == Err(DuplicateResource(RoutePair))
    ensures db.routes == old(db.routes) && db.Valid()
  {
    var route := db.routes[id];
    assert db.RoutePairTaken(route.fromLocation, route.toLocation);
    r := CreateRoute(db, RouteRequest(route.fromLocation, route.toLocation, route.distanceKm,
                                      route.durationOfTravelMinutes, route.price));
  }
}
