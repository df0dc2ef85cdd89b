/**
 * `TranspoolXmlLoader`: validation of a parsed dataset and construction of the
 * models from it. Parsing the file (JAXB) is not part of this module; the
 * parsed document is the value `TransPool`.
 *
 * The loader keeps the stations and roads in a `Graph` whose API
 * (`addVertexIfAbsent`, `doesEdgeExist`, `getVertices`, `getEdges`) belongs
 * to a version of `Graph` other than the one in `graph.dfy`; it is modelled
 * by its vertex list and its edge list, in insertion order.
 *
 * Every stage checks its items in order and the first failing check ends
 * the load with its exception; `FirstFailure` is that pattern.
 */
module Loader {
  import opened Common
  import opened JavaStrings
  import opened Stations
  import opened Roads
  import opened Timing
  import opened Enums
  import opened Maps
  import opened Trips
  import opened Manager
  import opened FileExtensions

  /** The separator of the station names in a route. */
  const RoutePathSeparator: char := ','

  datatype Stop = Stop(name: string, x: int, y: int)
  datatype Path = Path(from: string, to: string, isOneWay: bool, length: int, fuelConsumption: int, speedLimit: int)
  datatype Scheduling = Scheduling(dayStart: int, hourStart: int, recurrences: string)
  datatype PlannedTrip = PlannedTrip(owner: string, route: string, capacity: int, ppk: int, scheduling: Scheduling)
  datatype TransPool = TransPool(length: int, width: int, stops: seq<Stop>, paths: seq<Path>, trips: seq<PlannedTrip>)

  /** The outcome of checks `k` to `n - 1`, run in order: the first failure, or `Pass`. */
  function FirstFailure(n: nat, check: nat -> Outcome, k: nat): Outcome
    requires k <= n
    decreases n - k
  {
    if k == n then Pass
    else if check(k).Fail? then check(k)
    else FirstFailure(n, check, k + 1)
  }

  /** The run passes exactly when every check passes; a failure is the first failing check's. */
  lemma {:induction false} FirstFailureSpec(n: nat, check: nat -> Outcome, k: nat)
    requires k <= n
    ensures FirstFailure(n, check, k).Pass? <==> forall j :: k <= j < n ==> check(j).Pass?
    ensures FirstFailure(n, check, k).Fail? ==>
      exists m :: k <= m < n && FirstFailure(n, check, k) == check(m)
        && forall j :: k <= j < m ==> check(j).Pass?
    decreases n - k
  {
    if k < n && check(k).Pass? {
      FirstFailureSpec(n, check, k + 1);
    }
  }

  /**
   * `assertMapBoundaries`: the length is checked against its maximum and
   * minimum, then the width; the first violated bound is reported.
   */
  function AssertMapBoundaries(length: int, width: int): (r: Outcome)
    ensures r.Pass? <==> MinLength <= length <= MaxLength && MinWidth <= width <= MaxWidth
    ensures length > MaxLength ==> r == Fail(Validation(LengthTooBig))
    ensures length < MinLength ==> r == Fail(Validation(LengthTooSmall))
    ensures MinLength <= length <= MaxLength && width > MaxWidth ==> r == Fail(Validation(WidthTooBig))
    ensures MinLength <= length <= MaxLength && width < MinWidth ==> r == Fail(Validation(WidthTooSmall))
  {
    if length > MaxLength then Fail(Validation(LengthTooBig))
    else if length < MinLength then Fail(Validation(LengthTooSmall))
    else if width > MaxWidth then Fail(Validation(WidthTooBig))
    else if width < MinWidth then Fail(Validation(WidthTooSmall))
    else Pass
  }

  /** The point of a stop: `x` is its width coordinate, `y` its length coordinate. */
  function StopPoint(stop: Stop): Point {
    Point(stop.x, stop.y)
  }

  /** The range check of stop `j`, reported under the trimmed name. */
  function RangeAt(length: int, width: int, stops: seq<Stop>, j: nat): Outcome {
    if j < |stops| && !IsOnGrid(length, width, StopPoint(stops[j])) then
      Fail(Validation(StationOutOfMap(Trim(stops[j].name))))
    else Pass
  }

  function RangeChecks(length: int, width: int, stops: seq<Stop>): nat -> Outcome {
    (j: nat) => RangeAt(length, width, stops, j)
  }

  /** `assertStationsInMapRange`: the first stop off the grid is reported. */
  function AssertStationsInMapRange(length: int, width: int, stops: seq<Stop>): (r: Outcome)
    ensures r.Pass? <==> forall i :: 0 <= i < |stops| ==> IsOnGrid(length, width, StopPoint(stops[i]))
    ensures r.Fail? ==>
      exists k :: 0 <= k < |stops| && !IsOnGrid(length, width, StopPoint(stops[k]))
        && (forall j :: 0 <= j < k ==> IsOnGrid(length, width, StopPoint(stops[j])))
        && r.error == Validation(StationOutOfMap(Trim(stops[k].name)))
  {
    var check := RangeChecks(length, width, stops);
    FirstFailureSpec(|stops|, check, 0);
    assert forall j :: 0 <= j < |stops| ==>
      (check(j).Pass? <==> IsOnGrid(length, width, StopPoint(stops[j])));
    FirstFailure(|stops|, check, 0)
  }

  /** `new Station(stop.getName().trim(), x, y)`. */
  function StationOf(stop: Stop): (s: Station)
    ensures s.name == Trim(stop.name) && s.coordinate == StopPoint(stop)
  {
    NewStation(Trim(stop.name), stop.x, stop.y)
  }

  /** The vertices of the stations graph once the first `k` stops were added. */
  function StationsBefore(stops: seq<Stop>, k: nat): (r: seq<Station>)
    requires k <= |stops|
    ensures |r| == k && forall i :: 0 <= i < k ==> r[i] == StationOf(stops[i])
  {
    if k == 0 then [] else StationsBefore(stops, k - 1) + [StationOf(stops[k - 1])]
  }

  /** `Station.isStationOverlappingAnother`: some station stands at the point. */
  predicate IsOverlapping(stations: seq<Station>, p: Point) {
    exists i :: 0 <= i < |stations| && stations[i].coordinate == p
  }

  /** `Station.getStationByCoordinate`: the first station standing at the point. */
  function StationAt(stations: seq<Station>, p: Point): (r: Option<Station>)
    ensures r.Some? <==> IsOverlapping(stations, p)
    ensures r.Some? ==> r.value in stations && r.value.coordinate == p
    decreases |stations|
  {
    if stations == [] then None
    else if stations[0].coordinate == p then Some(stations[0])
    else
      assert forall i :: 1 <= i < |stations| ==> stations[i] == stations[1..][i - 1];
      StationAt(stations[1..], p)
  }

  /**
   * One stop of `createStationsGraph` against the stations added so far:
   * `assertOverlappingStations` first, whose message carries the untrimmed
   * stop name and the occupant's name, then the refusal of
   * `addVertexIfAbsent` when the trimmed name is taken.
   */
  function StopCheck(stations: seq<Station>, stop: Stop): Outcome {
    match StationAt(stations, StopPoint(stop))
    case Some(occupant) => Fail(Validation(CoordinateOccupied(stop.name, stop.x, stop.y, occupant.name)))
    case None =>
      if ContainsStationByName(stations, Trim(stop.name)) then Fail(Validation(DuplicateStationName(Trim(stop.name))))
      else Pass
  }

  /**
   * A stop is refused for an occupied coordinate, naming a station standing
   * there, before it is refused for a taken name.
   */
  lemma StopCheckOrder(stations: seq<Station>, stop: Stop)
    ensures StopCheck(stations, stop).Pass? <==>
      !IsOverlapping(stations, StopPoint(stop)) && !ContainsStationByName(stations, Trim(stop.name))
    ensures IsOverlapping(stations, StopPoint(stop)) ==>
      exists s :: s in stations && s.coordinate == StopPoint(stop)
        && StopCheck(stations, stop) == Fail(Validation(CoordinateOccupied(stop.name, stop.x, stop.y, s.name)))
    ensures !IsOverlapping(stations, StopPoint(stop)) && ContainsStationByName(stations, Trim(stop.name)) ==>
      StopCheck(stations, stop) == Fail(Validation(DuplicateStationName(Trim(stop.name))))
  {
  }

  function StopAt(stops: seq<Stop>, j: nat): Outcome {
    if j < |stops| then StopCheck(StationsBefore(stops, j), stops[j]) else Pass
  }

  function StopChecks(stops: seq<Stop>): nat -> Outcome {
    (j: nat) => StopAt(stops, j)
  }

  /** The outcome of `createStationsGraph`. */
  function CheckStops(stops: seq<Stop>): Outcome {
    FirstFailure(|stops|, StopChecks(stops), 0)
  }

  /** A stop passes against its predecessors when it shares neither their coordinate nor their trimmed name. */
  lemma StopCheckAgainstPredecessors(stops: seq<Stop>, j: nat)
    requires j < |stops|
    ensures StopAt(stops, j).Pass? <==>
      forall i :: 0 <= i < j ==> StopPoint(stops[i]) != StopPoint(stops[j]) && Trim(stops[i].name) != Trim(stops[j].name)
  {
    var before := StationsBefore(stops, j);
    var p := StopPoint(stops[j]);
    var name := Trim(stops[j].name);
    StopCheckOrder(before, stops[j]);
    if StopCheck(before, stops[j]).Pass? {
      forall i | 0 <= i < j
        ensures StopPoint(stops[i]) != p && Trim(stops[i].name) != name
      {
        assert before[i] == StationOf(stops[i]);
      }
    } else if IsOverlapping(before, p) {
      var i :| 0 <= i < |before| && before[i].coordinate == p;
      assert StopPoint(stops[i]) == p;
    } else {
      var i :| 0 <= i < |before| && before[i].name == name;
      assert Trim(stops[i].name) == name;
    }
  }

  /**
   * The stops are accepted exactly when no two of them share a coordinate or
   * a trimmed name, so the accepted stations are a set keyed both ways.
   */
  lemma StopsAcceptedIff(stops: seq<Stop>)
    ensures CheckStops(stops).Pass? <==>
      forall i, j :: 0 <= i < j < |stops| ==>
        StopPoint(stops[i]) != StopPoint(stops[j]) && Trim(stops[i].name) != Trim(stops[j].name)
  {
    FirstFailureSpec(|stops|, StopChecks(stops), 0);
    forall j | 0 <= j < |stops|
      ensures StopChecks(stops)(j).Pass? <==>
        forall i :: 0 <= i < j ==> StopPoint(stops[i]) != StopPoint(stops[j]) && Trim(stops[i].name) != Trim(stops[j].name)
    {
      StopCheckAgainstPredecessors(stops, j);
    }
  }

  /** Accepted stops give stations with distinct names, so name lookups find each one. */
  lemma AcceptedStationsHaveUniqueNames(stops: seq<Stop>)
    requires CheckStops(stops).Pass?
    ensures UniqueNames(StationsBefore(stops, |stops|))
  {
    StopsAcceptedIff(stops);
  }

  /**
   * `createStationsGraph`: the stops are added one at a time, each checked
   * against those already added; the first rejected stop ends the load.
   */
  method CreateStationsGraph(stops: seq<Stop>) returns (r: Result<seq<Station>>)
    ensures r.Success? <==> CheckStops(stops).Pass?
    ensures r.Success? ==> r.value == StationsBefore(stops, |stops|)
    ensures r.Failure? ==> Fail(r.error) == CheckStops(stops)
  {
    var stations: seq<Station> := [];
    for k := 0 to |stops|
      invariant stations == StationsBefore(stops, k)
      invariant CheckStops(stops) == FirstFailure(|stops|, StopChecks(stops), k)
    {
      var check := StopCheck(stations, stops[k]);
      assert StopChecks(stops)(k) == check;
      if check.Fail? {
        return Failure(check.error);
      }
      stations := stations + [StationOf(stops[k])];
    }
    return Success(stations);
  }

  /** `createRoadFromPath`: the road between the two trimmed names, with the path's figures. */
  function RoadOf(path: Path): (r: Road)
    ensures r.sourceStationName == Trim(path.from) && r.destStationName == Trim(path.to)
    ensures r.isOneWay == path.isOneWay && r.length == path.length
    ensures r.gasNeededPerKm == path.fuelConsumption && r.maxDrivingSpeed == path.speedLimit
  {
    Road(Trim(path.from), Trim(path.to), path.isOneWay, path.length, path.fuelConsumption, path.speedLimit)
  }

  /** The edges of the stations graph once the first `k` paths were added. */
  function RoadsBefore(paths: seq<Path>, k: nat): (r: seq<Road>)
    requires k <= |paths|
    ensures |r| == k && forall i :: 0 <= i < k ==> r[i] == RoadOf(paths[i])
  {
    if k == 0 then [] else RoadsBefore(paths, k - 1) + [RoadOf(paths[k - 1])]
  }

  /**
   * One path of `createRoads`: `assertPathSrcAndDst` (source, then
   * destination), then `doesEdgeExist`, which finds an equal road, that is,
   * one with the same ordered pair of names.
   */
  function PathCheck(stations: seq<Station>, roads: seq<Road>, path: Path): Outcome {
    var src := Trim(path.from);
    var dst := Trim(path.to);
    if !ContainsStationByName(stations, src) then Fail(Validation(PathSourceMissing(src, dst)))
    else if !ContainsStationByName(stations, dst) then Fail(Validation(PathDestinationMissing(src, dst)))
    else if ContainsRoadBySrcAndDstNames(roads, src, dst) then Fail(Validation(DuplicateRoad(src, dst)))
    else Pass
  }

  /** A missing source is reported before a missing destination, and both before a duplicate. */
  lemma PathCheckOrder(stations: seq<Station>, roads: seq<Road>, path: Path)
    ensures !ContainsStationByName(stations, Trim(path.from)) ==>
      PathCheck(stations, roads, path) == Fail(Validation(PathSourceMissing(Trim(path.from), Trim(path.to))))
    ensures ContainsStationByName(stations, Trim(path.from)) && !ContainsStationByName(stations, Trim(path.to)) ==>
      PathCheck(stations, roads, path) == Fail(Validation(PathDestinationMissing(Trim(path.from), Trim(path.to))))
    ensures (ContainsStationByName(stations, Trim(path.from)) && ContainsStationByName(stations, Trim(path.to))
      && ContainsRoadBySrcAndDstNames(roads, Trim(path.from), Trim(path.to))) ==>
      PathCheck(stations, roads, path) == Fail(Validation(DuplicateRoad(Trim(path.from), Trim(path.to))))
  {
  }

  function PathAt(stations: seq<Station>, paths: seq<Path>, j: nat): Outcome {
    if j < |paths| then PathCheck(stations, RoadsBefore(paths, j), paths[j]) else Pass
  }

  function PathChecks(stations: seq<Station>, paths: seq<Path>): nat -> Outcome {
    (j: nat) => PathAt(stations, paths, j)
  }

  /** The outcome of `createRoads`. */
  function CheckPaths(stations: seq<Station>, paths: seq<Path>): Outcome {
    FirstFailure(|paths|, PathChecks(stations, paths), 0)
  }

  /** A path passes against its predecessors when its ends exist and no earlier path joins the same ordered pair. */
  lemma PathCheckAgainstPredecessors(stations: seq<Station>, paths: seq<Path>, j: nat)
    requires j < |paths|
    ensures PathAt(stations, paths, j).Pass? <==>
      ContainsStationByName(stations, Trim(paths[j].from)) && ContainsStationByName(stations, Trim(paths[j].to))
      && forall i :: 0 <= i < j ==>
        Trim(paths[i].from) != Trim(paths[j].from) || Trim(paths[i].to) != Trim(paths[j].to)
  {
    var before := RoadsBefore(paths, j);
    var src := Trim(paths[j].from);
    var dst := Trim(paths[j].to);
    if ContainsRoadBySrcAndDstNames(before, src, dst) {
      var i :| 0 <= i < |before| && RoadEquals(before[i], Probe(src, dst));
      assert before[i] == RoadOf(paths[i]);
    } else {
      forall i | 0 <= i < j
        ensures Trim(paths[i].from) != src || Trim(paths[i].to) != dst
      {
        assert before[i] == RoadOf(paths[i]);
        assert !RoadEquals(before[i], Probe(src, dst));
      }
    }
  }

  /**
   * The paths are accepted exactly when every path joins two known stations
   * and no two paths join the same ordered pair; a two-way path and the
   * reverse path are both accepted.
   */
  lemma PathsAcceptedIff(stations: seq<Station>, paths: seq<Path>)
    ensures CheckPaths(stations, paths).Pass? <==>
      (forall j :: 0 <= j < |paths| ==>
        ContainsStationByName(stations, Trim(paths[j].from)) && ContainsStationByName(stations, Trim(paths[j].to)))
      && (forall i, j :: 0 <= i < j < |paths| ==>
        Trim(paths[i].from) != Trim(paths[j].from) || Trim(paths[i].to) != Trim(paths[j].to))
  {
    FirstFailureSpec(|paths|, PathChecks(stations, paths), 0);
    forall j | 0 <= j < |paths|
      ensures PathChecks(stations, paths)(j).Pass? <==>
        ContainsStationByName(stations, Trim(paths[j].from)) && ContainsStationByName(stations, Trim(paths[j].to))
        && forall i :: 0 <= i < j ==>
          Trim(paths[i].from) != Trim(paths[j].from) || Trim(paths[i].to) != Trim(paths[j].to)
    {
      PathCheckAgainstPredecessors(stations, paths, j);
    }
  }

  /**
   * `createRoads`: each path becomes a road once checked against the
   * stations and the roads already added; the first rejected path ends the load.
   */
  method CreateRoads(paths: seq<Path>, stations: seq<Station>) returns (r: Result<seq<Road>>)
    ensures r.Success? <==> CheckPaths(stations, paths).Pass?
    ensures r.Success? ==> r.value == RoadsBefore(paths, |paths|)
    ensures r.Failure? ==> Fail(r.error) == CheckPaths(stations, paths)
  {
    var roads: seq<Road> := [];
    for k := 0 to |paths|
      invariant roads == RoadsBefore(paths, k)
      invariant CheckPaths(stations, paths) == FirstFailure(|paths|, PathChecks(stations, paths), k)
    {
      var check := PathCheck(stations, roads, paths[k]);
      assert PathChecks(stations, paths)(k) == check;
      if check.Fail? {
        return Failure(check.error);
      }
      roads := roads + [RoadOf(paths[k])];
    }
    return Success(roads);
  }

  /** The pieces of a route: `routePath.split(",")`. */
  function RouteNames(route: string): seq<string> {
    Split(route, RoutePathSeparator)
  }

  /**
   * The first piece of the route, from piece `k` on, whose trimmed name is no
   * station's; the message quotes the piece untrimmed.
   */
  function MissingPiece(stations: seq<Station>, route: string, names: seq<string>, k: nat): Outcome
    decreases |names| - k
  {
    if k >= |names| then Pass
    else if !ContainsStationByName(stations, Trim(names[k])) then Fail(Validation(RouteStationMissing(route, names[k])))
    else MissingPiece(stations, route, names, k + 1)
  }

  lemma {:induction false} MissingPiecePasses(stations: seq<Station>, route: string, names: seq<string>, k: nat)
    ensures MissingPiece(stations, route, names, k).Pass? <==>
      forall j :: k <= j < |names| ==> ContainsStationByName(stations, Trim(names[j]))
    decreases |names| - k
  {
    if k < |names| && ContainsStationByName(stations, Trim(names[k])) {
      MissingPiecePasses(stations, route, names, k + 1);
    }
  }

  lemma {:induction false} MissingPieceFails(stations: seq<Station>, route: string, names: seq<string>, k: nat)
    ensures MissingPiece(stations, route, names, k).Fail? ==>
      exists m :: k <= m < |names| && !ContainsStationByName(stations, Trim(names[m]))
        && (forall j :: k <= j < m ==> ContainsStationByName(stations, Trim(names[j])))
        && MissingPiece(stations, route, names, k) == Fail(Validation(RouteStationMissing(route, names[m])))
    decreases |names| - k
  {
    if k < |names| && ContainsStationByName(stations, Trim(names[k])) {
      MissingPieceFails(stations, route, names, k + 1);
    }
  }

  /**
   * `assertTripRouteStations`: every piece of the route, trimmed, names a
   * station; the first bad piece is reported.
   */
  function AssertTripRouteStations(stations: seq<Station>, route: string): (r: Outcome)
    ensures r.Pass? <==>
      forall j :: 0 <= j < |RouteNames(route)| ==> ContainsStationByName(stations, Trim(RouteNames(route)[j]))
    ensures r.Fail? ==>
      exists m :: 0 <= m < |RouteNames(route)| && !ContainsStationByName(stations, Trim(RouteNames(route)[m]))
        && (forall j :: 0 <= j < m ==> ContainsStationByName(stations, Trim(RouteNames(route)[j])))
        && r.error == Validation(RouteStationMissing(route, RouteNames(route)[m]))
  {
    MissingPiecePasses(stations, route, RouteNames(route), 0);
    MissingPieceFails(stations, route, RouteNames(route), 0);
    MissingPiece(stations, route, RouteNames(route), 0)
  }

  /** A road joins the trimmed names `names[j]` and `names[j + 1]`, in that direction. */
  predicate HasLink(roads: seq<Road>, names: seq<string>, j: nat)
    requires j + 1 < |names|
  {
    ContainsRoadBySrcAndDstNames(roads, Trim(names[j]), Trim(names[j + 1]))
  }

  /** Every pair of pieces from piece `k` and before piece `m` is joined by a road. */
  predicate LinkedBetween(roads: seq<Road>, names: seq<string>, k: nat, m: nat) {
    forall j: nat :: k <= j < m && j + 1 < |names| ==> HasLink(roads, names, j)
  }

  /** The first pair of pieces, from piece `k` on, that no road joins. */
  function MissingLink(roads: seq<Road>, route: string, names: seq<string>, k: nat): Outcome
    decreases |names| - k
  {
    if k + 1 >= |names| then Pass
    else if !HasLink(roads, names, k) then Fail(Validation(RouteRoadMissing(route, Trim(names[k]), Trim(names[k + 1]))))
    else MissingLink(roads, route, names, k + 1)
  }

  lemma {:induction false} MissingLinkPasses(roads: seq<Road>, route: string, names: seq<string>, k: nat)
    ensures MissingLink(roads, route, names, k).Pass? <==> LinkedBetween(roads, names, k, |names|)
    decreases |names| - k
  {
    if k + 1 < |names| && HasLink(roads, names, k) {
      MissingLinkPasses(roads, route, names, k + 1);
    }
  }

  lemma {:induction false} MissingLinkFails(roads: seq<Road>, route: string, names: seq<string>, k: nat)
    ensures MissingLink(roads, route, names, k).Fail? ==>
      exists m: nat :: k <= m && m + 1 < |names| && !HasLink(roads, names, m)
        && LinkedBetween(roads, names, k, m)
        && MissingLink(roads, route, names, k) == Fail(Validation(RouteRoadMissing(route, Trim(names[m]), Trim(names[m + 1]))))
    decreases |names| - k
  {
    if k + 1 < |names| && HasLink(roads, names, k) {
      MissingLinkFails(roads, route, names, k + 1);
    }
  }

  /**
   * `assertPlannedTripRoads`: a road joins every consecutive pair of trimmed
   * names of the route, in the route's direction; the first pair without
   * one is reported.
   */
  function AssertPlannedTripRoads(roads: seq<Road>, route: string): (r: Outcome)
    ensures r.Pass? <==> forall j: nat :: j + 1 < |RouteNames(route)| ==> HasLink(roads, RouteNames(route), j)
    ensures r.Fail? ==>
      exists m: nat :: m + 1 < |RouteNames(route)| && !HasLink(roads, RouteNames(route), m)
        && LinkedBetween(roads, RouteNames(route), 0, m)
        && r.error == Validation(RouteRoadMissing(route, Trim(RouteNames(route)[m]), Trim(RouteNames(route)[m + 1])))
  {
    MissingLinkPasses(roads, route, RouteNames(route), 0);
    MissingLinkFails(roads, route, RouteNames(route), 0);
    MissingLink(roads, route, RouteNames(route), 0)
  }

  /** A route of one station needs no road, and one whose only station is unknown fails on it. */
  lemma SingleStationRoute(stations: seq<Station>, roads: seq<Road>, name: string)
    requires RoutePathSeparator !in name
    ensures AssertPlannedTripRoads(roads, name).Pass?
    ensures !ContainsStationByName(stations, Trim(name)) ==>
      AssertTripRouteStations(stations, name) == Fail(Validation(RouteStationMissing(name, name)))
  {
    assert RouteNames(name) == [name];
  }

  /** The station named by piece `j` of a validated route. */
  function NamedStation(stations: seq<Station>, names: seq<string>, j: nat): (s: Station)
    requires j < |names| && ContainsStationByName(stations, Trim(names[j]))
    ensures s in stations && s.name == Trim(names[j])
  {
    GetStationByName(stations, Trim(names[j])).value
  }

  /** The road joining pieces `j` and `j + 1` of a validated route. */
  function LinkRoad(roads: seq<Road>, names: seq<string>, j: nat): (r: Road)
    requires j + 1 < |names| && HasLink(roads, names, j)
    ensures r in roads && r.sourceStationName == Trim(names[j]) && r.destStationName == Trim(names[j + 1])
  {
    FirstRoadBetween(roads, Trim(names[j]), Trim(names[j + 1])).value
  }

  /** The stations of a validated route: `getStationsFromStrArr`, by trimmed name. */
  function RouteStations(stations: seq<Station>, names: seq<string>): (r: seq<Station>)
    requires forall j :: 0 <= j < |names| ==> ContainsStationByName(stations, Trim(names[j]))
    ensures |r| == |names|
    ensures forall j :: 0 <= j < |names| ==> r[j] == NamedStation(stations, names, j)
  {
    StationsOfPieces(stations, names, |names|)
  }

  /** The stations of the first `k` pieces, in order. */
  function StationsOfPieces(stations: seq<Station>, names: seq<string>, k: nat): (r: seq<Station>)
    requires k <= |names|
    requires forall j :: 0 <= j < |names| ==> ContainsStationByName(stations, Trim(names[j]))
    ensures |r| == k && forall j :: 0 <= j < k ==> r[j] == NamedStation(stations, names, j)
  {
    if k == 0 then [] else StationsOfPieces(stations, names, k - 1) + [NamedStation(stations, names, k - 1)]
  }

  /** The roads of a validated route: `getRoadListFromStationsPath`, one per consecutive pair. */
  function RouteRoads(roads: seq<Road>, names: seq<string>): (r: seq<Road>)
    requires forall j: nat :: j + 1 < |names| ==> HasLink(roads, names, j)
    ensures |r| == if names == [] then 0 else |names| - 1
    ensures forall j :: 0 <= j < |r| ==> r[j] == LinkRoad(roads, names, j)
  {
    RoadsOfPieces(roads, names, if names == [] then 0 else |names| - 1)
  }

  /** The roads joining the first `k` consecutive pairs of pieces, in order. */
  function RoadsOfPieces(roads: seq<Road>, names: seq<string>, k: nat): (r: seq<Road>)
    requires k == 0 || k < |names|
    requires forall j: nat :: j + 1 < |names| ==> HasLink(roads, names, j)
    ensures |r| == k && forall j :: 0 <= j < k ==> r[j] == LinkRoad(roads, names, j)
  {
    if k == 0 then [] else RoadsOfPieces(roads, names, k - 1) + [LinkRoad(roads, names, k - 1)]
  }

  /** A validated route's stations and roads are known ones, and the roads join the stations end to end. */
  lemma RouteRoadsJoinRouteStations(stations: seq<Station>, roads: seq<Road>, names: seq<string>)
    requires forall j :: 0 <= j < |names| ==> ContainsStationByName(stations, Trim(names[j]))
    requires forall j: nat :: j + 1 < |names| ==> HasLink(roads, names, j)
    ensures var ss := RouteStations(stations, names); var rs := RouteRoads(roads, names);
      (forall j :: 0 <= j < |ss| ==> ss[j] in stations)
      && (forall j :: 0 <= j < |rs| ==> rs[j] in roads)
      && forall j :: 0 <= j < |rs| ==> rs[j].sourceStationName == ss[j].name && rs[j].destStationName == ss[j + 1].name
  {
    var ss := RouteStations(stations, names);
    var rs := RouteRoads(roads, names);
    forall j | 0 <= j < |rs|
      ensures rs[j].sourceStationName == ss[j].name && rs[j].destStationName == ss[j + 1].name
    {
      assert rs[j] == LinkRoad(roads, names, j);
      assert ss[j] == NamedStation(stations, names, j);
      assert ss[j + 1] == NamedStation(stations, names, j + 1);
    }
  }

  /** What a planned trip turns into: the fields of the offer and of its timing. */
  datatype OfferPlan = OfferPlan(
    owner: string, capacity: int, ppk: int,
    stations: seq<Station>, roads: seq<Road>,
    day: int, time: LocalTime, rate: RepetitionRate)

  /**
   * Everything a planned trip goes through in `createTripOffers`: its
   * stations, its roads, then the `TripTiming` constructor, which checks the
   * time (minute 0) and then the recurrence name.
   */
  function PlanOffer(stations: seq<Station>, roads: seq<Road>, trip: PlannedTrip): Result<OfferPlan> {
    var names := RouteNames(trip.route);
    var c := MissingPiece(stations, trip.route, names, 0);
    if c.Fail? then Failure(c.error)
    else
      var d := MissingLink(roads, trip.route, names, 0);
      if d.Fail? then Failure(d.error)
      else
        var time := RoundTimeOf(trip.scheduling.hourStart, 0);
        if time.Failure? then Failure(time.error)
        else
          var rate := RateValueOf(trip.scheduling.recurrences);
          if rate.Failure? then Failure(rate.error)
          else
            MissingPiecePasses(stations, trip.route, names, 0);
            MissingLinkPasses(roads, trip.route, names, 0);
            Success(OfferPlan(trip.owner, trip.capacity, trip.ppk, RouteStations(stations, names),
                              RouteRoads(roads, names), trip.scheduling.dayStart, time.value, rate.value))
  }

  /** A trip is accepted when its route is made of known stations and roads and its schedule is valid. */
  lemma PlanOfferSucceedsIff(stations: seq<Station>, roads: seq<Road>, trip: PlannedTrip)
    ensures PlanOffer(stations, roads, trip).Success? <==>
      AssertTripRouteStations(stations, trip.route).Pass? && AssertPlannedTripRoads(roads, trip.route).Pass?
      && 0 <= trip.scheduling.hourStart <= 23 && RateValueOf(trip.scheduling.recurrences).Success?
    ensures (AssertTripRouteStations(stations, trip.route).Pass? && AssertPlannedTripRoads(roads, trip.route).Pass?
      && !(0 <= trip.scheduling.hourStart <= 23)) ==>
      PlanOffer(stations, roads, trip) == Failure(InvalidTime(trip.scheduling.hourStart, 0))
  {
  }

  /**
   * An accepted trip yields an offer along its route: known stations, known
   * roads joining them end to end, a start on the five-minute grid and the
   * recurrence that was named.
   */
  lemma PlannedOfferFollowsRoute(stations: seq<Station>, roads: seq<Road>, trip: PlannedTrip)
    requires PlanOffer(stations, roads, trip).Success?
    ensures var p := PlanOffer(stations, roads, trip).value;
      |p.stations| == |RouteNames(trip.route)|
      && |p.roads| == (if p.stations == [] then 0 else |p.stations| - 1)
      && (forall j :: 0 <= j < |p.stations| ==> p.stations[j] in stations)
      && (forall j :: 0 <= j < |p.roads| ==> p.roads[j] in roads)
      && (forall j :: 0 <= j < |p.roads| ==>
        p.roads[j].sourceStationName == p.stations[j].name && p.roads[j].destStationName == p.stations[j + 1].name)
      && OnGrid(p.time) && RateName(p.rate) == trip.scheduling.recurrences
      && p.owner == trip.owner && p.day == trip.scheduling.dayStart
  {
    MissingPiecePasses(stations, trip.route, RouteNames(trip.route), 0);
    MissingLinkPasses(roads, trip.route, RouteNames(trip.route), 0);
    RouteRoadsJoinRouteStations(stations, roads, RouteNames(trip.route));
  }

  /** What happens to each planned trip, in order, taken on its own. */
  function Outcomes(stations: seq<Station>, roads: seq<Road>, trips: seq<PlannedTrip>): (r: seq<Result<OfferPlan>>)
    ensures |r| == |trips|
    decreases |trips|
  {
    if trips == [] then []
    else Outcomes(stations, roads, trips[..|trips| - 1]) + [PlanOffer(stations, roads, trips[|trips| - 1])]
  }

  lemma {:induction false} OutcomeAt(stations: seq<Station>, roads: seq<Road>, trips: seq<PlannedTrip>, k: nat)
    requires k < |trips|
    ensures Outcomes(stations, roads, trips)[k] == PlanOffer(stations, roads, trips[k])
    decreases |trips|
  {
    if k < |trips| - 1 {
      var front := trips[..|trips| - 1];
      assert front[k] == trips[k];
      OutcomeAt(stations, roads, front, k);
    }
  }

  /** The verdict on trip `j` from its outcome. */
  function TripAt(outcomes: seq<Result<OfferPlan>>, j: nat): Outcome {
    if j < |outcomes| && outcomes[j].Failure? then Fail(outcomes[j].error) else Pass
  }

  function TripChecks(outcomes: seq<Result<OfferPlan>>): nat -> Outcome {
    (j: nat) => TripAt(outcomes, j)
  }

  /** The outcome of `createTripOffers`: the trips are taken in order and the first rejected one ends the load. */
  function CheckTrips(stations: seq<Station>, roads: seq<Road>, trips: seq<PlannedTrip>): Outcome {
    FirstFailure(|trips|, TripChecks(Outcomes(stations, roads, trips)), 0)
  }

  /**
   * The trips are accepted exactly when each of them is, and a rejection is
   * the first rejected trip's; `OutcomeAt` says what each outcome is.
   */
  lemma TripsAcceptedIff(stations: seq<Station>, roads: seq<Road>, trips: seq<PlannedTrip>)
    ensures CheckTrips(stations, roads, trips).Pass? <==>
      forall j :: 0 <= j < |trips| ==> Outcomes(stations, roads, trips)[j].Success?
    ensures CheckTrips(stations, roads, trips).Fail? ==>
      exists m :: 0 <= m < |trips|
        && Outcomes(stations, roads, trips)[m] == Failure(CheckTrips(stations, roads, trips).error)
        && forall j :: 0 <= j < m ==> Outcomes(stations, roads, trips)[j].Success?
  {
    var check := TripChecks(Outcomes(stations, roads, trips));
    FirstFailureSpec(|trips|, check, 0);
    forall j | 0 <= j < |trips|
      ensures check(j).Pass? <==> Outcomes(stations, roads, trips)[j].Success?
    {
      assert check(j) == TripAt(Outcomes(stations, roads, trips), j);
    }
  }

  /** Trips accepted before a rejected trip `m` leave the load to fail on trip `m`. */
  lemma RejectedAt(stations: seq<Station>, roads: seq<Road>, trips: seq<PlannedTrip>, m: nat)
    requires m < |trips|
    requires forall i :: 0 <= i < m ==> Outcomes(stations, roads, trips)[i].Success?
    requires Outcomes(stations, roads, trips)[m].Failure?
    ensures CheckTrips(stations, roads, trips) == Fail(Outcomes(stations, roads, trips)[m].error)
  {
    var outcomes := Outcomes(stations, roads, trips);
    FirstFailureSpec(|trips|, TripChecks(outcomes), 0);
    assert TripChecks(outcomes)(m).Fail?;
  }

  /** When every trip is accepted, so is the load. */
  lemma AllAccepted(stations: seq<Station>, roads: seq<Road>, trips: seq<PlannedTrip>)
    requires forall i :: 0 <= i < |trips| ==> Outcomes(stations, roads, trips)[i].Success?
    ensures CheckTrips(stations, roads, trips).Pass?
  {
    var outcomes := Outcomes(stations, roads, trips);
    FirstFailureSpec(|trips|, TripChecks(outcomes), 0);
  }

  /** The offer and its timing hold what the plan says, and nobody is registered yet. */
  predicate Realizes(offer: TripOffer, plan: OfferPlan)
    reads offer, offer.timing
  {
    offer.offeringUserName == plan.owner && offer.passengersQuota == plan.capacity
    && offer.pricePerKm == plan.ppk
    && offer.stationsInTrip == plan.stations && offer.roadsInTrip == plan.roads
    && offer.timing.day == plan.day && offer.timing.time == plan.time
    && offer.timing.repetitionRate == plan.rate
    && offer.registered == {}
  }

  /**
   * `transPoolTripToTripOffer`, once the route was validated: the stations
   * and roads are resolved by name and the timing is built, which may throw.
   * The schedule of the offer is computed by `schedule`.
   */
  method TransPoolTripToTripOffer(trip: PlannedTrip, stations: seq<Station>, roads: seq<Road>, schedule: ScheduleFunction)
    returns (r: Result<TripOffer>)
    requires AssertTripRouteStations(stations, trip.route).Pass?
    requires AssertPlannedTripRoads(roads, trip.route).Pass?
    ensures r.Success? <==> PlanOffer(stations, roads, trip).Success?
    ensures r.Failure? ==> r.error == PlanOffer(stations, roads, trip).error
    ensures r.Success? ==>
      fresh(r.value) && fresh(r.value.timing) && Realizes(r.value, PlanOffer(stations, roads, trip).value)
  {
    var names := RouteNames(trip.route);
    var tripStations := RouteStations(stations, names);
    var tripRoads := RouteRoads(roads, names);
    var timing := TripTiming.Create(trip.scheduling.dayStart, trip.scheduling.hourStart, 0, trip.scheduling.recurrences);
    if timing.Failure? {
      return Failure(timing.error);
    }
    var when := schedule(timing.value.time, tripStations, tripRoads);
    var offer := new TripOffer(trip.owner, trip.capacity, trip.ppk, timing.value, tripStations, tripRoads, when);
    return Success(offer);
  }

  /**
   * One pass of the loop of `createTripOffers`, on trip `k`: the route's
   * stations and roads are checked, then the offer is built.
   */
  method CreateTripOffer(stations: seq<Station>, roads: seq<Road>, trips: seq<PlannedTrip>, k: nat, schedule: ScheduleFunction)
    returns (r: Result<TripOffer>)
    requires k < |trips|
    ensures r.Success? <==> Outcomes(stations, roads, trips)[k].Success?
    ensures r.Failure? ==> r.error == Outcomes(stations, roads, trips)[k].error
    ensures r.Success? ==>
      fresh(r.value) && fresh(r.value.timing) && Realizes(r.value, Outcomes(stations, roads, trips)[k].value)
  {
    OutcomeAt(stations, roads, trips, k);
    var trip := trips[k];
    var c := AssertTripRouteStations(stations, trip.route);
    if c.Fail? {
      return Failure(c.error);
    }
    var d := AssertPlannedTripRoads(roads, trip.route);
    if d.Fail? {
      return Failure(d.error);
    }
    r := TransPoolTripToTripOffer(trip, stations, roads, schedule);
  }

  /**
   * `createTripOffers`: one offer per planned trip, the first rejected trip
   * ending the load. Each offer has a timing object of its own, so no two
   * offers are `equals` and the `HashSet` keeps them all.
   */
  method CreateTripOffers(stations: seq<Station>, roads: seq<Road>, trips: seq<PlannedTrip>, schedule: ScheduleFunction)
    returns (r: Result<seq<TripOffer>>)
    ensures r.Success? <==> CheckTrips(stations, roads, trips).Pass?
    ensures r.Failure? ==> Fail(r.error) == CheckTrips(stations, roads, trips)
    ensures r.Success? ==> |r.value| == |trips|
    ensures r.Success? ==> forall i :: 0 <= i < |trips| ==> fresh(r.value[i]) && fresh(r.value[i].timing)
    ensures r.Success? ==> forall i, j :: 0 <= i < j < |trips| ==> r.value[i].timing != r.value[j].timing
    ensures r.Success? ==> forall i :: 0 <= i < |trips| ==>
      Outcomes(stations, roads, trips)[i].Success? && Realizes(r.value[i], Outcomes(stations, roads, trips)[i].value)
  {
    ghost var outcomes := Outcomes(stations, roads, trips);
    var offers: seq<TripOffer> := [];
    for k := 0 to |trips|
      invariant |offers| == k
      invariant forall i :: 0 <= i < k ==> fresh(offers[i]) && fresh(offers[i].timing)
      invariant forall i, j :: 0 <= i < j < k ==> offers[i].timing != offers[j].timing
      invariant forall i :: 0 <= i < k ==> outcomes[i].Success? && Realizes(offers[i], outcomes[i].value)
    {
      var offer := CreateTripOffer(stations, roads, trips, k, schedule);
      if offer.Failure? {
        RejectedAt(stations, roads, trips, k);
        return Failure(offer.error);
      }
      offers := offers + [offer.value];
    }
    AllAccepted(stations, roads, trips);
    return Success(offers);
  }

  /** Offers with timing objects of their own are never `equals`, so a `HashSet` keeps them all. */
  lemma DistinctTimingsMakeDistinctOffers(offers: seq<TripOffer>)
    requires forall i, j :: 0 <= i < j < |offers| ==> offers[i].timing != offers[j].timing
    ensures forall i, j :: 0 <= i < j < |offers| ==> !OfferEquals(offers[i], offers[j])
  {
  }

  /** The verdict of the whole validation, in the order `PopulateModels` runs it. */
  function CheckDataset(input: TransPool): Outcome {
    var b := AssertMapBoundaries(input.length, input.width);
    if b.Fail? then b
    else
      var s := AssertStationsInMapRange(input.length, input.width, input.stops);
      if s.Fail? then s
      else
        var g := CheckStops(input.stops);
        if g.Fail? then g
        else
          var stations := StationsBefore(input.stops, |input.stops|);
          var p := CheckPaths(stations, input.paths);
          if p.Fail? then p
          else CheckTrips(stations, RoadsBefore(input.paths, |input.paths|), input.trips)
  }

  /**
   * An accepted dataset has a map within bounds, every station on it with a
   * name of its own, and every road between two of its stations.
   */
  lemma AcceptedDatasetIsConsistent(input: TransPool)
    requires CheckDataset(input).Pass?
    ensures MinLength <= input.length <= MaxLength && MinWidth <= input.width <= MaxWidth
    ensures var stations := StationsBefore(input.stops, |input.stops|);
      UniqueNames(stations)
      && forall i :: 0 <= i < |stations| ==> IsOnGrid(input.length, input.width, stations[i].coordinate)
    ensures var roads := RoadsBefore(input.paths, |input.paths|);
      forall i :: 0 <= i < |roads| ==>
        ContainsStationByName(StationsBefore(input.stops, |input.stops|), roads[i].sourceStationName)
        && ContainsStationByName(StationsBefore(input.stops, |input.stops|), roads[i].destStationName)
  {
    var stations := StationsBefore(input.stops, |input.stops|);
    AcceptedStationsHaveUniqueNames(input.stops);
    assert forall i :: 0 <= i < |stations| ==> stations[i].coordinate == StopPoint(input.stops[i]);
    PathsAcceptedIff(stations, input.paths);
  }

  /**
   * `PopulateModels`: validation first, which leaves the `Map` singleton as it
   * was on failure; then `TranspoolManager.reset` and `init`, which install
   * the new map.
   */
  method PopulateModels(input: TransPool, registry: MapRegistry, schedule: ScheduleFunction)
    returns (r: Result<TranspoolManager>)
    modifies registry
    ensures r.Success? <==> CheckDataset(input).Pass?
    ensures r.Failure? ==> Fail(r.error) == CheckDataset(input) && registry.instance == old(registry.instance)
    ensures r.Success? ==>
      var m := Map(input.length, input.width, StationsBefore(input.stops, |input.stops|),
                   RoadsBefore(input.paths, |input.paths|));
      fresh(r.value) && registry.instance == Some(m) && r.value.roadMap == Some(m)
      && r.value.users == [] && fresh(r.value.tripsManager) && r.value.tripsManager.requests == {}
      && |r.value.tripsManager.offers| == |input.trips|
      && forall i :: 0 <= i < |input.trips| ==>
        Outcomes(m.stations, m.roads, input.trips)[i].Success?
        && Realizes(r.value.tripsManager.offers[i], Outcomes(m.stations, m.roads, input.trips)[i].value)
  {
    var bounds := AssertMapBoundaries(input.length, input.width);
    if bounds.Fail? {
      return Failure(bounds.error);
    }
    var range := AssertStationsInMapRange(input.length, input.width, input.stops);
    if range.Fail? {
      return Failure(range.error);
    }
    var stations := CreateStationsGraph(input.stops);
    if stations.Failure? {
      return Failure(stations.error);
    }
    var roads := CreateRoads(input.paths, stations.value);
    if roads.Failure? {
      return Failure(roads.error);
    }
    var offers := CreateTripOffers(stations.value, roads.value, input.trips, schedule);
    if offers.Failure? {
      return Failure(offers.error);
    }
    registry.Reset();
    var manager := new TranspoolManager(registry, input.length, input.width, stations.value, roads.value, offers.value);
    return Success(manager);
  }

  /** The one file type the loader reads. */
  const SupportedFileType: string := "xml"

  /**
   * `assertFilePath`: the file must exist and the extension of its name,
   * lower-cased, must be the supported type. A name made of dots only has no
   * piece to take the extension from, and `getFileExtension` indexes past the
   * end of the empty split.
   */
  function AssertFilePath(fileExists: bool, fileName: string): (r: Outcome)
    ensures r.Pass? <==> fileExists && HasSplitPiece(fileName) && GetFileExtension(fileName) == SupportedFileType
    ensures !fileExists ==> r == Fail(FileNotFound)
    ensures fileExists && !HasSplitPiece(fileName) ==> r == Fail(IndexOutOfRange)
    ensures fileExists && HasSplitPiece(fileName) && GetFileExtension(fileName) != SupportedFileType ==>
      r == Fail(UnsupportedFileType(GetFileExtension(fileName)))
  {
    if !fileExists then Fail(FileNotFound)
    else if !HasSplitPiece(fileName) then Fail(IndexOutOfRange)
    else
      var extension := GetFileExtension(fileName);
      if extension != SupportedFileType then Fail(UnsupportedFileType(extension)) else Pass
  }

  /**
   * An existing file is accepted exactly when the last dot-free piece of its
   * name spells "xml" in any case; trailing dots do not count.
   */
  lemma FileTypeDecidedByLastPiece(pre: string, ext: string, dots: string)
    requires pre == [] || pre[|pre| - 1] == '.'
    requires ext != [] && '.' !in ext
    requires forall i :: 0 <= i < |dots| ==> dots[i] == '.'
    ensures ToLower(ext) == SupportedFileType ==> AssertFilePath(true, pre + ext + dots) == Pass
    ensures ToLower(ext) != SupportedFileType ==>
      AssertFilePath(true, pre + ext + dots) == Fail(UnsupportedFileType(ToLower(ext)))
  {
    ExtensionIsLastPiece(pre, ext, dots);
  }

  /**
   * `Load(path)`: the file checks, then parsing, then `PopulateModels`.
   * Whether the file exists and its name are parameters; `document` is the
   * parsed file, `None` when it does not fit the schema.
   */
  method Load(fileExists: bool, fileName: string, document: Option<TransPool>, registry: MapRegistry,
              schedule: ScheduleFunction)
    returns (r: Result<TranspoolManager>)
    modifies registry
    ensures AssertFilePath(fileExists, fileName).Fail? ==> r == Failure(AssertFilePath(fileExists, fileName).error)
    ensures AssertFilePath(fileExists, fileName).Pass? && document.None? ==> r == Failure(LoadFailed)
    ensures AssertFilePath(fileExists, fileName).Pass? && document.Some? ==>
      (r.Success? <==> CheckDataset(document.value).Pass?)
      && (r.Failure? ==> Fail(r.error) == CheckDataset(document.value))
    ensures r.Failure? ==> registry.instance == old(registry.instance)
    ensures r.Success? ==>
      document.Some?
      && var m := Map(document.value.length, document.value.width,
                      StationsBefore(document.value.stops, |document.value.stops|),
                      RoadsBefore(document.value.paths, |document.value.paths|));
      fresh(r.value) && registry.instance == Some(m) && r.value.roadMap == Some(m)
      && r.value.users == [] && fresh(r.value.tripsManager) && r.value.tripsManager.requests == {}
      && |r.value.tripsManager.offers| == |document.value.trips|
      && forall i :: 0 <= i < |document.value.trips| ==>
        Outcomes(m.stations, m.roads, document.value.trips)[i].Success?
        && Realizes(r.value.tripsManager.offers[i], Outcomes(m.stations, m.roads, document.value.trips)[i].value)
  {
    var file := AssertFilePath(fileExists, fileName);
    if file.Fail? {
      return Failure(file.error);
    }
    if document.None? {
      return Failure(LoadFailed);
    }
    r := PopulateModels(document.value, registry, schedule);
  }
}
