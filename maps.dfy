/**
 * `Map`, in its two versions (`Submit/SourceCode/model` and `model/src/model`):
 * the singleton road network of stations and roads on a grid of `WIDTH` by
 * `LENGTH`. The earlier `model/src/model` version ends at `getRoad`, whose
 * lookups do not throw; it has no `getStationIfExists`, `getStationsByNames`
 * or `getRoadsByStationsList`. The later version throws from `getStation` and
 * `getRoad` and adds those three.
 *
 * The static field `instance` is an object of its own, `MapRegistry`; a map
 * itself has only final fields and is a value.
 */
module Maps {
  import opened Common
  import opened Stations
  import opened Roads

  const MaxMapScale: int := 100
  const MinMapScale: int := 6
  const MaxLength: int := MaxMapScale
  const MaxWidth: int := MaxMapScale
  const MinLength: int := MinMapScale
  const MinWidth: int := MinMapScale

  datatype Map = Map(length: int, width: int, stations: seq<Station>, roads: seq<Road>)

  /** The static `Map.instance`, with `getInstance`, `init` and `reset`. */
  class MapRegistry {
    var instance: Option<Map>

    constructor ()
      ensures instance == None
    {
      instance := None;
    }

    /**
     * `Map.init`: refused while an instance exists, which then stays;
     * otherwise the new map is installed and returned.
     */
    method Init(length: int, width: int, stations: seq<Station>, roads: seq<Road>) returns (r: Result<Map>)
      modifies this
      ensures old(instance).Some? ==> r == Failure(MapAlreadyInitialized) && instance == old(instance)
      ensures old(instance).None? ==>
        r == Success(Map(length, width, stations, roads)) && instance == Some(r.value)
    {
      if instance.Some? {
        return Failure(MapAlreadyInitialized);
      }
      var m := Map(length, width, stations, roads);
      instance := Some(m);
      return Success(m);
    }

    /** `Map.reset`: forgets the instance, so that `init` succeeds again. */
    method Reset()
      modifies this
      ensures instance == None
    {
      instance := None;
    }
  }

  /** `reset` followed by `init` always installs the new map. */
  method ReplaceMap(registry: MapRegistry, length: int, width: int, stations: seq<Station>, roads: seq<Road>)
    returns (r: Result<Map>)
    modifies registry
    ensures r == Success(Map(length, width, stations, roads))
    ensures registry.instance == Some(Map(length, width, stations, roads))
  {
    registry.Reset();
    r := registry.Init(length, width, stations, roads);
  }

  /** The static `isOnMap(mapLength, mapWidth, point)`: both bounds inclusive. */
  predicate IsOnGrid(mapLength: int, mapWidth: int, p: Point) {
    p.y >= 0 && p.y <= mapLength && p.x >= 0 && p.x <= mapWidth
  }

  /** `isOnMap(point)` on an instance: the static test with the map's own bounds. */
  function IsOnMap(m: Map, p: Point): (b: bool)
    ensures b <==> IsOnGrid(m.length, m.width, p)
  {
    p.y >= 0 && p.y <= m.length && p.x >= 0 && p.x <= m.width
  }

  /** The corners are on the map, one step beyond either bound is not. */
  lemma MapCorners(m: Map)
    requires m.length >= 0 && m.width >= 0
    ensures IsOnMap(m, Point(0, 0)) && IsOnMap(m, Point(m.width, m.length))
    ensures !IsOnMap(m, Point(m.width + 1, 0)) && !IsOnMap(m, Point(0, m.length + 1))
    ensures !IsOnMap(m, Point(-1, 0)) && !IsOnMap(m, Point(0, -1))
  {
  }

  /** `hasStation`: some stored station carries the name. */
  predicate HasStation(m: Map, name: string) {
    ContainsStationByName(m.stations, name)
  }

  /** `getStation`: the station of that name, or `StationDoesNotExistException`. */
  function GetStation(m: Map, name: string): (r: Result<Station>)
    ensures r.Success? <==> HasStation(m, name)
    ensures r.Success? ==> r.value in m.stations && r.value.name == name
    ensures r.Failure? ==> r.error == StationDoesNotExist(name)
  {
    match GetStationByName(m.stations, name)
    case Some(s) => Success(s)
    case None => Failure(StationDoesNotExist(name))
  }

  /** `getStationIfExists`: the station when `hasStation`, otherwise `null`. */
  function GetStationIfExists(m: Map, name: string): (r: Option<Station>)
    ensures r.Some? <==> HasStation(m, name)
    ensures r.Some? ==> Success(r.value) == GetStation(m, name)
  {
    if HasStation(m, name) then Some(GetStation(m, name).value) else None
  }

  /**
   * `getStationsByNames`: one station per name, in order; the first unknown
   * name stops the loop with `StationDoesNotExistException`.
   */
  method GetStationsByNames(m: Map, names: seq<string>) returns (r: Result<seq<Station>>)
    ensures r.Success? <==> forall i :: 0 <= i < |names| ==> HasStation(m, names[i])
    ensures r.Success? ==>
      |r.value| == |names| && forall i :: 0 <= i < |names| ==> GetStation(m, names[i]) == Success(r.value[i])
    ensures r.Failure? ==>
      exists k :: 0 <= k < |names| && !HasStation(m, names[k])
        && (forall j :: 0 <= j < k ==> HasStation(m, names[j]))
        && r.error == StationDoesNotExist(names[k])
  {
    var stations: seq<Station> := [];
    for i := 0 to |names|
      invariant |stations| == i
      invariant forall j :: 0 <= j < i ==> HasStation(m, names[j]) && GetStation(m, names[j]) == Success(stations[j])
    {
      var s := GetStation(m, names[i]);
      if s.Failure? {
        return Failure(s.error);
      }
      stations := stations + [s.value];
    }
    return Success(stations);
  }

  /** `hasRoad`: a stored road runs from `src` to `dst`, in that order. */
  predicate HasRoad(m: Map, src: string, dst: string) {
    ContainsRoadBySrcAndDstNames(m.roads, src, dst)
  }

  /** The first road, in iteration order, that `equals` the probe `(src, dst)`. */
  function FirstRoadBetween(roads: seq<Road>, src: string, dst: string): (r: Option<Road>)
    ensures r.Some? <==> ContainsRoadBySrcAndDstNames(roads, src, dst)
    ensures r.Some? ==> r.value in roads && r.value.sourceStationName == src && r.value.destStationName == dst
    decreases |roads|
  {
    if roads == [] then None
    else if RoadEquals(roads[0], Probe(src, dst)) then Some(roads[0])
    else
      assert forall i :: 1 <= i < |roads| ==> roads[i] == roads[1..][i - 1];
      FirstRoadBetween(roads[1..], src, dst)
  }

  /** `getRoad`: the road from `src` to `dst`, or `RoadDoesNotExistException`. */
  function GetRoad(m: Map, src: string, dst: string): (r: Result<Road>)
    ensures r.Success? <==> HasRoad(m, src, dst)
    ensures r.Success? ==> r.value in m.roads && r.value.sourceStationName == src && r.value.destStationName == dst
    ensures r.Failure? ==> r.error == RoadDoesNotExist(src, dst)
  {
    match FirstRoadBetween(m.roads, src, dst)
    case Some(road) => Success(road)
    case None => Failure(RoadDoesNotExist(src, dst))
  }

  /** A stored road runs from station `j` of the list to station `j + 1`. */
  predicate Linked(m: Map, stations: seq<Station>, j: int)
    requires 0 <= j < |stations| - 1
  {
    HasRoad(m, stations[j].name, stations[j + 1].name)
  }

  /**
   * `getRoadsByStationsList`: one road per consecutive pair of stations, road
   * i joining station i to station i + 1; the first missing link stops the
   * loop with `RoadDoesNotExistException`.
   */
  method GetRoadsByStationsList(m: Map, stations: seq<Station>) returns (r: Result<seq<Road>>)
    ensures r.Success? <==> forall i :: 0 <= i < |stations| - 1 ==> Linked(m, stations, i)
    ensures r.Success? ==>
      |r.value| == if stations == [] then 0 else |stations| - 1
    ensures r.Success? ==>
      forall i :: 0 <= i < |r.value| ==> GetRoad(m, stations[i].name, stations[i + 1].name) == Success(r.value[i])
    ensures r.Failure? ==>
      exists k :: 0 <= k < |stations| - 1 && !Linked(m, stations, k)
        && (forall j :: 0 <= j < k ==> Linked(m, stations, j))
        && r.error == RoadDoesNotExist(stations[k].name, stations[k + 1].name)
  {
    var roads: seq<Road> := [];
    var i := 0;
    while i < |stations| - 1
      invariant 0 <= i && |roads| == i
      invariant if stations == [] then i == 0 else i <= |stations| - 1
      invariant forall j :: 0 <= j < i ==>
        Linked(m, stations, j) && GetRoad(m, stations[j].name, stations[j + 1].name) == Success(roads[j])
    {
      var road := GetRoad(m, stations[i].name, stations[i + 1].name);
      if road.Failure? {
        assert !Linked(m, stations, i);
        return Failure(road.error);
      }
      roads := roads + [road.value];
      i := i + 1;
    }
    return Success(roads);
  }

  /** Resolved roads follow the stations: road i runs from station i to station i + 1. */
  lemma RoadsFollowStations(m: Map, stations: seq<Station>, roads: seq<Road>)
    requires |roads| == |stations| - 1
    requires forall i :: 0 <= i < |roads| ==> GetRoad(m, stations[i].name, stations[i + 1].name) == Success(roads[i])
    ensures forall i :: 0 <= i < |roads| ==>
      roads[i].sourceStationName == stations[i].name && roads[i].destStationName == stations[i + 1].name
    ensures forall i :: 0 <= i < |roads| ==> roads[i] in m.roads
  {
    forall i | 0 <= i < |roads|
      ensures roads[i].sourceStationName == stations[i].name && roads[i].destStationName == stations[i + 1].name
      ensures roads[i] in m.roads
    {
      var r := GetRoad(m, stations[i].name, stations[i + 1].name);
      assert r.Success? && r.value == roads[i];
    }
  }
}
