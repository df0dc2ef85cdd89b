/**
 * `Engine`, the facade the console drives, in its two versions: the one in
 * `Submit/SourceCode/engine` and the earlier one in `engine/src/engine`.
 *
 * Every operation except loading starts with `assertEngineInitialized`, so
 * nothing works until a dataset is loaded. The static `transpoolManager` is
 * a field of the one engine object. The `Map` singleton, the static user id
 * counter and the offers' schedule are handed to the engine when it is built.
 *
 * The earlier version has no `getAllRoads`, `postTripOffer` or
 * `getUnmatchedTripRequests`; those three exist only in the later one. The
 * two also differ in `postTripRequest`. The later version looks up the owner
 * and never creates one; its method is `PostTripRequest`. The earlier version
 * gets or creates the owner; its method is `LegacyPostTripRequestAsWritten`,
 * next to the corrected `LegacyPostTripRequest`. The remaining operations
 * are the same in both.
 */
module Engines {
  import opened Common
  import opened Stations
  import opened Roads
  import opened Timing
  import opened Enums
  import opened Maps
  import opened Users
  import opened Trips
  import opened Manager
  import opened InputValidation
  import opened Loader

  class Engine {
    var transpoolManager: TranspoolManager?
    const registry: MapRegistry
    const counter: IdCounter
    const schedule: ScheduleFunction

    /** A new engine has no data. */
    constructor (registry: MapRegistry, counter: IdCounter, schedule: ScheduleFunction)
      ensures transpoolManager == null
      ensures this.registry == registry && this.counter == counter && this.schedule == schedule
      ensures Consistent()
    {
      transpoolManager := null;
      this.registry := registry;
      this.counter := counter;
      this.schedule := schedule;
    }

    /**
     * The engine's invariant: once loaded, the manager holds a map and it is
     * the map the `Map` singleton holds. `Map.getInstance()` and
     * `transpoolManager.getMap()` therefore answer alike.
     */
    predicate Consistent()
      reads this, registry, transpoolManager
    {
      transpoolManager != null ==>
        transpoolManager.roadMap.Some? && registry.instance == transpoolManager.roadMap
    }

    /** The trips manager of the loaded dataset, which request and offer posting change. */
    function Pools(): set<object>
      reads this
    {
      if transpoolManager == null then {} else {transpoolManager.tripsManager}
    }

    /** Pools() plus the manager itself, whose user list the earlier engine extends. */
    function Footprint(): set<object>
      reads this
    {
      if transpoolManager == null then {} else {transpoolManager, transpoolManager.tripsManager}
    }

    /** The map the singleton holds. */
    function ActiveMap(): Map
      reads this, registry
      requires registry.instance.Some?
    {
      registry.instance.value
    }

    /** `assertEngineInitialized`: fails while no dataset is loaded. */
    function AssertEngineInitialized(): (r: Outcome)
      reads this
      ensures r.Pass? <==> transpoolManager != null
      ensures r.Fail? ==> r.error == NotInitialized
    {
      if transpoolManager == null then Fail(NotInitialized) else Pass
    }

    /**
     * `readXmlFile`: the manager is replaced only when `Load` succeeds. A
     * failing load throws before the assignment, so the loaded data stays as
     * it was, and so does the singleton.
     */
    method ReadXmlFile(fileExists: bool, fileName: string, document: Option<TransPool>) returns (r: Outcome)
      requires Consistent()
      modifies this, registry
      ensures Consistent()
      ensures r.Pass? <==>
        AssertFilePath(fileExists, fileName).Pass? && document.Some? && CheckDataset(document.value).Pass?
      ensures AssertFilePath(fileExists, fileName).Fail? ==> r == AssertFilePath(fileExists, fileName)
      ensures AssertFilePath(fileExists, fileName).Pass? && document.None? ==> r == Fail(LoadFailed)
      ensures AssertFilePath(fileExists, fileName).Pass? && document.Some? ==> r == CheckDataset(document.value)
      ensures r.Fail? ==> transpoolManager == old(transpoolManager) && registry.instance == old(registry.instance)
      ensures r.Pass? ==>
        document.Some?
        && transpoolManager != null && fresh(transpoolManager)
        && transpoolManager.roadMap == Some(Map(document.value.length, document.value.width,
                                                StationsBefore(document.value.stops, |document.value.stops|),
                                                RoadsBefore(document.value.paths, |document.value.paths|)))
        && transpoolManager.users == [] && transpoolManager.tripsManager.requests == {}
        && |transpoolManager.tripsManager.offers| == |document.value.trips|
        && forall i :: 0 <= i < |document.value.trips| ==>
          Outcomes(ActiveMap().stations, ActiveMap().roads, document.value.trips)[i].Success?
          && Realizes(transpoolManager.tripsManager.offers[i],
                      Outcomes(ActiveMap().stations, ActiveMap().roads, document.value.trips)[i].value)
    {
      var loaded := Load(fileExists, fileName, document, registry, schedule);
      if loaded.Failure? {
        return Fail(loaded.error);
      }
      transpoolManager := loaded.value;
      return Pass;
    }

    /** `getAllStations`: the stations of the loaded map. */
    method GetAllStations() returns (r: Result<seq<Station>>)
      requires Consistent()
      ensures transpoolManager == null ==> r == Failure(NotInitialized)
      ensures transpoolManager != null ==> r == Success(ActiveMap().stations)
    {
      if transpoolManager == null {
        return Failure(NotInitialized);
      }
      return Success(transpoolManager.roadMap.value.stations);
    }

    /** `getAllRoads`: the roads of the loaded map. */
    method GetAllRoads() returns (r: Result<seq<Road>>)
      requires Consistent()
      ensures transpoolManager == null ==> r == Failure(NotInitialized)
      ensures transpoolManager != null ==> r == Success(ActiveMap().roads)
    {
      if transpoolManager == null {
        return Failure(NotInitialized);
      }
      return Success(transpoolManager.roadMap.value.roads);
    }

    /** `getAllTripOffers`: the pooled offers. */
    method GetAllTripOffers() returns (r: Result<seq<TripOffer>>)
      ensures transpoolManager == null ==> r == Failure(NotInitialized)
      ensures transpoolManager != null ==> r == Success(transpoolManager.tripsManager.offers)
    {
      if transpoolManager == null {
        return Failure(NotInitialized);
      }
      return Success(transpoolManager.tripsManager.offers);
    }

    /** `getAllTripRequests`: the pooled requests. */
    method GetAllTripRequests() returns (r: Result<set<TripRequest>>)
      ensures transpoolManager == null ==> r == Failure(NotInitialized)
      ensures transpoolManager != null ==> r == Success(transpoolManager.tripsManager.requests)
    {
      if transpoolManager == null {
        return Failure(NotInitialized);
      }
      return Success(transpoolManager.tripsManager.requests);
    }

    /**
     * `getUnmatchedTripRequests` as written: it returns `getUnmatchedRequests`,
     * whose filter keeps the requests that are already matched.
     */
    method GetUnmatchedTripRequests() returns (r: Result<set<TripRequest>>)
      ensures transpoolManager == null ==> r == Failure(NotInitialized)
      ensures transpoolManager != null ==> r.Success?
      ensures r.Success? ==>
        transpoolManager != null
        && forall q :: q in r.value <==> q in transpoolManager.tripsManager.requests && q.matchedTo != null
    {
      if transpoolManager == null {
        return Failure(NotInitialized);
      }
      return Success(transpoolManager.tripsManager.UnmatchedRequestsAsWritten());
    }

    /** `getUnmatchedTripRequests` with the filter of `getUnmatchedRequests` corrected. */
    method GetUnmatchedTripRequestsCorrected() returns (r: Result<set<TripRequest>>)
      ensures transpoolManager == null ==> r == Failure(NotInitialized)
      ensures transpoolManager != null ==> r.Success?
      ensures r.Success? ==>
        transpoolManager != null
        && forall q :: q in r.value <==> q in transpoolManager.tripsManager.requests && q.matchedTo == null
    {
      if transpoolManager == null {
        return Failure(NotInitialized);
      }
      return Success(transpoolManager.tripsManager.UnmatchedRequests());
    }

    /** `getAllMatchedToRequest`: the pooled offers that fit the request. */
    method GetAllMatchedToRequest(request: TripRequest) returns (r: Result<seq<TripOffer>>)
      ensures transpoolManager == null ==> r == Failure(NotInitialized)
      ensures transpoolManager != null ==> r.Success?
      ensures r.Success? ==>
        transpoolManager != null
        && (forall i :: 0 <= i < |r.value| ==>
              r.value[i] in transpoolManager.tripsManager.offers && IsPossibleMatch(r.value[i], request))
        && (forall i ::
              (0 <= i < |transpoolManager.tripsManager.offers|
               && IsPossibleMatch(transpoolManager.tripsManager.offers[i], request)) ==>
              transpoolManager.tripsManager.offers[i] in r.value)
    {
      if transpoolManager == null {
        return Failure(NotInitialized);
      }
      return Success(transpoolManager.tripsManager.PossibleMatches(request));
    }

    /** `matchTripRequestToOffer`: the guard, then `matchRequestToOffer`. */
    method MatchTripRequestToOffer(request: TripRequest, selectedMatch: TripOffer) returns (r: Outcome)
      modifies request, selectedMatch
      ensures transpoolManager == null ==> r == Fail(NotInitialized)
      ensures transpoolManager == null ==> unchanged(request, selectedMatch)
      ensures transpoolManager != null ==>
        r == Pass && request.matchedTo == selectedMatch
        && selectedMatch.registered == old(selectedMatch.registered) + {request}
        && request.requestingUser == old(request.requestingUser)
        && request.wantedSourceStation == old(request.wantedSourceStation)
        && request.wantedDestStation == old(request.wantedDestStation)
        && request.wantedTripStartTime == old(request.wantedTripStartTime)
        && selectedMatch.offeringUserName == old(selectedMatch.offeringUserName)
        && selectedMatch.passengersQuota == old(selectedMatch.passengersQuota)
        && selectedMatch.pricePerKm == old(selectedMatch.pricePerKm)
        && selectedMatch.timing == old(selectedMatch.timing)
        && selectedMatch.whenAtStation == old(selectedMatch.whenAtStation)
        && selectedMatch.stationsInTrip == old(selectedMatch.stationsInTrip)
        && selectedMatch.roadsInTrip == old(selectedMatch.roadsInTrip)
      ensures transpoolManager != null && request in transpoolManager.tripsManager.requests ==>
        request !in transpoolManager.tripsManager.UnmatchedRequests()
    {
      if transpoolManager == null {
        return Fail(NotInitialized);
      }
      transpoolManager.tripsManager.MatchRequestToOffer(request, selectedMatch);
      return Pass;
    }

    /**
     * `postTripRequest`: the guard, both station names, the time (checked
     * before the owner is looked up), the owner (`null` when unknown), then a
     * new unmatched request joins the pool. The request stores the stations
     * the names resolve to.
     */
    method PostTripRequest(userName: string, src: string, dst: string, hour: int, minutes: int)
      returns (r: Result<TripRequest>)
      requires Consistent()
      modifies Pools()
      ensures Consistent()
      ensures transpoolManager == null ==> r == Failure(NotInitialized)
      ensures transpoolManager != null ==>
        (AssertStationsExist(ActiveMap(), [src, dst]).Fail? ==>
          r == Failure(AssertStationsExist(ActiveMap(), [src, dst]).error))
        && (AssertStationsExist(ActiveMap(), [src, dst]).Pass? && !IsValidTime(hour, minutes) ==>
          r == Failure(InvalidTime(hour, minutes)))
        && (r.Success? <==> AssertStationsExist(ActiveMap(), [src, dst]).Pass? && IsValidTime(hour, minutes))
        && transpoolManager.tripsManager.offers == old(transpoolManager.tripsManager.offers)
        && (r.Failure? ==> transpoolManager.tripsManager.requests == old(transpoolManager.tripsManager.requests))
      ensures r.Success? ==>
        transpoolManager != null && fresh(r.value)
        && transpoolManager.tripsManager.requests == old(transpoolManager.tripsManager.requests) + {r.value}
        && Success(r.value.wantedSourceStation) == GetStation(ActiveMap(), src)
        && Success(r.value.wantedDestStation) == GetStation(ActiveMap(), dst)
        && r.value.wantedTripStartTime == LocalTime(hour, minutes)
        && r.value.matchedTo == null
        && (transpoolManager.HasUser(userName) ==>
              r.value.requestingUser == transpoolManager.GetUserIfExists(userName).value)
        && (!transpoolManager.HasUser(userName) ==> r.value.requestingUser == null)
        && r.value in transpoolManager.tripsManager.UnmatchedRequests()
    {
      if transpoolManager == null {
        return Failure(NotInitialized);
      }
      var m := transpoolManager.roadMap.value;
      var stationsCheck := AssertStationsExist(m, [src, dst]);
      if stationsCheck.Fail? {
        return Failure(stationsCheck.error);
      }
      var time := Of(hour, minutes);
      if time.Failure? {
        return Failure(time.error);
      }
      var found := transpoolManager.GetUserIfExists(userName);
      var owner: User? := if found.Some? then found.value else null;
      assert HasStation(m, [src, dst][0]) && HasStation(m, [src, dst][1]);
      var request := new TripRequest(owner, GetStation(m, src).value, GetStation(m, dst).value, time.value);
      var _ := transpoolManager.tripsManager.AddRequest(request);
      return Success(request);
    }

    /**
     * `postTripOffer`: the guard, the station names, the timing (time, then
     * repetition rate), the stations by name and the roads between
     * consecutive stations; then a new offer by the named user joins the
     * pool. The owner looked up by `getUserIfExists` is not used.
     */
    method PostTripOffer(user: string, stationNames: seq<string>, day: int, hour: int, minutes: int,
                         repetitionRate: string, ppk: int, capacity: int)
      returns (r: Result<TripOffer>)
      requires Consistent()
      modifies Pools()
      ensures Consistent()
      ensures transpoolManager == null ==> r == Failure(NotInitialized)
      ensures transpoolManager != null ==>
        (AssertStationsExist(ActiveMap(), stationNames).Fail? ==>
          r == Failure(AssertStationsExist(ActiveMap(), stationNames).error))
        && (AssertStationsExist(ActiveMap(), stationNames).Pass? && !IsValidTime(hour, minutes) ==>
          r == Failure(InvalidTime(hour, minutes)))
        && (AssertStationsExist(ActiveMap(), stationNames).Pass? && IsValidTime(hour, minutes)
            && RateValueOf(repetitionRate).Failure? ==>
          r == Failure(UnknownRepetitionRate(repetitionRate)))
        && (r.Success? <==>
              AssertStationsExist(ActiveMap(), stationNames).Pass? && IsValidTime(hour, minutes)
              && RateValueOf(repetitionRate).Success?
              && forall i :: 0 <= i < |stationNames| - 1 ==> LinkedNames(ActiveMap(), stationNames, i))
        && transpoolManager.tripsManager.requests == old(transpoolManager.tripsManager.requests)
        && (r.Failure? ==> transpoolManager.tripsManager.offers == old(transpoolManager.tripsManager.offers))
      ensures (transpoolManager != null && r.Failure? && AssertStationsExist(ActiveMap(), stationNames).Pass?
               && IsValidTime(hour, minutes) && RateValueOf(repetitionRate).Success?) ==>
        exists k :: 0 <= k < |stationNames| - 1 && !LinkedNames(ActiveMap(), stationNames, k)
          && (forall j :: 0 <= j < k ==> LinkedNames(ActiveMap(), stationNames, j))
          && r.error == RoadDoesNotExist(stationNames[k], stationNames[k + 1])
      ensures r.Success? ==>
        transpoolManager != null && fresh(r.value) && fresh(r.value.timing)
        && transpoolManager.tripsManager.offers == old(transpoolManager.tripsManager.offers) + [r.value]
        && r.value.offeringUserName == user && r.value.passengersQuota == capacity && r.value.pricePerKm == ppk
        && r.value.registered == {}
        && r.value.timing.day == day && r.value.timing.time == RoundTimeOf(hour, minutes).value
        && r.value.timing.repetitionRate == RateValueOf(repetitionRate).value
        && |r.value.stationsInTrip| == |stationNames|
        && (forall i :: 0 <= i < |stationNames| ==>
              GetStation(ActiveMap(), stationNames[i]) == Success(r.value.stationsInTrip[i]))
        && |r.value.roadsInTrip| == (if stationNames == [] then 0 else |stationNames| - 1)
        && (forall i :: 0 <= i < |r.value.roadsInTrip| ==>
              GetRoad(ActiveMap(), stationNames[i], stationNames[i + 1]) == Success(r.value.roadsInTrip[i]))
        && r.value.whenAtStation == schedule(r.value.timing.time, r.value.stationsInTrip, r.value.roadsInTrip)
    {
      if transpoolManager == null {
        return Failure(NotInitialized);
      }
      var m := transpoolManager.roadMap.value;
      var stationsCheck := AssertStationsExist(m, stationNames);
      if stationsCheck.Fail? {
        return Failure(stationsCheck.error);
      }
      var timing := TripTiming.Create(day, hour, minutes, repetitionRate);
      if timing.Failure? {
        return Failure(timing.error);
      }
      var stations := GetStationsByNames(m, stationNames);
      assert stations.Success?;
      NamesOfResolvedStations(m, stationNames, stations.value);
      var roads := RoadsBetween(m, stationNames, stations.value);
      if roads.Failure? {
        return Failure(roads.error);
      }
      var offer := new TripOffer(user, capacity, ppk, timing.value, stations.value, roads.value,
                                 schedule(timing.value.time, stations.value, roads.value));
      assert !transpoolManager.tripsManager.HasEqualOffer(offer);
      var _ := transpoolManager.tripsManager.AddOffer(offer);
      return Success(offer);
    }

    /**
     * `postTripRequest` of the earlier engine, as written: the owner is
     * fetched or created before `LocalTime.of` validates the time, so a
     * request with an invalid time fails after registering a new user.
     */
    method LegacyPostTripRequestAsWritten(userName: string, src: string, dst: string, hour: int, minutes: int)
      returns (r: Result<TripRequest>)
      requires Consistent()
      modifies Footprint(), counter
      ensures Consistent()
      ensures transpoolManager == null ==> r == Failure(NotInitialized) && counter.last == old(counter.last)
      ensures transpoolManager != null ==>
        (AssertStationsExist(ActiveMap(), [src, dst]).Fail? ==>
          r == Failure(AssertStationsExist(ActiveMap(), [src, dst]).error)
          && transpoolManager.users == old(transpoolManager.users))
        && (r.Success? <==> AssertStationsExist(ActiveMap(), [src, dst]).Pass? && IsValidTime(hour, minutes))
        && (AssertStationsExist(ActiveMap(), [src, dst]).Pass? && old(transpoolManager.HasUser(userName)) ==>
          transpoolManager.users == old(transpoolManager.users))
        && (AssertStationsExist(ActiveMap(), [src, dst]).Fail? ==> counter.last == old(counter.last))
        && (AssertStationsExist(ActiveMap(), [src, dst]).Pass? && old(transpoolManager.HasUser(userName)) ==>
          counter.last == old(counter.last))
        && (AssertStationsExist(ActiveMap(), [src, dst]).Pass? && !old(transpoolManager.HasUser(userName)) ==>
          |transpoolManager.users| == |old(transpoolManager.users)| + 1
          && var created := transpoolManager.users[|old(transpoolManager.users)|];
          transpoolManager.users == old(transpoolManager.users) + [created]
          && fresh(created) && created.name == userName
          && created.id == counter.last == old(counter.last) + 1
          && transpoolManager.HasUser(userName))
        && (r.Failure? ==> transpoolManager.tripsManager.requests == old(transpoolManager.tripsManager.requests))
      ensures (transpoolManager != null && AssertStationsExist(ActiveMap(), [src, dst]).Pass?
               && !old(transpoolManager.HasUser(userName)) && !IsValidTime(hour, minutes)) ==>
        r == Failure(InvalidTime(hour, minutes)) && transpoolManager.HasUser(userName)
      ensures r.Success? ==>
        transpoolManager != null && fresh(r.value)
        && transpoolManager.tripsManager.requests == old(transpoolManager.tripsManager.requests) + {r.value}
        && r.value.requestingUser != null && r.value.requestingUser.name == userName
        && r.value.requestingUser in transpoolManager.users
        && Success(r.value.wantedSourceStation) == GetStation(ActiveMap(), src)
        && Success(r.value.wantedDestStation) == GetStation(ActiveMap(), dst)
        && r.value.wantedTripStartTime == LocalTime(hour, minutes) && r.value.matchedTo == null
        && (old(transpoolManager.HasUser(userName)) ==>
              r.value.requestingUser == old(transpoolManager.GetUserIfExists(userName)).value)
        && (!old(transpoolManager.HasUser(userName)) ==>
              transpoolManager.users == old(transpoolManager.users) + [r.value.requestingUser])
    {
      if transpoolManager == null {
        return Failure(NotInitialized);
      }
      var m := transpoolManager.roadMap.value;
      var stationsCheck := AssertStationsExist(m, [src, dst]);
      if stationsCheck.Fail? {
        return Failure(stationsCheck.error);
      }
      var owner := GetOrCreateUser(userName);
      var time := Of(hour, minutes);
      if time.Failure? {
        return Failure(time.error);
      }
      assert HasStation(m, [src, dst][0]) && HasStation(m, [src, dst][1]);
      var request := new TripRequest(owner, GetStation(m, src).value, GetStation(m, dst).value, time.value);
      var _ := transpoolManager.tripsManager.AddRequest(request);
      return Success(request);
    }

    /**
     * `postTripRequest` of the earlier engine, corrected: the time is
     * validated before the owner is fetched or created, as the later engine
     * does, so a failed request leaves the users as they were.
     */
    method LegacyPostTripRequest(userName: string, src: string, dst: string, hour: int, minutes: int)
      returns (r: Result<TripRequest>)
      requires Consistent()
      modifies Footprint(), counter
      ensures Consistent()
      ensures transpoolManager == null ==> r == Failure(NotInitialized) && counter.last == old(counter.last)
      ensures transpoolManager != null ==>
        (AssertStationsExist(ActiveMap(), [src, dst]).Fail? ==>
          r == Failure(AssertStationsExist(ActiveMap(), [src, dst]).error))
        && (AssertStationsExist(ActiveMap(), [src, dst]).Pass? && !IsValidTime(hour, minutes) ==>
          r == Failure(InvalidTime(hour, minutes)))
        && (r.Success? <==> AssertStationsExist(ActiveMap(), [src, dst]).Pass? && IsValidTime(hour, minutes))
        && (r.Failure? ==>
          transpoolManager.users == old(transpoolManager.users) && counter.last == old(counter.last)
          && transpoolManager.tripsManager.requests == old(transpoolManager.tripsManager.requests))
        && (old(transpoolManager.HasUser(userName)) ==> transpoolManager.users == old(transpoolManager.users))
      ensures r.Success? ==>
        transpoolManager != null && fresh(r.value)
        && transpoolManager.tripsManager.requests == old(transpoolManager.tripsManager.requests) + {r.value}
        && r.value.requestingUser != null && r.value.requestingUser.name == userName
        && r.value.requestingUser in transpoolManager.users
        && Success(r.value.wantedSourceStation) == GetStation(ActiveMap(), src)
        && Success(r.value.wantedDestStation) == GetStation(ActiveMap(), dst)
        && r.value.wantedTripStartTime == LocalTime(hour, minutes) && r.value.matchedTo == null
        && (old(transpoolManager.HasUser(userName)) ==>
              r.value.requestingUser == old(transpoolManager.GetUserIfExists(userName)).value
              && counter.last == old(counter.last))
        && (!old(transpoolManager.HasUser(userName)) ==>
              transpoolManager.users == old(transpoolManager.users) + [r.value.requestingUser]
              && fresh(r.value.requestingUser)
              && r.value.requestingUser.id == counter.last == old(counter.last) + 1)
    {
      if transpoolManager == null {
        return Failure(NotInitialized);
      }
      var m := transpoolManager.roadMap.value;
      var stationsCheck := AssertStationsExist(m, [src, dst]);
      if stationsCheck.Fail? {
        return Failure(stationsCheck.error);
      }
      var time := Of(hour, minutes);
      if time.Failure? {
        return Failure(time.error);
      }
      var owner := GetOrCreateUser(userName);
      assert HasStation(m, [src, dst][0]) && HasStation(m, [src, dst][1]);
      var request := new TripRequest(owner, GetStation(m, src).value, GetStation(m, dst).value, time.value);
      var _ := transpoolManager.tripsManager.AddRequest(request);
      return Success(request);
    }

    /**
     * `hasUser(name) ? getUserByName(name) : createUser(name)`, with the
     * `UserAlreadyExistsException` of `createUser` caught (it cannot occur
     * after `hasUser` said no).
     */
    method GetOrCreateUser(userName: string) returns (owner: User)
      requires transpoolManager != null
      modifies transpoolManager, counter
      ensures owner.name == userName && owner in transpoolManager.users
      ensures old(transpoolManager.HasUser(userName)) ==>
        transpoolManager.users == old(transpoolManager.users) && counter.last == old(counter.last)
        && owner == old(transpoolManager.GetUserIfExists(userName)).value
      ensures !old(transpoolManager.HasUser(userName)) ==>
        fresh(owner) && transpoolManager.users == old(transpoolManager.users) + [owner]
        && owner.id == counter.last == old(counter.last) + 1
      ensures transpoolManager.roadMap == old(transpoolManager.roadMap)
    {
      if transpoolManager.HasUser(userName) {
        return transpoolManager.GetUserIfExists(userName).value;
      }
      var created := transpoolManager.CreateUser(counter, userName);
      owner := created.value;
    }
  }

  /** A stored road runs from the station named `names[j]` to the one named `names[j + 1]`. */
  predicate LinkedNames(m: Map, names: seq<string>, j: int)
    requires 0 <= j < |names| - 1
  {
    HasRoad(m, names[j], names[j + 1])
  }

  /**
   * `getRoadsByStationsList` on stations resolved from names: the links are
   * the ones between consecutive names.
   */
  method RoadsBetween(m: Map, names: seq<string>, stations: seq<Station>) returns (r: Result<seq<Road>>)
    requires |stations| == |names|
    requires forall i :: 0 <= i < |names| ==> stations[i].name == names[i]
    ensures r.Success? <==> forall i :: 0 <= i < |names| - 1 ==> LinkedNames(m, names, i)
    ensures r.Success? ==>
      |r.value| == (if names == [] then 0 else |names| - 1)
      && forall i :: 0 <= i < |r.value| ==> GetRoad(m, names[i], names[i + 1]) == Success(r.value[i])
    ensures r.Failure? ==>
      exists k :: 0 <= k < |names| - 1 && !LinkedNames(m, names, k)
        && (forall j :: 0 <= j < k ==> LinkedNames(m, names, j))
        && r.error == RoadDoesNotExist(names[k], names[k + 1])
  {
    r := GetRoadsByStationsList(m, stations);
    assert forall j :: 0 <= j < |names| - 1 ==> (Linked(m, stations, j) <==> LinkedNames(m, names, j));
    if r.Failure? {
      var k :| 0 <= k < |stations| - 1 && !Linked(m, stations, k)
        && (forall j :: 0 <= j < k ==> Linked(m, stations, j))
        && r.error == RoadDoesNotExist(stations[k].name, stations[k + 1].name);
      assert stations[k].name == names[k] && stations[k + 1].name == names[k + 1];
    }
  }

  lemma NamesOfResolvedStations(m: Map, names: seq<string>, stations: seq<Station>)
    requires |stations| == |names|
    requires forall i :: 0 <= i < |names| ==> GetStation(m, names[i]) == Success(stations[i])
    ensures forall i :: 0 <= i < |names| ==> stations[i].name == names[i]
  {
    forall i | 0 <= i < |names|
      ensures stations[i].name == names[i]
    {
      assert GetStation(m, names[i]).Success?;
    }
  }
}
