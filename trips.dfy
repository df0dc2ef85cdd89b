/**
 * Trip offers, trip requests and `TripsManager`, which pools them and matches
 * a request against the offers.
 *
 * Several `TripOffer`/`TripRequest` members the manager calls are not part of
 * the classes' own files; they are modelled from how they are used:
 * `registerRequest` adds to the set `registered`, the remaining capacity is
 * the quota less the registered requests, `isMatched` says `matchedTo` is
 * set, and `getWhenAtStation` is the schedule `whenAtStation`, computed from
 * the road durations by code that is not part of this model.
 */
module Trips {
  import opened Common
  import opened JavaHash
  import opened Stations
  import opened Roads
  import opened Timing
  import opened Users

  /** `List.indexOf` over stations compared by `Station.equals`: the first index with the name, or -1. */
  function IndexOf(stations: seq<Station>, name: string): (i: int)
    ensures -1 <= i < |stations|
    ensures i == -1 <==> !ContainsStationByName(stations, name)
    ensures i >= 0 ==> stations[i].name == name && forall j :: 0 <= j < i ==> stations[j].name != name
    decreases |stations|
  {
    if stations == [] then -1
    else if stations[0].name == name then 0
    else
      var k := IndexOf(stations[1..], name);
      assert forall j :: 1 <= j < |stations| ==> stations[j] == stations[1..][j - 1];
      if k == -1 then -1 else k + 1
  }

  /**
   * `indexOf(a) < indexOf(b)` for two stations of the route says exactly that
   * the first stop called `a` comes before every stop called `b`.
   */
  lemma SourceBeforeDestination(stations: seq<Station>, a: string, b: string)
    requires ContainsStationByName(stations, a) && ContainsStationByName(stations, b)
    ensures IndexOf(stations, a) < IndexOf(stations, b) <==>
      exists i :: 0 <= i < |stations| && stations[i].name == a
        && forall j :: 0 <= j <= i ==> stations[j].name != b
  {
    var ia := IndexOf(stations, a);
    var ib := IndexOf(stations, b);
    if ia < ib {
      assert forall j :: 0 <= j <= ia ==> stations[j].name != b;
    }
    forall i | 0 <= i < |stations| && stations[i].name == a && forall j :: 0 <= j <= i ==> stations[j].name != b
      ensures ia < ib
    {
      assert ia <= i < ib;
    }
  }

  /** `List.equals` over stations: the same length and pairwise `Station.equals`. */
  predicate StationListsEqual(xs: seq<Station>, ys: seq<Station>) {
    |xs| == |ys| && forall i :: 0 <= i < |xs| ==> StationEquals(xs[i], ys[i])
  }

  /** `Objects.equals` over road lists: the same length and pairwise `Road.equals`. */
  predicate RoadListsEqual(xs: seq<Road>, ys: seq<Road>) {
    |xs| == |ys| && forall i :: 0 <= i < |xs| ==> RoadEquals(xs[i], ys[i])
  }

  /** `getTripPrice` on a route: the total length times the price per distance unit. */
  function RoutePrice(roads: seq<Road>, pricePerKm: int): (p: int)
    ensures roads == [] ==> p == 0
    ensures |roads| == 1 ==> p == roads[0].length * pricePerKm
  {
    if |roads| == 1 then
      TotalsOfSmallCollections(roads[0]);
      TotalLength(roads) * pricePerKm
    else
      TotalLength(roads) * pricePerKm
  }

  /** Non-negative lengths and price give a non-negative price. */
  lemma RoutePriceNonNegative(roads: seq<Road>, pricePerKm: int)
    requires pricePerKm >= 0
    requires forall j :: 0 <= j < |roads| ==> roads[j].length >= 0
    ensures RoutePrice(roads, pricePerKm) >= 0
  {
    NonNegativeTotal(roads);
  }

  /** The price of a route is the sum of the prices of its parts. */
  lemma RoutePriceSplits(xs: seq<Road>, ys: seq<Road>, pricePerKm: int)
    ensures RoutePrice(xs + ys, pricePerKm) == RoutePrice(xs, pricePerKm) + RoutePrice(ys, pricePerKm)
  {
    TotalAppend(xs, ys, Length);
    assert (TotalLength(xs) + TotalLength(ys)) * pricePerKm
      == TotalLength(xs) * pricePerKm + TotalLength(ys) * pricePerKm;
  }

  /**
   * `getGasUsage`: the total gas divided by the number of roads, a mean per
   * segment. An empty route divides 0.0 by 0 and yields NaN: `None`.
   */
  function GasUsage(roads: seq<Road>): (r: Option<real>)
    ensures r.Some? <==> roads != []
    ensures r.Some? ==> r.value * (|roads| as real) == TotalGas(roads) as real
  {
    if roads == [] then None else Some((TotalGas(roads) as real) / (|roads| as real))
  }

  /** When every road takes the same gas, the mean is that figure. */
  lemma GasUsageOfUniformRoads(roads: seq<Road>, gas: int)
    requires roads != []
    requires forall j :: 0 <= j < |roads| ==> Gas(roads[j]) == gas
    ensures GasUsage(roads) == Some(gas as real)
  {
    UniformTotal(roads, gas);
  }

  lemma {:induction false} UniformTotal(roads: seq<Road>, gas: int)
    requires forall j :: 0 <= j < |roads| ==> Gas(roads[j]) == gas
    ensures TotalGas(roads) == |roads| * gas
    decreases |roads|
  {
    if roads != [] {
      UniformTotal(roads[..|roads| - 1], gas);
    }
  }

  /**
   * How an offer's arrival time at each station is derived from its start
   * time, stations and roads (the unseen `getWhenAtStation`).
   */
  type ScheduleFunction = (LocalTime, seq<Station>, seq<Road>) -> (string -> LocalTime)

  class TripOffer {
    var offeringUserName: string
    var passengersQuota: int
    var stationsInTrip: seq<Station>
    var roadsInTrip: seq<Road>
    var pricePerKm: int
    var timing: TripTiming
    var registered: set<TripRequest>
    var whenAtStation: string -> LocalTime

    /** `new TripOffer(owner, quota, price, timing, stations, roads)`: nobody registered yet. */
    constructor (offeringUserName: string, passengersQuota: int, pricePerKm: int, timing: TripTiming,
                 stations: seq<Station>, roads: seq<Road>, whenAtStation: string -> LocalTime)
      ensures this.offeringUserName == offeringUserName && this.passengersQuota == passengersQuota
      ensures this.pricePerKm == pricePerKm && this.timing == timing
      ensures stationsInTrip == stations && roadsInTrip == roads
      ensures registered == {} && this.whenAtStation == whenAtStation
    {
      this.offeringUserName := offeringUserName;
      this.passengersQuota := passengersQuota;
      this.pricePerKm := pricePerKm;
      this.timing := timing;
      stationsInTrip := stations;
      roadsInTrip := roads;
      registered := {};
      this.whenAtStation := whenAtStation;
    }

    method SetOfferingUserName(name: string)
      modifies this
      ensures offeringUserName == name
      ensures passengersQuota == old(passengersQuota) && pricePerKm == old(pricePerKm) && timing == old(timing)
      ensures stationsInTrip == old(stationsInTrip) && roadsInTrip == old(roadsInTrip) && registered == old(registered)
      ensures whenAtStation == old(whenAtStation)
    {
      offeringUserName := name;
    }

    method SetPassengersQuota(quota: int)
      modifies this
      ensures passengersQuota == quota
      ensures offeringUserName == old(offeringUserName) && pricePerKm == old(pricePerKm) && timing == old(timing)
      ensures stationsInTrip == old(stationsInTrip) && roadsInTrip == old(roadsInTrip) && registered == old(registered)
      ensures whenAtStation == old(whenAtStation)
    {
      passengersQuota := quota;
    }

    method SetPricePerKm(price: int)
      modifies this
      ensures pricePerKm == price
      ensures offeringUserName == old(offeringUserName) && passengersQuota == old(passengersQuota) && timing == old(timing)
      ensures stationsInTrip == old(stationsInTrip) && roadsInTrip == old(roadsInTrip) && registered == old(registered)
      ensures whenAtStation == old(whenAtStation)
    {
      pricePerKm := price;
    }

    method SetTiming(timing: TripTiming)
      modifies this
      ensures this.timing == timing
      ensures offeringUserName == old(offeringUserName) && passengersQuota == old(passengersQuota) && pricePerKm == old(pricePerKm)
      ensures stationsInTrip == old(stationsInTrip) && roadsInTrip == old(roadsInTrip) && registered == old(registered)
      ensures whenAtStation == old(whenAtStation)
    {
      this.timing := timing;
    }

    /** `getRemainingPassengersCapacity`. */
    function RemainingCapacity(): int
      reads this
    {
      passengersQuota - |registered|
    }

    function TripPrice(): int
      reads this
    {
      RoutePrice(roadsInTrip, pricePerKm)
    }

    /** `registerRequest`: a set insertion, with no capacity check. */
    method RegisterRequest(req: TripRequest)
      modifies this
      ensures registered == old(registered) + {req}
      ensures offeringUserName == old(offeringUserName) && passengersQuota == old(passengersQuota)
      ensures pricePerKm == old(pricePerKm) && timing == old(timing) && whenAtStation == old(whenAtStation)
      ensures stationsInTrip == old(stationsInTrip) && roadsInTrip == old(roadsInTrip)
      ensures RemainingCapacity() == old(RemainingCapacity()) - (if req in old(registered) then 0 else 1)
    {
      registered := registered + {req};
    }
  }

  /**
   * `TripOffer.equals`: quota, price, owner, stations (by name, pairwise),
   * roads (by endpoints, pairwise) and the timing object itself; `TripTiming`
   * keeps `Object.equals`. The registrations do not take part.
   */
  predicate OfferEquals(a: TripOffer, b: TripOffer)
    reads a, b
  {
    && a.passengersQuota == b.passengersQuota
    && a.pricePerKm == b.pricePerKm
    && a.offeringUserName == b.offeringUserName
    && StationListsEqual(a.stationsInTrip, b.stationsInTrip)
    && RoadListsEqual(a.roadsInTrip, b.roadsInTrip)
    && a.timing == b.timing
  }

  lemma OfferEqualsIsEquivalence(a: TripOffer, b: TripOffer, c: TripOffer)
    ensures OfferEquals(a, a)
    ensures OfferEquals(a, b) ==> OfferEquals(b, a)
    ensures OfferEquals(a, b) && OfferEquals(b, c) ==> OfferEquals(a, c)
  {
  }

  /** Element hashes of a list, in order. */
  function StationHashes(xs: seq<Station>, stationHash: Station -> int): (hs: seq<int>)
    ensures |hs| == |xs| && forall i :: 0 <= i < |xs| ==> hs[i] == stationHash(xs[i])
  {
    seq(|xs|, i requires 0 <= i < |xs| => stationHash(xs[i]))
  }

  function RoadHashes(xs: seq<Road>, stringHash: string -> int): (hs: seq<int>)
    ensures |hs| == |xs| && forall i :: 0 <= i < |xs| ==> hs[i] == Roads.HashCode(xs[i], stringHash)
  {
    seq(|xs|, i requires 0 <= i < |xs| => Roads.HashCode(xs[i], stringHash))
  }

  /**
   * `TripOffer.hashCode`: the fold over owner, quota, station list, road list,
   * price and timing. The hashes of `String`, `Station`, the price's bits and
   * the timing's identity are parameters.
   */
  function OfferHash(o: TripOffer, stringHash: string -> int, stationHash: Station -> int,
                     priceHash: int -> int, timingHash: TripTiming -> int): int
    reads o
  {
    FieldsHash(stringHash(o.offeringUserName),
      [o.passengersQuota,
       ArraysHash(StationHashes(o.stationsInTrip, stationHash)),
       ArraysHash(RoadHashes(o.roadsInTrip, stringHash)),
       priceHash(o.pricePerKm),
       timingHash(o.timing)])
  }

  /**
   * Equal offers hash equally provided the station hash agrees with
   * `Station.equals`; `Station.hashCode` as written does not, so the
   * corrected station hash is the one this holds for.
   */
  lemma EqualOffersHashEqually(a: TripOffer, b: TripOffer, stringHash: string -> int,
                               priceHash: int -> int, timingHash: TripTiming -> int)
    requires OfferEquals(a, b)
    ensures var stationHash := (s: Station) => CorrectedHashCode(s, stringHash);
      OfferHash(a, stringHash, stationHash, priceHash, timingHash)
        == OfferHash(b, stringHash, stationHash, priceHash, timingHash)
  {
    var stationHash := (s: Station) => CorrectedHashCode(s, stringHash);
    assert StationHashes(a.stationsInTrip, stationHash) == StationHashes(b.stationsInTrip, stationHash);
    assert RoadHashes(a.roadsInTrip, stringHash) == RoadHashes(b.roadsInTrip, stringHash);
  }

  class TripRequest {
    var requestingUser: User?
    var wantedSourceStation: Station
    var wantedDestStation: Station
    var wantedTripStartTime: LocalTime
    var matchedTo: TripOffer?

    /** `new TripRequest(owner, source, destination, time)`: not matched yet. */
    constructor (owner: User?, source: Station, dest: Station, time: LocalTime)
      ensures requestingUser == owner && wantedSourceStation == source && wantedDestStation == dest
      ensures wantedTripStartTime == time && matchedTo == null
    {
      requestingUser := owner;
      wantedSourceStation := source;
      wantedDestStation := dest;
      wantedTripStartTime := time;
      matchedTo := null;
    }
  }

  /**
   * The five conditions of `getPossibleMatches`: a free seat, both stations
   * on the route, the source before the destination, and the offer at the
   * source at exactly the wanted time.
   */
  predicate IsPossibleMatch(offer: TripOffer, request: TripRequest)
    reads offer, request
  {
    var src := request.wantedSourceStation.name;
    var dst := request.wantedDestStation.name;
    && offer.RemainingCapacity() > 0
    && ContainsStationByName(offer.stationsInTrip, src)
    && ContainsStationByName(offer.stationsInTrip, dst)
    && IndexOf(offer.stationsInTrip, src) < IndexOf(offer.stationsInTrip, dst)
    && offer.whenAtStation(src) == request.wantedTripStartTime
  }

  /** The stream filter over the offers, in iteration order. */
  function MatchingOffers(offers: seq<TripOffer>, request: TripRequest): (r: seq<TripOffer>)
    reads (set o | o in offers), request
    ensures forall i :: 0 <= i < |r| ==> r[i] in offers && IsPossibleMatch(r[i], request)
    ensures forall i :: 0 <= i < |offers| && IsPossibleMatch(offers[i], request) ==> offers[i] in r
    ensures |r| <= |offers|
    decreases |offers|
  {
    if offers == [] then []
    else
      var rest := MatchingOffers(offers[1..], request);
      assert forall i :: 1 <= i < |offers| ==> offers[i] == offers[1..][i - 1];
      if IsPossibleMatch(offers[0], request) then [offers[0]] + rest else rest
  }

  /**
   * An offer that visits the destination before the source is never
   * proposed, even though both stations are on its route.
   */
  lemma WrongDirectionExcluded(offers: seq<TripOffer>, offer: TripOffer, request: TripRequest)
    requires IndexOf(offer.stationsInTrip, request.wantedDestStation.name)
      < IndexOf(offer.stationsInTrip, request.wantedSourceStation.name)
    ensures offer !in MatchingOffers(offers, request)
  {
  }

  class TripsManager {
    var offers: seq<TripOffer>
    var requests: set<TripRequest>

    /** `new TripsManager(offers)`: the given offers and no requests. */
    constructor (offers: seq<TripOffer>)
      ensures this.offers == offers && requests == {}
    {
      this.offers := offers;
      requests := {};
    }

    /** `HashSet.contains` over offers: some pooled offer `equals` it. */
    predicate HasEqualOffer(offer: TripOffer)
      reads this, (set o | o in offers), offer
    {
      exists i :: 0 <= i < |offers| && OfferEquals(offers[i], offer)
    }

    /** `addOffer`: `offers.add(offer)`, true when no equal offer was pooled. */
    method AddOffer(offer: TripOffer) returns (added: bool)
      modifies this
      ensures added <==> !old(HasEqualOffer(offer))
      ensures added ==> offers == old(offers) + [offer]
      ensures !added ==> offers == old(offers)
      ensures requests == old(requests)
    {
      added := !HasEqualOffer(offer);
      if added {
        offers := offers + [offer];
      }
    }

    /** `addRequest`: `requests.add(req)`; a request is equal only to itself. */
    method AddRequest(req: TripRequest) returns (added: bool)
      modifies this
      ensures added <==> req !in old(requests)
      ensures requests == old(requests) + {req}
      ensures offers == old(offers)
    {
      added := req !in requests;
      requests := requests + {req};
    }

    /** `getUnmatchedRequests` as written: the filter keeps the matched requests. */
    function UnmatchedRequestsAsWritten(): (r: set<TripRequest>)
      reads this, requests
      ensures forall q :: q in r ==> q in requests && q.matchedTo != null
      ensures forall q :: q in requests && q.matchedTo != null ==> q in r
    {
      set q | q in requests && q.matchedTo != null
    }

    /** `getUnmatchedRequests` as its name promises: the requests not matched yet. */
    function UnmatchedRequests(): (r: set<TripRequest>)
      reads this, requests
      ensures forall q :: q in r ==> q in requests && q.matchedTo == null
      ensures forall q :: q in requests && q.matchedTo == null ==> q in r
    {
      set q | q in requests && q.matchedTo == null
    }

    /** The two filters split the requests: as written, the result is the complement. */
    lemma UnmatchedSplitRequests()
      ensures UnmatchedRequests() + UnmatchedRequestsAsWritten() == requests
      ensures UnmatchedRequests() * UnmatchedRequestsAsWritten() == {}
    {
    }

    /** A fresh request is unmatched, yet the filter as written leaves it out. */
    lemma AsWrittenMissesFreshRequest(req: TripRequest)
      requires req in requests && req.matchedTo == null
      ensures req !in UnmatchedRequestsAsWritten() && req in UnmatchedRequests()
    {
    }

    /**
     * `matchRequestToOffer`: the request points at the offer and the offer
     * registers the request. Neither the capacity nor an earlier match is
     * checked.
     */
    method MatchRequestToOffer(req: TripRequest, off: TripOffer)
      modifies req, off
      ensures req.matchedTo == off
      ensures req.requestingUser == old(req.requestingUser) && req.wantedSourceStation == old(req.wantedSourceStation)
      ensures req.wantedDestStation == old(req.wantedDestStation) && req.wantedTripStartTime == old(req.wantedTripStartTime)
      ensures off.registered == old(off.registered) + {req}
      ensures off.offeringUserName == old(off.offeringUserName) && off.passengersQuota == old(off.passengersQuota)
      ensures off.pricePerKm == old(off.pricePerKm) && off.timing == old(off.timing) && off.whenAtStation == old(off.whenAtStation)
      ensures off.stationsInTrip == old(off.stationsInTrip) && off.roadsInTrip == old(off.roadsInTrip)
      ensures off.RemainingCapacity() == old(off.RemainingCapacity()) - (if req in old(off.registered) then 0 else 1)
      ensures req in requests ==> req !in UnmatchedRequests()
    {
      req.matchedTo := off;
      off.RegisterRequest(req);
    }

    /** `getPossibleMatches`: the pooled offers that fit the request. */
    function PossibleMatches(request: TripRequest): (r: seq<TripOffer>)
      reads this, (set o | o in offers), request
      ensures forall i :: 0 <= i < |r| ==> r[i] in offers && IsPossibleMatch(r[i], request)
      ensures forall i :: 0 <= i < |offers| && IsPossibleMatch(offers[i], request) ==> offers[i] in r
    {
      MatchingOffers(offers, request)
    }
  }
}
