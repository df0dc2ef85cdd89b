/**
 * `Road`, in its two versions (the `model` package and the earlier `Model`
 * package, which differ only in `hashCode`): a directed or two-way link
 * between two named stations. Lengths and gas figures are integers, as the
 * loader supplies them.
 */
module Roads {
  import opened JavaHash

  datatype Road = Road(
    sourceStationName: string,
    destStationName: string,
    isOneWay: bool,
    length: int,
    gasNeededPerKm: int,
    maxDrivingSpeed: int)

  /** The private two-argument constructor: only the endpoints are set. */
  function Probe(src: string, dst: string): (r: Road)
    ensures r.sourceStationName == src && r.destStationName == dst
    ensures !r.isOneWay && r.length == 0 && r.gasNeededPerKm == 0 && r.maxDrivingSpeed == 0
  {
    Road(src, dst, false, 0, 0, 0)
  }

  function SetSourceStationName(r: Road, name: string): (q: Road)
    ensures q.sourceStationName == name && q == r.(sourceStationName := name)
  {
    r.(sourceStationName := name)
  }

  function SetDestStationName(r: Road, name: string): (q: Road)
    ensures q.destStationName == name && q == r.(destStationName := name)
  {
    r.(destStationName := name)
  }

  function SetOneWay(r: Road, oneWay: bool): (q: Road)
    ensures q.isOneWay == oneWay && q == r.(isOneWay := oneWay)
  {
    r.(isOneWay := oneWay)
  }

  function SetLength(r: Road, length: int): (q: Road)
    ensures q.length == length && q == r.(length := length)
  {
    r.(length := length)
  }

  function SetGasNeededPerKm(r: Road, gas: int): (q: Road)
    ensures q.gasNeededPerKm == gas && q == r.(gasNeededPerKm := gas)
  {
    r.(gasNeededPerKm := gas)
  }

  function SetMaxDrivingSpeed(r: Road, speed: int): (q: Road)
    ensures q.maxDrivingSpeed == speed && q == r.(maxDrivingSpeed := speed)
  {
    r.(maxDrivingSpeed := speed)
  }

  /** Each setter changes one field: any two setters of different fields commute. */
  lemma SettersAreIndependent(r: Road, length: int, gas: int)
    ensures SetGasNeededPerKm(SetLength(r, length), gas) == SetLength(SetGasNeededPerKm(r, gas), length)
    ensures SetLength(r, length).sourceStationName == r.sourceStationName
    ensures SetLength(r, length).destStationName == r.destStationName
  {
  }

  /**
   * `Road.equals`, in both versions: the ordered pair of endpoint names. The
   * direction flag, length, gas and speed do not take part.
   */
  predicate RoadEquals(a: Road, b: Road) {
    a.sourceStationName == b.sourceStationName && a.destStationName == b.destStationName
  }

  /** A road and its reverse are different roads, even when it is two-way. */
  lemma ReversedRoadDiffers(r: Road)
    requires r.sourceStationName != r.destStationName
    ensures !RoadEquals(r, Probe(r.destStationName, r.sourceStationName))
  {
  }

  /** `hashCode` of the `model` package: `31 * hash(src) + hash(dst)`. */
  function HashCode(r: Road, stringHash: string -> int): int {
    FieldsHash(stringHash(r.sourceStationName), [stringHash(r.destStationName)])
  }

  /** `hashCode` of the earlier `Model` package: `Objects.hash(src, dst)`. */
  function LegacyHashCode(r: Road, stringHash: string -> int): int {
    ArraysHash([stringHash(r.sourceStationName), stringHash(r.destStationName)])
  }

  /** Both hashes read only the endpoint names, so equal roads hash equally. */
  lemma EqualRoadsHashEqually(a: Road, b: Road, stringHash: string -> int)
    requires RoadEquals(a, b)
    ensures HashCode(a, stringHash) == HashCode(b, stringHash)
    ensures LegacyHashCode(a, stringHash) == LegacyHashCode(b, stringHash)
  {
  }

  /**
   * `containsRoadBySrcAndDstNames`: `roads.contains(new Road(src, dst))`,
   * which goes through `equals`.
   */
  predicate ContainsRoadBySrcAndDstNames(roads: seq<Road>, src: string, dst: string) {
    exists i :: 0 <= i < |roads| && RoadEquals(roads[i], Probe(src, dst))
  }

  /** The lookup finds exactly the roads running from `src` to `dst`. */
  lemma ContainsRoadIff(roads: seq<Road>, src: string, dst: string)
    ensures ContainsRoadBySrcAndDstNames(roads, src, dst) <==>
      exists r :: r in roads && r.sourceStationName == src && r.destStationName == dst
  {
    if exists r :: r in roads && r.sourceStationName == src && r.destStationName == dst {
      var r :| r in roads && r.sourceStationName == src && r.destStationName == dst;
      var i :| 0 <= i < |roads| && roads[i] == r;
      assert RoadEquals(roads[i], Probe(src, dst));
    }
  }

  /** A two-way road from A to B is not found when asked for B to A. */
  lemma TwoWayRoadNotFoundReversed()
    ensures var roads := [Road("A", "B", false, 5, 1, 60)];
      ContainsRoadBySrcAndDstNames(roads, "A", "B") && !ContainsRoadBySrcAndDstNames(roads, "B", "A")
  {
    var roads := [Road("A", "B", false, 5, 1, 60)];
    assert RoadEquals(roads[0], Probe("A", "B"));
  }

  function Length(r: Road): int {
    r.length
  }

  /** The gas a road takes: `gasNeededPerKm * length`. */
  function Gas(r: Road): int {
    r.gasNeededPerKm * r.length
  }

  /** The sum of a measure over the roads, in iteration order. */
  function Total(roads: seq<Road>, measure: Road -> int): int
    decreases |roads|
  {
    if roads == [] then 0 else Total(roads[..|roads| - 1], measure) + measure(roads[|roads| - 1])
  }

  function TotalLength(roads: seq<Road>): int {
    Total(roads, Length)
  }

  function TotalGas(roads: seq<Road>): int {
    Total(roads, Gas)
  }

  /** Sums add up over concatenation. */
  lemma {:induction false} TotalAppend(xs: seq<Road>, ys: seq<Road>, measure: Road -> int)
    ensures Total(xs + ys, measure) == Total(xs, measure) + Total(ys, measure)
    decreases |ys|
  {
    if ys == [] {
      assert xs + ys == xs;
    } else {
      var ys' := ys[..|ys| - 1];
      assert (xs + ys)[..|xs + ys| - 1] == xs + ys';
      TotalAppend(xs, ys', measure);
    }
  }

  /** A sum does not depend on the iteration order of the collection. */
  lemma {:induction false} TotalOrderIndependent(xs: seq<Road>, ys: seq<Road>, measure: Road -> int)
    requires multiset(xs) == multiset(ys)
    ensures Total(xs, measure) == Total(ys, measure)
    decreases |xs|
  {
    if xs != [] {
      var n := |xs| - 1;
      var last := xs[n];
      var k := IndexOfElement(ys, last);
      var front := xs[..n];
      var rest := ys[..k] + ys[k + 1..];
      assert multiset(front) == multiset(rest) by {
        RemoveAtMultiset(xs, n);
        RemoveAtMultiset(ys, k);
        assert xs[..n] + xs[n + 1..] == front;
      }
      TotalOrderIndependent(front, rest, measure);
      TotalRemoveAt(ys, k, measure);
      assert Total(xs, measure) == Total(front, measure) + measure(last);
    } else {
      assert |ys| == |multiset(ys)| == 0;
    }
  }

  lemma IndexOfElement(ys: seq<Road>, x: Road) returns (k: int)
    requires x in multiset(ys)
    ensures 0 <= k < |ys| && ys[k] == x
  {
    assert x in ys;
    k :| 0 <= k < |ys| && ys[k] == x;
  }

  lemma RemoveAtMultiset(ys: seq<Road>, k: int)
    requires 0 <= k < |ys|
    ensures multiset(ys[..k] + ys[k + 1..]) == multiset(ys) - multiset{ys[k]}
  {
    assert ys == ys[..k] + [ys[k]] + ys[k + 1..];
  }

  lemma TotalRemoveAt(ys: seq<Road>, k: int, measure: Road -> int)
    requires 0 <= k < |ys|
    ensures Total(ys, measure) == Total(ys[..k] + ys[k + 1..], measure) + measure(ys[k])
  {
    assert ys == ys[..k] + ([ys[k]] + ys[k + 1..]);
    TotalAppend(ys[..k], [ys[k]] + ys[k + 1..], measure);
    TotalAppend([ys[k]], ys[k + 1..], measure);
    TotalAppend(ys[..k], ys[k + 1..], measure);
    assert [ys[k]][..0] == [];
  }

  /** `Road.sumRoadsLength`: the accumulator loop over the collection. */
  method SumRoadsLength(roads: seq<Road>) returns (lengthSum: int)
    ensures lengthSum == TotalLength(roads)
  {
    lengthSum := 0;
    for i := 0 to |roads|
      invariant lengthSum == Total(roads[..i], Length)
    {
      assert roads[..i + 1][..i] == roads[..i];
      lengthSum := lengthSum + roads[i].length;
    }
    assert roads[..|roads|] == roads;
  }

  /** `Road.sumRoadsNeededGas`: the accumulator loop over the collection. */
  method SumRoadsNeededGas(roads: seq<Road>) returns (gasSum: int)
    ensures gasSum == TotalGas(roads)
  {
    gasSum := 0;
    for i := 0 to |roads|
      invariant gasSum == Total(roads[..i], Gas)
    {
      assert roads[..i + 1][..i] == roads[..i];
      gasSum := gasSum + roads[i].gasNeededPerKm * roads[i].length;
    }
    assert roads[..|roads|] == roads;
  }

  /** The empty collection sums to 0; a single road contributes its own figure. */
  lemma TotalsOfSmallCollections(r: Road)
    ensures TotalLength([]) == 0 && TotalGas([]) == 0
    ensures TotalLength([r]) == r.length && TotalGas([r]) == r.gasNeededPerKm * r.length
  {
    assert [r][..0] == [];
  }

  /** Non-negative lengths sum to at least the length of any one road. */
  lemma {:induction false} TotalLengthBoundsEachRoad(roads: seq<Road>, i: int)
    requires forall j :: 0 <= j < |roads| ==> roads[j].length >= 0
    requires 0 <= i < |roads|
    ensures TotalLength(roads) >= roads[i].length
    decreases |roads|
  {
    var front := roads[..|roads| - 1];
    NonNegativeTotal(front);
    if i < |roads| - 1 {
      TotalLengthBoundsEachRoad(front, i);
    }
  }

  lemma {:induction false} NonNegativeTotal(roads: seq<Road>)
    requires forall j :: 0 <= j < |roads| ==> roads[j].length >= 0
    ensures TotalLength(roads) >= 0
    decreases |roads|
  {
    if roads != [] {
      NonNegativeTotal(roads[..|roads| - 1]);
    }
  }
}
