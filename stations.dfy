/**
 * `Station`: a named stop at a grid coordinate. Stations are compared by
 * name alone, and the unseen `Station` helpers look stations up by name.
 */
module Stations {
  import opened Common
  import opened JavaHash

  /** `java.awt.Point`. */
  datatype Point = Point(x: int, y: int)

  datatype Station = Station(name: string, coordinate: Point)

  /** `new Station(name, x, y)`. */
  function NewStation(name: string, x: int, y: int): (s: Station)
    ensures s.name == name && s.coordinate == Point(x, y)
  {
    Station(name, Point(x, y))
  }

  /** `setName`: only the name changes. */
  function SetName(s: Station, name: string): (r: Station)
    ensures r.name == name && r.coordinate == s.coordinate
  {
    s.(name := name)
  }

  /** `setCoordinate`: only the coordinate changes. */
  function SetCoordinate(s: Station, coordinate: Point): (r: Station)
    ensures r.coordinate == coordinate && r.name == s.name
  {
    s.(coordinate := coordinate)
  }

  /** `Station.equals`: same name, whatever the coordinates. */
  predicate StationEquals(a: Station, b: Station) {
    a.name == b.name
  }

  /** `equals` is an equivalence, so it can key a hash set. */
  lemma StationEqualsIsEquivalence(a: Station, b: Station, c: Station)
    ensures StationEquals(a, a)
    ensures StationEquals(a, b) ==> StationEquals(b, a)
    ensures StationEquals(a, b) && StationEquals(b, c) ==> StationEquals(a, c)
  {
  }

  /**
   * `Station.hashCode` as written: `Objects.hash(name, coordinate)`, with the
   * hashes of `String` and `Point` given as functions.
   */
  function HashCode(s: Station, stringHash: string -> int, pointHash: Point -> int): int {
    ArraysHash([stringHash(s.name), pointHash(s.coordinate)])
  }

  /**
   * The hash as written breaks the `equals`/`hashCode` contract: two stations
   * with the same name at two points whose hashes differ are equal but hash
   * apart. `Point.hashCode` is 0 for (0, 0) and 0x3FF00000 for (1, 0).
   */
  lemma HashCodeSplitsEqualStations(stringHash: string -> int, pointHash: Point -> int)
    requires -0x8000_0000 <= pointHash(Point(0, 0)) <= 0x7FFF_FFFF
    requires -0x8000_0000 <= pointHash(Point(1, 0)) <= 0x7FFF_FFFF
    requires pointHash(Point(0, 0)) != pointHash(Point(1, 0))
    ensures var a := NewStation("A", 0, 0); var b := NewStation("A", 1, 0);
      StationEquals(a, b) && HashCode(a, stringHash, pointHash) != HashCode(b, stringHash, pointHash)
  {
    var a := NewStation("A", 0, 0);
    var b := NewStation("A", 1, 0);
    var c := 31 * ArraysHash([stringHash("A")]);
    assert [stringHash(a.name), pointHash(a.coordinate)][..1] == [stringHash("A")];
    assert [stringHash(b.name), pointHash(b.coordinate)][..1] == [stringHash("A")];
    Wrap32Separates(c, pointHash(Point(0, 0)), pointHash(Point(1, 0)));
  }

  /** Adding two different 32-bit values to the same base wraps to different results. */
  lemma Wrap32Separates(c: int, u: int, v: int)
    requires -0x8000_0000 <= u <= 0x7FFF_FFFF && -0x8000_0000 <= v <= 0x7FFF_FFFF && u != v
    ensures Wrap32(c + u) != Wrap32(c + v)
  {
    var d := u - v;
    var x := Wrap32(c + u) - (c + u);
    var y := Wrap32(c + v) - (c + v);
    DifferenceOfMultiples(x, y);
    assert d % TwoTo32 != 0;
    assert d != y - x;
    assert Wrap32(c + u) - Wrap32(c + v) == x - y + d;
  }

  lemma DifferenceOfMultiples(x: int, y: int)
    requires x % TwoTo32 == 0 && y % TwoTo32 == 0
    ensures (y - x) % TwoTo32 == 0
  {
    var p := x / TwoTo32;
    var q := y / TwoTo32;
    assert x == TwoTo32 * p && y == TwoTo32 * q;
    assert y - x == TwoTo32 * (q - p);
  }

  /** The hash the `equals` method calls for: `Objects.hash(name)`. */
  function CorrectedHashCode(s: Station, stringHash: string -> int): int {
    ArraysHash([stringHash(s.name)])
  }

  /** With the corrected hash, equal stations always hash equally. */
  lemma CorrectedHashCodeConsistent(a: Station, b: Station, stringHash: string -> int)
    requires StationEquals(a, b)
    ensures CorrectedHashCode(a, stringHash) == CorrectedHashCode(b, stringHash)
  {
  }

  /** `Station.containsStationByName`: some station carries the name. */
  predicate ContainsStationByName(stations: seq<Station>, name: string) {
    exists i :: 0 <= i < |stations| && stations[i].name == name
  }

  /**
   * `Station.getStationByName`: the first station, in iteration order, with
   * that name, or `None`.
   */
  function GetStationByName(stations: seq<Station>, name: string): (r: Option<Station>)
    ensures r.Some? <==> ContainsStationByName(stations, name)
    ensures r.Some? ==> r.value in stations && r.value.name == name
    ensures r.Some? ==>
      exists i :: 0 <= i < |stations| && stations[i] == r.value
        && forall j :: 0 <= j < i ==> stations[j].name != name
    decreases |stations|
  {
    if stations == [] then None
    else if stations[0].name == name then Some(stations[0])
    else
      var r := GetStationByName(stations[1..], name);
      assert ContainsStationByName(stations, name) ==> ContainsStationByName(stations[1..], name) by {
        if ContainsStationByName(stations, name) {
          var i :| 0 <= i < |stations| && stations[i].name == name;
          assert stations[1..][i - 1] == stations[i];
        }
      }
      if r.Some? then
        var i :| 0 <= i < |stations[1..]| && stations[1..][i] == r.value
          && forall j :: 0 <= j < i ==> stations[1..][j].name != name;
        assert stations[i + 1] == r.value;
        r
      else r
  }

  /** No two stations of a list share a name: what a `Set<Station>` guarantees. */
  predicate UniqueNames(stations: seq<Station>) {
    forall i, j :: 0 <= i < j < |stations| ==> stations[i].name != stations[j].name
  }

  /** In a set of stations the lookup by name finds the one station with that name. */
  lemma GetStationByNameInSet(stations: seq<Station>, s: Station)
    requires UniqueNames(stations) && s in stations
    ensures GetStationByName(stations, s.name) == Some(s)
  {
    var r := GetStationByName(stations, s.name);
    var i :| 0 <= i < |stations| && stations[i] == r.value
      && forall j :: 0 <= j < i ==> stations[j].name != s.name;
    var k :| 0 <= k < |stations| && stations[k] == s;
    if k < i {
      assert stations[k].name != s.name;
    } else if i < k {
      assert stations[i].name != stations[k].name;
    }
  }
}
