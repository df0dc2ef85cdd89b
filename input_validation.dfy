/** `InputValidation.assertStationsExist`: every name must be a station of the map. */
module InputValidation {
  import opened Common
  import opened Maps

  /**
   * The names are checked in argument order against the map the singleton
   * holds; the first unknown one is reported. Nothing is changed.
   */
  function AssertStationsExist(m: Map, names: seq<string>): (r: Outcome)
    ensures r.Pass? <==> forall i :: 0 <= i < |names| ==> HasStation(m, names[i])
    ensures r.Fail? ==>
      exists k :: 0 <= k < |names| && !HasStation(m, names[k])
        && (forall j :: 0 <= j < k ==> HasStation(m, names[j]))
        && r.error == StationDoesNotExist(names[k])
    decreases |names|
  {
    if names == [] then Pass
    else if !HasStation(m, names[0]) then Fail(StationDoesNotExist(names[0]))
    else
      var r := AssertStationsExist(m, names[1..]);
      assert forall i :: 1 <= i < |names| ==> names[i] == names[1..][i - 1];
      if r.Fail? then
        var k :| 0 <= k < |names[1..]| && !HasStation(m, names[1..][k])
          && (forall j :: 0 <= j < k ==> HasStation(m, names[1..][j]))
          && r.error == StationDoesNotExist(names[1..][k]);
        assert names[k + 1] == names[1..][k];
        r
      else r
  }

  /** With no names there is nothing to check. */
  lemma NoNamesPass(m: Map)
    ensures AssertStationsExist(m, []) == Pass
  {
  }

  /** Two names as the request form passes them: the source is reported first. */
  lemma SourceReportedFirst(m: Map, src: string, dst: string)
    requires !HasStation(m, src)
    ensures AssertStationsExist(m, [src, dst]) == Fail(StationDoesNotExist(src))
  {
  }
}
