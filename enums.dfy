/**
 * The two Java enums of the model: how often a trip repeats, and the actions of
 * the console menu. A Java enum is its list of values in declaration order;
 * `values()[i]` is the i-th declared constant and `valueOf` accepts exactly the
 * declared names, case-sensitively.
 */
module Enums {
  import opened Common

  datatype RepetitionRate = OneTime | Daily | BiDaily | Weekly | Monthly

  /** `RepetitionRate.values()`, in declaration order. */
  const RepetitionRates: seq<RepetitionRate> := [OneTime, Daily, BiDaily, Weekly, Monthly]

  /** The position of a constant in the declaration (`ordinal()`). */
  function RateOrdinal(r: RepetitionRate): (i: nat)
    ensures i < |RepetitionRates| && RepetitionRates[i] == r
  {
    match r
    case OneTime => 0
    case Daily => 1
    case BiDaily => 2
    case Weekly => 3
    case Monthly => 4
  }

  /** `getValuesCount()`: the number of declared rates. */
  function RateValuesCount(): (n: nat)
    ensures n == |RepetitionRates|
    ensures forall r: RepetitionRate :: RateOrdinal(r) < n
  {
    5
  }

  /** `isValueInRange(val)`: `val` is a valid index into `values()`. */
  predicate IsRateInRange(v: int) {
    v >= 0 && v < RateValuesCount()
  }

  /** An index is in range exactly when it is the ordinal of some rate. */
  lemma RateInRangeIffOrdinal(v: int)
    ensures IsRateInRange(v) <==> exists r: RepetitionRate :: RateOrdinal(r) == v
  {
    if IsRateInRange(v) {
      assert RateOrdinal(RepetitionRates[v]) == v;
    }
  }

  /** The declared rates are pairwise distinct, so ordinals identify them. */
  lemma RatesDistinct()
    ensures forall i, j :: 0 <= i < j < |RepetitionRates| ==> RepetitionRates[i] != RepetitionRates[j]
  {
  }

  function RateName(r: RepetitionRate): string {
    match r
    case OneTime => "OneTime"
    case Daily => "Daily"
    case BiDaily => "BiDaily"
    case Weekly => "Weekly"
    case Monthly => "Monthly"
  }

  /** `RepetitionRate.valueOf(name)`; an unknown name is an IllegalArgumentException. */
  function RateValueOf(name: string): (r: Result<RepetitionRate>)
    ensures r.Success? ==> RateName(r.value) == name
    ensures r.Failure? ==> r.error == UnknownRepetitionRate(name)
  {
    if name == "OneTime" then Success(OneTime)
    else if name == "Daily" then Success(Daily)
    else if name == "BiDaily" then Success(BiDaily)
    else if name == "Weekly" then Success(Weekly)
    else if name == "Monthly" then Success(Monthly)
    else Failure(UnknownRepetitionRate(name))
  }

  /** Every declared name is accepted and yields its own constant. */
  lemma RateValueOfName(r: RepetitionRate)
    ensures RateValueOf(RateName(r)) == Success(r)
  {
  }

  /** `valueOf` succeeds only on the five declared names. */
  lemma RateValueOfOnlyDeclaredNames(name: string)
    ensures RateValueOf(name).Success? <==> exists r: RepetitionRate :: RateName(r) == name
  {
    if exists r: RepetitionRate :: RateName(r) == name {
      var r: RepetitionRate :| RateName(r) == name;
      RateValueOfName(r);
    }
  }

  /** The lookup is case-sensitive: a lower-cased name is rejected. */
  lemma RateValueOfIsCaseSensitive()
    ensures RateValueOf("daily").Failure? && RateValueOf("ONETIME").Failure?
  {
  }

  datatype UserAction =
    | ReadXmlFile
    | PostTripRequest
    | GetAllTripOffers
    | GetAllTripRequests
    | MatchTripRequestToOffer
    | Exit

  /** `UserAction.values()`, in declaration order. */
  const UserActions: seq<UserAction> :=
    [ReadXmlFile, PostTripRequest, GetAllTripOffers, GetAllTripRequests, MatchTripRequestToOffer, Exit]

  function ActionOrdinal(a: UserAction): (i: nat)
    ensures i < |UserActions| && UserActions[i] == a
  {
    match a
    case ReadXmlFile => 0
    case PostTripRequest => 1
    case GetAllTripOffers => 2
    case GetAllTripRequests => 3
    case MatchTripRequestToOffer => 4
    case Exit => 5
  }

  /** `getValuesCount()`: the number of declared actions. */
  function ActionValuesCount(): (n: nat)
    ensures n == |UserActions|
    ensures forall a: UserAction :: ActionOrdinal(a) < n
  {
    6
  }

  /** `isValueInRange(val)`: `val` is a valid index into `values()`. */
  predicate IsActionInRange(v: int) {
    v >= 0 && v < ActionValuesCount()
  }

  lemma ActionInRangeIffOrdinal(v: int)
    ensures IsActionInRange(v) <==> exists a: UserAction :: ActionOrdinal(a) == v
  {
    if IsActionInRange(v) {
      assert ActionOrdinal(UserActions[v]) == v;
    }
  }

  lemma ActionsDistinct()
    ensures forall i, j :: 0 <= i < j < |UserActions| ==> UserActions[i] != UserActions[j]
  {
  }

  /**
   * The console menu numbers the actions from 1: menu number `n` selects
   * `values()[n - 1]` when that index is in range, and nothing otherwise.
   */
  function MenuAction(n: int): (r: Option<UserAction>)
    ensures r.Some? <==> 1 <= n <= |UserActions|
    ensures r.Some? ==> ActionOrdinal(r.value) == n - 1
  {
    var shifted := n - 1;
    if IsActionInRange(shifted) then Some(UserActions[shifted]) else None
  }

  /** Each action has exactly one menu number. */
  lemma MenuNumberOfAction(a: UserAction)
    ensures MenuAction(ActionOrdinal(a) + 1) == Some(a)
    ensures forall n :: MenuAction(n) == Some(a) ==> n == ActionOrdinal(a) + 1
  {
  }
}
