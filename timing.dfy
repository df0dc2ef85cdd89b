/**
 * Times of day (`java.time.LocalTime` at minute precision) and `TripTiming`:
 * the day, rounded departure time and repetition rate of a trip offer.
 */
module Timing {
  import opened Common
  import opened Enums

  const MinutesPerDay: int := 24 * 60

  type Hour = h: int | 0 <= h < 24
  type Minute = m: int | 0 <= m < 60

  datatype LocalTime = LocalTime(hour: Hour, minute: Minute)

  /** The minute of the day, 0..1439. */
  function ToMinutes(t: LocalTime): (r: nat)
    ensures r < MinutesPerDay
  {
    t.hour * 60 + t.minute
  }

  lemma ToMinutesInjective(a: LocalTime, b: LocalTime)
    requires ToMinutes(a) == ToMinutes(b)
    ensures a == b
  {
    assert a.hour == ToMinutes(a) / 60 && a.minute == ToMinutes(a) % 60;
    assert b.hour == ToMinutes(b) / 60 && b.minute == ToMinutes(b) % 60;
  }

  function FromMinutes(n: int): (t: LocalTime)
    requires 0 <= n < MinutesPerDay
    ensures ToMinutes(t) == n
  {
    LocalTime(n / 60, n % 60)
  }

  predicate IsValidTime(hour: int, minute: int) {
    0 <= hour < 24 && 0 <= minute < 60
  }

  /** `LocalTime.of(hour, minute)`: a DateTimeException outside the clock's range. */
  function Of(hour: int, minute: int): (r: Result<LocalTime>)
    ensures r.Success? <==> IsValidTime(hour, minute)
    ensures r.Success? ==> r.value.hour == hour && r.value.minute == minute
    ensures r.Failure? ==> r.error == InvalidTime(hour, minute)
  {
    if IsValidTime(hour, minute) then Success(LocalTime(hour, minute))
    else Failure(InvalidTime(hour, minute))
  }

  /** `plusHours`: the hour moves on and wraps around midnight. */
  function PlusHours(t: LocalTime, hours: nat): (r: LocalTime)
    ensures r.minute == t.minute
    ensures t.hour + hours < 24 ==> r.hour == t.hour + hours
    ensures 24 <= t.hour + hours < 48 ==> r.hour == t.hour + hours - 24
  {
    LocalTime((t.hour + hours) % 24, t.minute)
  }

  /** `minusMinutes`: the minute of the day moves back and wraps around midnight. */
  function MinusMinutes(t: LocalTime, minutes: nat): (r: LocalTime)
    ensures minutes <= ToMinutes(t) ==> ToMinutes(r) == ToMinutes(t) - minutes
  {
    var wrapped := minutes % MinutesPerDay;
    assert minutes < MinutesPerDay ==> wrapped == minutes;
    var back := ToMinutes(t) - wrapped;
    FromMinutes(if back < 0 then back + MinutesPerDay else back)
  }

  /** Taking away a time's own minutes leaves the full hour. */
  lemma MinusOwnMinutes(t: LocalTime)
    ensures MinusMinutes(t, t.minute) == LocalTime(t.hour, 0)
  {
    ToMinutesInjective(MinusMinutes(t, t.minute), LocalTime(t.hour, 0));
  }

  /** How far apart two times are on the 24-hour clock face, in minutes. */
  function ClockDistance(a: LocalTime, b: LocalTime): (d: nat)
    ensures d <= MinutesPerDay / 2
  {
    CircleDistance(ToMinutes(a), ToMinutes(b))
  }

  function CircleDistance(x: int, y: int): int {
    var d := if x <= y then y - x else x - y;
    if d <= MinutesPerDay / 2 then d else MinutesPerDay - d
  }

  lemma ClockDistanceSymmetric(a: LocalTime, b: LocalTime)
    ensures ClockDistance(a, b) == ClockDistance(b, a)
  {
  }

  lemma ClockDistanceZero(a: LocalTime, b: LocalTime)
    ensures ClockDistance(a, b) == 0 <==> a == b
  {
    if ClockDistance(a, b) == 0 {
      ToMinutesInjective(a, b);
    }
  }

  /** A time on the five-minute grid the rounding aims for. */
  predicate OnGrid(t: LocalTime) {
    t.minute % 5 == 0
  }

  const RoundMinutesToProductOf: int := 5

  /**
   * `5 * Math.round((float) minutes / 5)` for a valid minute. No minute in
   * 0..59 is exactly halfway between two multiples of 5, so rounding the
   * quotient is rounding to the nearest multiple, i.e. `5 * ((m + 2) / 5)`.
   */
  function RoundedMinutes(minutes: Minute): (r: int)
    ensures r % RoundMinutesToProductOf == 0
    ensures minutes - 2 <= r <= minutes + 2
    ensures 0 <= r <= 60
  {
    RoundMinutesToProductOf * ((minutes + 2) / RoundMinutesToProductOf)
  }

  /** The nearest multiple of 5 is the only multiple of 5 within two minutes. */
  lemma RoundedMinutesUnique(minutes: Minute, k: int)
    requires k % 5 == 0 && minutes - 2 <= k <= minutes + 2
    ensures k == RoundedMinutes(minutes)
  {
  }

  /**
   * The private `roundTime(hour, minutes)`: `LocalTime.of` validates first;
   * a rounded minute of 60 advances the hour (wrapping at midnight) and clears
   * the minutes; otherwise the hour is kept with the rounded minute.
   */
  function RoundTimeOf(hour: int, minutes: int): (r: Result<LocalTime>)
    ensures r.Failure? <==> !IsValidTime(hour, minutes)
    ensures r.Failure? ==> r.error == InvalidTime(hour, minutes)
    ensures r.Success? ==> OnGrid(r.value)
    ensures r.Success? ==> ClockDistance(Of(hour, minutes).value, r.value) <= 2
  {
    match Of(hour, minutes)
    case Failure(e) => Failure(e)
    case Success(tripTime) =>
      var roundedMinutes := RoundedMinutes(minutes);
      if roundedMinutes >= 60 then Success(NextFullHour(tripTime))
      else Success(Of(hour, roundedMinutes).value)
  }

  /** `plusHours(1)` followed by `minusMinutes(getMinute())`. */
  function NextFullHour(t: LocalTime): (r: LocalTime)
    ensures r == LocalTime((t.hour + 1) % 24, 0)
    ensures t.minute >= 58 ==> ClockDistance(t, r) <= 2
  {
    var later := PlusHours(t, 1);
    MinusOwnMinutes(later);
    if t.minute >= 58 then
      if t.hour == 23 then
        CarryPastMidnight(t);
        MinusMinutes(later, later.minute)
      else
        CarryWithinDay(t);
        MinusMinutes(later, later.minute)
    else
      MinusMinutes(later, later.minute)
  }

  lemma CarryPastMidnight(t: LocalTime)
    requires t.minute >= 58 && t.hour == 23
    ensures ClockDistance(t, LocalTime(0, 0)) <= 2
  {
    assert ToMinutes(t) == 1380 + t.minute;
  }

  lemma CarryWithinDay(t: LocalTime)
    requires t.minute >= 58 && t.hour < 23
    ensures ClockDistance(t, LocalTime(t.hour + 1, 0)) <= 2
  {
    assert ToMinutes(LocalTime(t.hour + 1, 0)) - ToMinutes(t) == 60 - t.minute;
  }

  /** The public `roundTime(LocalTime)`: every valid time rounds. */
  function RoundTime(t: LocalTime): (r: LocalTime)
    ensures OnGrid(r) && ClockDistance(t, r) <= 2
  {
    RoundTimeOf(t.hour, t.minute).value
  }

  /** Minutes 0..57 keep the hour and round to `5 * ((m + 2) / 5)`. */
  lemma RoundKeepsHour(hour: Hour, minutes: Minute)
    requires minutes <= 57
    ensures RoundTimeOf(hour, minutes) == Success(LocalTime(hour, 5 * ((minutes + 2) / 5)))
  {
  }

  /** Minutes 58 and 59 carry into the next hour, which wraps at midnight. */
  lemma RoundCarries(hour: Hour, minutes: Minute)
    requires minutes >= 58
    ensures RoundTimeOf(hour, minutes) == Success(LocalTime((hour + 1) % 24, 0))
  {
    assert RoundedMinutes(minutes) == 60;
    MinusOwnMinutes(PlusHours(LocalTime(hour, minutes), 1));
  }

  /** Examples, for the reader: the general fact is RoundTimeIsNearestGridTime. */
  lemma RoundExamples()
    ensures RoundTimeOf(10, 58) == Success(LocalTime(11, 0))
    ensures RoundTimeOf(23, 59) == Success(LocalTime(0, 0))
    ensures RoundTimeOf(7, 2) == Success(LocalTime(7, 0))
    ensures RoundTimeOf(7, 3) == Success(LocalTime(7, 5))
    ensures RoundTimeOf(24, 0).Failure? && RoundTimeOf(12, 60).Failure?
  {
    RoundCarries(10, 58);
    RoundCarries(23, 59);
  }

  /**
   * The rounding is the grid time nearest to its input: any grid time within
   * two minutes on the clock face is the result.
   */
  lemma RoundTimeIsNearestGridTime(t: LocalTime, g: LocalTime)
    requires OnGrid(g) && ClockDistance(t, g) <= 2
    ensures g == RoundTime(t)
  {
    var r := RoundTime(t);
    ClockTriangle(g, t, r);
    if g != r {
      GridTimesApart(g, r);
    }
  }

  /** Two different grid times are at least five minutes apart. */
  lemma GridTimesApart(a: LocalTime, b: LocalTime)
    requires OnGrid(a) && OnGrid(b) && a != b
    ensures ClockDistance(a, b) >= 5
  {
    var p := a.hour * 12 + a.minute / 5;
    var q := b.hour * 12 + b.minute / 5;
    assert ToMinutes(a) == 5 * p;
    assert ToMinutes(b) == 5 * q;
    if p == q {
      ToMinutesInjective(a, b);
    }
    FiveApart(p, q);
  }

  lemma FiveApart(p: int, q: int)
    requires 0 <= p < 288 && 0 <= q < 288 && p != q
    ensures CircleDistance(5 * p, 5 * q) >= 5
  {
  }

  /** The clock-face distance obeys the triangle inequality. */
  lemma ClockTriangle(a: LocalTime, b: LocalTime, c: LocalTime)
    ensures ClockDistance(a, c) <= ClockDistance(a, b) + ClockDistance(b, c)
  {
  }

  /** Rounding a grid time leaves it unchanged, so rounding is idempotent. */
  lemma RoundTimeIdempotent(t: LocalTime)
    ensures RoundTime(RoundTime(t)) == RoundTime(t)
  {
    var r := RoundTime(t);
    RoundTimeIsNearestGridTime(r, r);
  }

  /**
   * A trip's timing. Java's `TripTiming` does not override `equals`, so two
   * timings are equal only when they are the same object.
   */
  class TripTiming {
    var day: int
    var time: LocalTime
    var repetitionRate: RepetitionRate

    constructor (day: int, time: LocalTime, repetitionRate: RepetitionRate)
      ensures this.day == day && this.time == time && this.repetitionRate == repetitionRate
    {
      this.day := day;
      this.time := time;
      this.repetitionRate := repetitionRate;
    }

    /**
     * `new TripTiming(day, hour, minutes, repetitionRate)`: the time is
     * validated and rounded first, then the rate is looked up by its exact
     * name; either step may throw, in that order.
     */
    static method Create(day: int, hour: int, minutes: int, rate: string) returns (r: Result<TripTiming>)
      ensures !IsValidTime(hour, minutes) ==> r == Failure(InvalidTime(hour, minutes))
      ensures IsValidTime(hour, minutes) && RateValueOf(rate).Failure? ==>
        r == Failure(UnknownRepetitionRate(rate))
      ensures r.Success? <==> IsValidTime(hour, minutes) && RateValueOf(rate).Success?
      ensures r.Success? ==>
        fresh(r.value)
        && r.value.day == day
        && r.value.time == RoundTimeOf(hour, minutes).value
        && r.value.repetitionRate == RateValueOf(rate).value
    {
      var time := RoundTimeOf(hour, minutes);
      if time.Failure? {
        return Failure(time.error);
      }
      var repetition := RateValueOf(rate);
      if repetition.Failure? {
        return Failure(repetition.error);
      }
      var timing := new TripTiming(day, time.value, repetition.value);
      return Success(timing);
    }

    method SetDay(day: int)
      modifies this
      ensures this.day == day && time == old(time) && repetitionRate == old(repetitionRate)
    {
      this.day := day;
    }

    method SetTime(time: LocalTime)
      modifies this
      ensures this.time == time && day == old(day) && repetitionRate == old(repetitionRate)
    {
      this.time := time;
    }

    method SetRepetitionRate(repetitionRate: RepetitionRate)
      modifies this
      ensures this.repetitionRate == repetitionRate && day == old(day) && time == old(time)
    {
      this.repetitionRate := repetitionRate;
    }
  }
}
