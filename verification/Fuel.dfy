/** The fuel computer: consumption and distance integrated over real time, for the trip and for life. */
module Fuel {
  import opened Reals
  import opened Wrappers

  const INJECTIONS_PER_REV := 2.5
  const DIESEL_G_PER_L := 832.0
  const CAP_SECONDS := 3.0

  /** One integrated stretch: litres per hour, kilometres per hour, and the hours it lasted. */
  datatype Step = Step(rate: real, speed: real, hours: real)

  /** Litres burnt over some stretches. */
  function FuelOf(steps: seq<Step>): real {
    if steps == [] then 0.0
    else FuelOf(steps[..|steps| - 1]) + Times(steps[|steps| - 1].rate, steps[|steps| - 1].hours)
  }

  function DistanceOf(steps: seq<Step>): real {
    if steps == [] then 0.0
    else DistanceOf(steps[..|steps| - 1]) + Times(steps[|steps| - 1].speed, steps[|steps| - 1].hours)
  }

  function HoursOf(steps: seq<Step>): real {
    if steps == [] then 0.0 else HoursOf(steps[..|steps| - 1]) + steps[|steps| - 1].hours
  }

  lemma OneMoreStep(steps: seq<Step>, s: Step)
    ensures FuelOf(steps + [s]) == FuelOf(steps) + Times(s.rate, s.hours)
    ensures DistanceOf(steps + [s]) == DistanceOf(steps) + Times(s.speed, s.hours)
    ensures HoursOf(steps + [s]) == HoursOf(steps) + s.hours
  {
    hide Times;
    assert (steps + [s])[..|steps|] == steps;
  }

  // ---- averages -------------------------------------------------------- //

  /** Litres per hundred kilometres at one moment. */
  function Economy(s: Step): real
    requires s.speed > 0.0
  {
    s.rate / s.speed * 100.0
  }

  lemma TimesMonotone(a: real, b: real, h: real)
    requires a <= b && h >= 0.0
    ensures Times(a, h) <= Times(b, h)
  {
  }

  lemma TimesMoves(a: real, b: real, h: real)
    ensures Times(Times(a, b), h) == Times(a, Times(b, h))
    ensures Times(a, b + h) == Times(a, b) + Times(a, h)
    ensures Times(100.0, b) == 100.0 * b
  {
    assert (a * b) * h == a * (b * h);
  }

  lemma QuotientBelow(p: real, q: real, k: real)
    requires q > 0.0
    ensures p / q * 100.0 <= k <==> 100.0 * p <= Times(k, q)
    ensures p / q * 100.0 >= k <==> 100.0 * p >= Times(k, q)
  {
    var r := p / q;
    assert r * q == p;
    assert (r * 100.0) * q == 100.0 * p;
    Order(r * 100.0, k, q);
    Order(k, r * 100.0, q);
  }

  lemma Order(a: real, b: real, q: real)
    requires q > 0.0
    ensures a <= b <==> a * q <= b * q
  {
    if a > b {
      assert (a - b) * q > 0.0;
    } else {
      assert (b - a) * q >= 0.0;
    }
  }

  /** The economy of every stretch lies between two bounds. */
  ghost predicate Within(steps: seq<Step>, lo: real, hi: real) {
    forall i | 0 <= i < |steps| ::
      steps[i].speed > 0.0 && steps[i].hours >= 0.0 && lo <= Economy(steps[i]) <= hi
  }

  lemma {:induction false} FuelWithin(steps: seq<Step>, lo: real, hi: real)
    requires Within(steps, lo, hi)
    ensures Times(lo, DistanceOf(steps)) <= 100.0 * FuelOf(steps) <= Times(hi, DistanceOf(steps))
    ensures DistanceOf(steps) >= 0.0
  {
    if steps == [] {
      NothingDriven(lo);
      NothingDriven(hi);
    } else {
      hide Times;
      var before, s := steps[..|steps| - 1], steps[|steps| - 1];
      FuelWithin(before, lo, hi);
      QuotientBelow(s.rate, s.speed, lo);
      QuotientBelow(s.rate, s.speed, hi);
      TimesMonotone(Times(lo, s.speed), 100.0 * s.rate, s.hours);
      TimesMonotone(100.0 * s.rate, Times(hi, s.speed), s.hours);
      TimesMonotone(0.0, s.speed, s.hours);
      NothingDriven(s.hours);
      TimesMoves(lo, s.speed, s.hours);
      TimesMoves(hi, s.speed, s.hours);
      TimesMoves(100.0, s.rate, s.hours);
      TimesMoves(100.0, Times(s.rate, s.hours), 0.0);
      TimesMoves(lo, DistanceOf(before), Times(s.speed, s.hours));
      TimesMoves(hi, DistanceOf(before), Times(s.speed, s.hours));
    }
  }

  lemma NothingDriven(k: real)
    ensures Times(k, 0.0) == 0.0 == Times(0.0, k)
  {
  }

  /**
   If every integrated stretch was driven, the average over all of them lies between the smallest and the
   largest momentary economy.
   */
  lemma AverageWithin(steps: seq<Step>, lo: real, hi: real)
    requires Within(steps, lo, hi) && DistanceOf(steps) > 0.0
    ensures lo <= FuelOf(steps) / DistanceOf(steps) * 100.0 <= hi
  {
    hide FuelOf, DistanceOf, Times;
    FuelWithin(steps, lo, hi);
    QuotientBelow(FuelOf(steps), DistanceOf(steps), lo);
    QuotientBelow(FuelOf(steps), DistanceOf(steps), hi);
  }

  // ---- the object ------------------------------------------------------ //

  /** Litres per hour from mg per stroke and revolutions per minute; nothing without either, or at a standstill engine. */
  function Rate(injection: Option<real>, rpm: Option<real>): Option<real> {
    if injection.Some? && rpm.Some? && rpm.value != 0.0 then
      Some(injection.value * INJECTIONS_PER_REV * rpm.value * 60.0 / 1000000.0 / (DIESEL_G_PER_L / 1000.0))
    else None
  }

  /** The rate weighs what the injectors pass in an hour, and there is one exactly if both values are read and the engine turns. */
  lemma RateIsInjectedMass(injection: Option<real>, rpm: Option<real>)
    ensures Rate(injection, rpm).Some? <==> injection.Some? && rpm.Some? && rpm.value != 0.0
    ensures Rate(injection, rpm).Some? ==>
              var injectionsPerHour := INJECTIONS_PER_REV * (60.0 * rpm.value);
              var gramsPerHour := Rate(injection, rpm).value * DIESEL_G_PER_L;
              1000.0 * gramsPerHour == Times(injection.value, injectionsPerHour)
  {
    if Rate(injection, rpm).Some? {
      var m, n := injection.value, rpm.value;
      assert Times(m, 2.5 * (60.0 * n)) == 150.0 * (m * n);
      assert m * 2.5 * n == 2.5 * (m * n);
    }
  }

  /** What is shown after an update, unrounded: each value only if it means something. */
  datatype Readout = Readout(rate: Option<real>, economy: Option<real>, trip: Option<real>, lifetime: Option<real>)

  const MOVING := 5.0
  const MIN_TRIP := 0.1
  const MIN_LIFETIME := 1.0

  class FuelComputer {
    var last: Option<real>
    var tripFuel: real
    var tripDist: real
    var lifeFuel: real
    var lifeDist: real

    ghost var startFuel: real
    ghost var startDist: real
    /** When the first update came, and the latest moment seen. */
    ghost var first: Option<real>
    ghost var clock: real
    ghost var steps: seq<Step>

    ghost predicate Valid()
      reads this
    {
      && tripFuel == FuelOf(steps) && tripDist == DistanceOf(steps)
      && lifeFuel - startFuel == tripFuel && lifeDist - startDist == tripDist
      && (forall i | 0 <= i < |steps| :: 0.0 <= steps[i].hours && 3600.0 * steps[i].hours <= CAP_SECONDS)
      && (last.Some? ==> first.Some? && last.value <= clock)
      && (if first.None? then steps == [] && last.None?
          else first.value <= clock && 3600.0 * HoursOf(steps) <= (if last.Some? then last.value else clock) - first.value)
    }

    constructor (lifeFuel: real, lifeDist: real)
      ensures Valid() && steps == [] && tripFuel == 0.0 && tripDist == 0.0 && last == None
      ensures this.lifeFuel == lifeFuel == startFuel && this.lifeDist == lifeDist == startDist && first == None
    {
      last, tripFuel, tripDist := None, 0.0, 0.0;
      this.lifeFuel, this.lifeDist := lifeFuel, lifeDist;
      startFuel, startDist, first, clock, steps := lifeFuel, lifeDist, None, 0.0, [];
    }

    /** Forget the clock, so that the gap to the next update is not integrated. */
    method Pause()
      requires Valid()
      modifies this`last
      ensures Valid() && last == None
    {
      last := None;
    }

    /**
     One poll at `now`. Exactly the time since the last update counts, up to three seconds, and only if the
     clock was running and the engine turns; trip and lifetime grow by the same amounts.
     */
    method Update(now: real, injection: Option<real>, rpm: Option<real>, speed: Option<real>)
      returns (shown: Readout)
      requires Valid() && (first.Some? ==> now >= clock)
      modifies this
      ensures Valid() && last == Some(now) && clock == now && startFuel == old(startFuel) && startDist == old(startDist)
      ensures var rate := Rate(injection, rpm);
              if old(last).Some? && rate.Some? then
                var seconds := if now - old(last).value <= CAP_SECONDS then now - old(last).value else CAP_SECONDS;
                steps == old(steps) + [Step(rate.value, if speed.Some? then speed.value else 0.0, seconds / 3600.0)]
              else steps == old(steps)
      ensures shown.rate == Rate(injection, rpm)
      ensures shown.economy == if shown.rate.Some? && speed.Some? && speed.value > MOVING then
                                 Some(Economy(Step(shown.rate.value, speed.value, 0.0)))
                               else None
      ensures shown.trip == TripEconomy() && shown.lifetime == LifetimeEconomy()
    {
      hide FuelOf, DistanceOf, HoursOf, Times, Rate;
      var rate := Rate(injection, rpm);
      if last.Some? && rate.Some? {
        var seconds := if now - last.value <= CAP_SECONDS then now - last.value else CAP_SECONDS;
        var hours := seconds / 3600.0;
        var v := if speed.Some? then speed.value else 0.0;
        ghost var step := Step(rate.value, v, hours);
        OneMoreStep(steps, step);
        tripFuel := tripFuel + Times(rate.value, hours);
        lifeFuel := lifeFuel + Times(rate.value, hours);
        if speed.Some? && speed.value != 0.0 {
          tripDist := tripDist + Times(v, hours);
          lifeDist := lifeDist + Times(v, hours);
        } else {
          NothingDriven(hours);
        }
        steps := steps + [step];
      }
      if first.None? {
        first := Some(now);
        NoHours();
      }
      last := Some(now);
      clock := now;
      var economy := None;
      if rate.Some? && speed.Some? && speed.value > MOVING {
        economy := Some(rate.value / speed.value * 100.0);
      }
      shown := Readout(rate, economy, TripEconomy(), LifetimeEconomy());
    }

    /** The trip average, once more than a hundred metres are driven. */
    function TripEconomy(): Option<real>
      reads this
    {
      if tripDist > MIN_TRIP then Some(tripFuel / tripDist * 100.0) else None
    }

    /** The lifetime average, once more than a kilometre is driven. */
    function LifetimeEconomy(): Option<real>
      reads this
    {
      if lifeDist > MIN_LIFETIME then Some(lifeFuel / lifeDist * 100.0) else None
    }

    /** The lifetime totals are those at the start and all stretches since. */
    lemma LifetimeIsStartAndSteps()
      requires Valid()
      ensures lifeFuel == startFuel + FuelOf(steps) && lifeDist == startDist + DistanceOf(steps)
      ensures LifetimeEconomy().Some? <==> startDist + DistanceOf(steps) > MIN_LIFETIME
      ensures LifetimeEconomy().Some? ==>
                LifetimeEconomy().value == (startFuel + FuelOf(steps)) / (startDist + DistanceOf(steps)) * 100.0
    {
    }

    /** A trip average lies between the momentary economies it was made of. */
    lemma TripAverageWithin(lo: real, hi: real)
      requires Valid() && TripEconomy().Some? && Within(steps, lo, hi)
      ensures lo <= TripEconomy().value <= hi
    {
      AverageWithin(steps, lo, hi);
    }
  }

  lemma NoHours()
    ensures HoursOf([]) == 0.0
  {
  }
}
