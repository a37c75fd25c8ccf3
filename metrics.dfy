/** The arithmetic main and the two uevent readers do on the scanned values,
    over exact reals: unit conversion from micro-units, time remaining, and
    the split of a time into whole hours and minutes. */
module Metrics {
  import opened CStrings

  /** One million: the kernel reports micro-volts, micro-amps and
      micro-amp-hours. */
  const Million: real := 1000000.0

  /** get_battery_discharge_rate: volts times amps. */
  function Watts(microVolts: int, microAmps: int): (w: real)
    ensures w * Million * Million == (microVolts * microAmps) as real
  {
    (microVolts as real / Million) * (microAmps as real / Million)
  }

  /** get_battery_capacity_now: amp-hours times volts, the same product of
      two micro-unit readings that Watts forms. */
  function WattHours(microAmpHours: int, microVolts: int): (wh: real)
    ensures wh * Million * Million == (microAmpHours * microVolts) as real
  {
    Watts(microAmpHours, microVolts)
  }

  /** 12 V at 0.5 A is 6 W. */
  lemma WattsExample()
    ensures Watts(12000000, 500000) == 6.0
  {
  }

  /** The time remaining, in hours: the energy left over the rate it is
      drawn at. The C division by a zero rate yields an infinity or NaN;
      here it has no value. */
  function HoursRemaining(wattHours: real, watts: real): (r: Option<real>)
    ensures r.None? <==> watts == 0.0
    ensures r.Some? ==> r.value * watts == wattHours
  {
    if watts == 0.0 then None else Some(wattHours / watts)
  }

  /** C's truncation of a real toward zero. */
  function Truncate(x: real): (n: int)
    ensures 0.0 <= x ==> n == x.Floor
    ensures x < 0.0 ==> x <= n as real < x + 1.0
  {
    if x >= 0.0 then x.Floor else -((-x).Floor)
  }

  /** fmod(x, 1): what is left of x after its integer part, with the sign
      of x. */
  function FracPart(x: real): (f: real)
    ensures 0.0 <= x ==> 0.0 <= f < 1.0
    ensures x < 0.0 ==> -1.0 < f <= 0.0
    ensures (x - f).Floor as real == x - f
  {
    x - Truncate(x) as real
  }

  /** `frac = fmod(t, 1); hours = floor(t - frac); minutes = floor(frac * 60)`:
      the whole hours toward zero, and the minutes of what is left rounded
      down. Together they are the time in whole minutes, rounded down; a
      time that is not negative gets minutes in 0..59. */
  function HoursMinutes(t: real): (hm: (int, int))
    ensures hm.0 * 60 + hm.1 == (t * 60.0).Floor
    ensures 0.0 <= t ==> hm.0 == t.Floor && 0 <= hm.1 < 60
    ensures t < 0.0 ==> hm.0 == Truncate(t) && -60 <= hm.1 <= 0
  {
    var frac := FracPart(t);
    ((t - frac).Floor, (frac * 60.0).Floor)
  }

  /** Two and a half hours are two hours and thirty minutes; three quarters
      of an hour are no hours and forty-five minutes. */
  lemma HoursMinutesExamples()
    ensures HoursMinutes(2.5) == (2, 30)
    ensures HoursMinutes(0.75) == (0, 45)
    ensures HoursMinutes(1.0) == (1, 0)
  {
  }
}
