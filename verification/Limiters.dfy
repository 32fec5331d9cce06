/** The second-derivative limiters behind the battery and throttle filters. */
module Limiters {
  import opened Arithmetic
  import opened Words
  import opened Filters

  const SIGN_LIMIT: uint32 := 0x7fff_ffff

  predicate Between(a: int, b: int, x: int) {
    Min(a, b) <= x <= Max(a, b)
  }

  /** A negative result, wrapped around, counts as zero. */
  function Clamp(x: uint32): uint32 {
    if SIGN_LIMIT < x then 0 else x
  }

  // ---------- Battery ----------

  /** The filtered value and the slopes now allowed up and down. */
  datatype Battery = Battery(filtered: uint32, pos: uint32, neg: uint32)

  function Shrink(limit: uint32): uint32 {
    if 1 <= limit then limit - 1 else 0
  }

  /** The slope for a step over the given distance. */
  function Grow(limit: uint32, distance: uint32): uint32 {
    if limit < distance then limit + 1 else limit
  }

  /** Where a step arrives, before the clamp. */
  function Towards(b: Battery, target: uint32): uint32 {
    var d := Distance(target, b.filtered);
    if target > b.filtered then b.filtered + Min(Grow(b.pos, d), d) else b.filtered - Min(Grow(b.neg, d), d)
  }

  function BatteryStep(b: Battery, target: uint32): Battery {
    var d := Distance(target, b.filtered);
    Battery(Clamp(Towards(b, target)),
            if target > b.filtered then Grow(b.pos, d)
            else if target < b.filtered then Shrink(Shrink(b.pos)) else Shrink(b.pos),
            if target < b.filtered then Grow(b.neg, d)
            else if target > b.filtered then Shrink(Shrink(b.neg)) else Shrink(b.neg))
  }

  /** Towards the target the slope grows by one as long as it is below the distance, and the other
      one shrinks by two; on the target both shrink by one. */
  lemma BatteryInPlain(b: Battery, target: uint32)
    ensures var c := BatteryStep(b, target);
      var there := if target > b.filtered + b.pos + 1 then b.filtered + b.pos + 1
                   else if b.filtered > target + b.neg + 1 then b.filtered - b.neg - 1
                   else target;
      && c.filtered == (if there > 0x7fff_ffff then 0 else there)
      && c.pos == (if target > b.filtered then (if b.pos < target - b.filtered then b.pos + 1 else b.pos)
                   else if target < b.filtered then (if b.pos > 2 then b.pos - 2 else 0)
                   else (if b.pos > 1 then b.pos - 1 else 0))
      && c.neg == (if target < b.filtered then (if b.neg < b.filtered - target then b.neg + 1 else b.neg)
                   else if target > b.filtered then (if b.neg > 2 then b.neg - 2 else 0)
                   else (if b.neg > 1 then b.neg - 1 else 0))
  {
  }

  /** Every step stays between the old value and the target, exactly unless the clamp cuts a
      value above 2^31 - 1 down to zero. */
  lemma BatteryStaysBetweenIff(b: Battery, target: uint32)
    ensures Between(b.filtered, target, BatteryStep(b, target).filtered)
       <==> Towards(b, target) <= SIGN_LIMIT || Min(b.filtered, target) == 0
  {
  }

  /** The slope allowed towards the target. */
  function Slope(b: Battery, target: uint32): uint32 {
    if target > b.filtered then b.pos else b.neg
  }

  /** A step over the distance d goes as far as the grown slope, and no further than d. */
  lemma BatteryAdvances(b: Battery, target: uint32)
    requires b.filtered <= SIGN_LIMIT && target <= SIGN_LIMIT
    ensures var d, c, slope := Distance(target, b.filtered), BatteryStep(b, target), Slope(b, target);
      && Between(b.filtered, target, c.filtered) && c.filtered <= SIGN_LIMIT
      && Distance(target, c.filtered) == Max(d - (slope + 1), 0)
      && (slope + 1 < d ==> Slope(c, target) == slope + 1)
  {
  }

  function BatteryRun(b: Battery, target: uint32, n: nat): Battery {
    if n == 0 then b else BatteryStep(BatteryRun(b, target, n - 1), target)
  }

  /** The sum of n slopes, each one more than the one before. */
  function Travel(slope: nat, n: nat): nat {
    if n == 0 then 0 else Travel(slope, n - 1) + slope + n
  }

  lemma NextProduct(n: nat)
    requires n > 0
    ensures n * (n + 1) == (n - 1) * n + 2 * n
  {
    AddOne(n, n - 1);
    AddOne(n, n);
  }

  lemma {:induction false} TravelSum(slope: nat, n: nat)
    ensures 2 * Travel(slope, n) == 2 * (n * slope) + n * (n + 1)
  {
    if n > 0 {
      TravelSum(slope, n - 1);
      AddOne(slope, n - 1);
      NextProduct(n);
    }
  }

  /** c has come t nearer to the target than b, at most onto it, in n steps. */
  ghost predicate Nearer(b: Battery, c: Battery, target: uint32, t: nat, n: nat) {
    && Between(b.filtered, target, c.filtered) && c.filtered <= SIGN_LIMIT
    && Distance(target, c.filtered) == Max(Distance(target, b.filtered) - t, 0)
    && (t < Distance(target, b.filtered) ==> Slope(c, target) == Slope(b, target) + n)
  }

  lemma NearerStep(b: Battery, c: Battery, target: uint32, t: nat, n: nat)
    requires b.filtered <= SIGN_LIMIT && target <= SIGN_LIMIT && Nearer(b, c, target, t, n)
    ensures Nearer(b, BatteryStep(c, target), target, t + Slope(b, target) + n + 1, n + 1)
  {
    BatteryAdvances(c, target);
  }

  /** Under a constant target the distance falls by one more with every step: after n steps it is
      what n slopes leave of it. */
  lemma {:induction false} BatteryApproaches(b: Battery, target: uint32, n: nat)
    requires b.filtered <= SIGN_LIMIT && target <= SIGN_LIMIT
    ensures Nearer(b, BatteryRun(b, target, n), target, Travel(Slope(b, target), n), n)
  {
    if n > 0 {
      BatteryApproaches(b, target, n - 1);
      NearerStep(b, BatteryRun(b, target, n - 1), target, Travel(Slope(b, target), n - 1), n - 1);
    }
  }

  /** So it is reached within n steps exactly if n L + n (n + 1) / 2 covers the distance. */
  lemma BatteryReachesIff(b: Battery, target: uint32, n: nat)
    requires b.filtered <= SIGN_LIMIT && target <= SIGN_LIMIT
    ensures BatteryRun(b, target, n).filtered == target
       <==> 2 * (n * Slope(b, target)) + n * (n + 1) >= 2 * Distance(target, b.filtered)
  {
    BatteryApproaches(b, target, n);
    TravelSum(Slope(b, target), n);
  }

  // ---------- Throttle ----------

  const FIRST_LIMIT: sint32 := 600
  const SECOND_LIMIT: sint32 := 25
  const ANGLE_RANGE: uint32 := 90000

  datatype Throttle = Throttle(filtered: uint32, pos: sint32, neg: sint32)

  function Rise(pos: sint32): sint32 {
    if FIRST_LIMIT > pos then pos + SECOND_LIMIT else FIRST_LIMIT
  }

  function Fall(neg: sint32): sint32 {
    if -FIRST_LIMIT < neg then neg - SECOND_LIMIT else -FIRST_LIMIT
  }

  function EaseDown(pos: sint32): sint32 {
    if 0 < pos then pos - SECOND_LIMIT else 0
  }

  function EaseUp(neg: sint32): sint32 {
    if 0 > neg then neg + SECOND_LIMIT else 0
  }

  function ThrottleStep(t: Throttle, target: uint32): Throttle {
    var d := ToS32(target - t.filtered);
    var pos, neg := EaseDown(EaseDown(t.pos)), EaseUp(EaseUp(t.neg));
    if target > t.filtered then
      if t.pos < d then
        var up := Rise(t.pos);
        Throttle(Clamp(if up < d then ToU32(t.filtered + up) else target), up, neg)
      else Throttle(Clamp(target), t.pos, neg)
    else if target < t.filtered then
      if t.neg > d then Throttle(Clamp(ToU32(t.filtered + Fall(t.neg))), pos, Fall(t.neg))
      else Throttle(Clamp(target), pos, t.neg)
    else Throttle(Clamp(t.filtered), pos, neg)
  }

  predicate Upward(pos: sint32) {
    pos % SECOND_LIMIT == 0 && 0 <= pos <= FIRST_LIMIT
  }

  predicate Downward(neg: sint32) {
    neg % SECOND_LIMIT == 0 && -FIRST_LIMIT <= neg <= 0
  }

  /** The limit states are multiples of 25 of the right sign, at most 600. */
  predicate Limited(t: Throttle) {
    Upward(t.pos) && Downward(t.neg)
  }

  lemma LimitSteps(pos: sint32, neg: sint32)
    requires Upward(pos) && Downward(neg)
    ensures Upward(Rise(pos)) && Rise(pos) == Min(pos + 25, 600) && Upward(EaseDown(EaseDown(pos)))
    ensures Downward(Fall(neg)) && Fall(neg) == Max(neg - 25, -600) && Downward(EaseUp(EaseUp(neg)))
  {
    EaseSteps(pos, neg);
    EaseSteps(EaseDown(pos), EaseUp(neg));
    assert pos < 600 ==> pos <= 575;
    assert neg > -600 ==> neg >= -575;
  }

  lemma EaseSteps(pos: sint32, neg: sint32)
    requires Upward(pos) && Downward(neg)
    ensures Upward(EaseDown(pos)) && Downward(EaseUp(neg))
  {
    assert pos > 0 ==> pos >= 25;
    assert neg < 0 ==> neg <= -25;
  }

  /** Below its target by less than an increment, or on it. */
  predicate Near(t: Throttle, target: uint32) {
    target - SECOND_LIMIT < t.filtered <= target
  }

  /** Where a step arrives: up by at most the grown slope and not past the target; down by the
      whole grown slope, unless the old slope covers the distance. */
  function Arrives(f: int, target: int, pos: int, neg: int): int {
    if target >= f then Min(target, f + Min(pos + 25, 600))
    else if 0 - neg >= f - target then target
    else Max(f - Min(25 - neg, 600), 0)
  }

  lemma SmallDifference(a: uint32, b: uint32)
    requires a <= SIGN_LIMIT && b <= SIGN_LIMIT
    ensures ToS32(a - b) == a - b
  {
  }

  /** Below zero the sum wraps around, and is clamped. */
  lemma ClampedSum(f: uint32, x: sint32)
    requires f <= SIGN_LIMIT && -600 <= x && f + x <= SIGN_LIMIT
    ensures Clamp(ToU32(f + x)) == Max(f + x, 0)
  {
  }

  lemma ThrottleArrives(t: Throttle, target: uint32)
    requires Limited(t) && t.filtered <= SIGN_LIMIT && target <= SIGN_LIMIT
    ensures var u := ThrottleStep(t, target);
      && u.filtered == Arrives(t.filtered, target, t.pos, t.neg) && Limited(u)
      && (t.filtered <= u.filtered < target ==> u.pos == Min(t.pos + 25, 600))
      && (u.filtered > target ==> u.neg == Max(t.neg - 25, -600))
  {
    LimitSteps(t.pos, t.neg);
    SmallDifference(target, t.filtered);
    if target < t.filtered {
      ClampedSum(t.filtered, Fall(t.neg));
    } else if t.filtered + Rise(t.pos) < target {
      ClampedSum(t.filtered, Rise(t.pos));
    }
  }

  /** Towards the target the slope grows by 25 up to 600 as long as it is below the distance; the
      other one, and on the target both, go back by 50. */
  lemma ThrottleSlopesInPlain(t: Throttle, target: uint32)
    requires Limited(t) && t.filtered <= SIGN_LIMIT && target <= SIGN_LIMIT
    ensures var u := ThrottleStep(t, target);
      && u.pos == (if target <= t.filtered then (if t.pos > 50 then t.pos - 50 else 0)
                   else if t.pos >= target - t.filtered then t.pos
                   else if t.pos < 575 then t.pos + 25 else 600)
      && u.neg == (if target >= t.filtered then (if t.neg < -50 then t.neg + 50 else 0)
                   else if 0 - t.neg >= t.filtered - target then t.neg
                   else if t.neg > -575 then t.neg - 25 else -600)
  {
    SmallDifference(target, t.filtered);
    LimitSteps(t.pos, t.neg);
    EaseTwice(t.pos, t.neg);
  }

  lemma EaseTwice(pos: sint32, neg: sint32)
    requires Upward(pos) && Downward(neg)
    ensures EaseDown(EaseDown(pos)) == if pos > 50 then pos - 50 else 0
    ensures EaseUp(EaseUp(neg)) == if neg < -50 then neg + 50 else 0
  {
    EaseSteps(pos, neg);
    assert pos > 25 ==> pos >= 50;
    assert neg < -25 ==> neg <= -50;
  }

  lemma ArrivesNear(f: uint32, target: uint32, pos: int, neg: int)
    requires 0 <= pos <= 600 && -600 <= neg <= 0 && f <= SIGN_LIMIT && target <= SIGN_LIMIT
    ensures var g := Arrives(f, target, pos, neg);
      && 0 <= g <= SIGN_LIMIT && Distance(f, g) <= 600
      && (target >= f ==> f <= g <= target)
      && (target <= f ==> target - 25 < g <= f)
      && (target - 25 < f <= target ==> g == target)
  {
  }

  /** One sample: the limits hold, the angle moves by at most 600, never past the target upwards,
      and downwards by at most 24; then the next sample meets the target. */
  lemma ThrottleMoves(t: Throttle, target: uint32)
    requires Limited(t) && t.filtered <= SIGN_LIMIT && target <= SIGN_LIMIT
    ensures var u := ThrottleStep(t, target);
      && Limited(u) && u.filtered <= SIGN_LIMIT && Distance(t.filtered, u.filtered) <= FIRST_LIMIT
      && (target >= t.filtered ==> t.filtered <= u.filtered <= target)
      && (target <= t.filtered ==> u.filtered <= t.filtered && (u.filtered < target ==> Near(u, target)))
      && (Near(t, target) ==> u.filtered == target)
  {
    ThrottleArrives(t, target);
    ArrivesNear(t.filtered, target, t.pos, t.neg);
  }

  /** The sum of n slopes, each 25 more than the one before, up to 600. */
  function SteepTravel(slope: nat, n: nat): nat {
    if n == 0 then 0 else SteepTravel(slope, n - 1) + Min(slope + 25 * n, 600)
  }

  lemma {:induction false} SteepTravelSum(slope: nat, n: nat)
    requires slope + 25 * n <= 600
    ensures 2 * SteepTravel(slope, n) == 2 * (n * slope) + 25 * (n * (n + 1))
  {
    if n > 0 {
      SteepTravelSum(slope, n - 1);
      AddOne(slope, n - 1);
      NextProduct(n);
    }
  }

  lemma {:induction false} SteepTravelAtLeast(slope: nat, n: nat)
    ensures SteepTravel(slope, n) >= 25 * n
  {
    if n > 0 {
      SteepTravelAtLeast(slope, n - 1);
    }
  }

  function ThrottleRun(t: Throttle, target: uint32, n: nat): Throttle {
    if n == 0 then t else ThrottleStep(ThrottleRun(t, target, n - 1), target)
  }

  /** Where a constant target leads: up onto it, or down to it and at most 24 past it. */
  ghost predicate Led(t: Throttle, u: Throttle, target: uint32, x: nat, n: nat) {
    && Limited(u) && u.filtered <= SIGN_LIMIT
    && if target >= t.filtered then
         if t.filtered + x < target then u.filtered == t.filtered + x && u.pos == Min(t.pos + 25 * n, 600)
         else u.filtered == target
       else
         if t.filtered - x > target then u.filtered == t.filtered - x && 0 - u.neg == Min(25 * n - t.neg, 600)
         else Near(u, target)
  }

  function ThrottleSlope(t: Throttle, target: uint32): nat
    requires Limited(t)
  {
    if target >= t.filtered then t.pos else 0 - t.neg
  }

  lemma LedStep(t: Throttle, u: Throttle, target: uint32, x: nat, n: nat)
    requires Limited(t) && t.filtered <= SIGN_LIMIT && target <= SIGN_LIMIT && Led(t, u, target, x, n)
    ensures Led(t, ThrottleStep(u, target), target, x + Min(ThrottleSlope(t, target) + 25 * (n + 1), 600), n + 1)
    ensures x >= Distance(target, t.filtered) ==> ThrottleStep(u, target).filtered == target
  {
    ThrottleArrives(u, target);
    LedOn(t, u, ThrottleStep(u, target), target, x, n);
  }

  lemma LedOn(t: Throttle, u: Throttle, v: Throttle, target: uint32, x: nat, n: nat)
    requires Limited(t) && t.filtered <= SIGN_LIMIT && target <= SIGN_LIMIT && Led(t, u, target, x, n)
    requires v.filtered == Arrives(u.filtered, target, u.pos, u.neg) && Limited(v)
    requires u.filtered <= v.filtered < target ==> v.pos == Min(u.pos + 25, 600)
    requires v.filtered > target ==> v.neg == Max(u.neg - 25, -600)
    ensures Led(t, v, target, x + Min(ThrottleSlope(t, target) + 25 * (n + 1), 600), n + 1)
    ensures x >= Distance(target, t.filtered) ==> v.filtered == target
  {
    ArrivesNear(u.filtered, target, u.pos, u.neg);
  }

  /** Under a constant target the angle moves by growing steps of up to 600. */
  lemma {:induction false} ThrottleFollows(t: Throttle, target: uint32, n: nat)
    requires Limited(t) && t.filtered <= SIGN_LIMIT && target <= SIGN_LIMIT
    ensures Led(t, ThrottleRun(t, target, n), target, SteepTravel(ThrottleSlope(t, target), n), n)
  {
    if n > 0 {
      ThrottleFollows(t, target, n - 1);
      LedStep(t, ThrottleRun(t, target, n - 1), target, SteepTravel(ThrottleSlope(t, target), n - 1), n - 1);
    }
  }

  /** And rests on the target from one sample after the steps have covered the distance. */
  lemma ThrottleSettles(t: Throttle, target: uint32, n: nat)
    requires Limited(t) && t.filtered <= SIGN_LIMIT && target <= SIGN_LIMIT && n > 0
    requires SteepTravel(ThrottleSlope(t, target), n - 1) >= Distance(target, t.filtered)
    ensures ThrottleRun(t, target, n).filtered == target
  {
    ThrottleFollows(t, target, n - 1);
    LedStep(t, ThrottleRun(t, target, n - 1), target, SteepTravel(ThrottleSlope(t, target), n - 1), n - 1);
  }

  // ---------- Filter and limiter ----------

  const BATTERY_WEIGHT: byte := 0x40
  const THROTTLE_WEIGHT: byte := 0x80

  datatype BatterySense = BatterySense(smoothed: uint32, limiter: Battery)

  function BatterySample(s: BatterySense, raw: uint32): BatterySense {
    var smoothed := Filter32(s.smoothed, raw, BATTERY_WEIGHT);
    BatterySense(smoothed, BatteryStep(s.limiter, smoothed))
  }

  /** Three quarters of the filtered value and one of the reading, each rounded down. */
  lemma BatterySampleInPlain(s: BatterySense, raw: uint32)
    requires s.smoothed < 0x100_0000 && raw < 0x100_0000
    ensures var t := BatterySample(s, raw);
      t.smoothed == 0xc0 * s.smoothed / 0x100 + 0x40 * raw / 0x100 && t.limiter == BatteryStep(s.limiter, t.smoothed)
  {
    Filter32IsDecay(s.smoothed, raw, 0x40);
  }

  function BatterySamples(s: BatterySense, raw: uint32, n: nat): BatterySense {
    if n == 0 then s else BatterySample(BatterySamples(s, raw, n - 1), raw)
  }

  lemma {:induction false} BatterySmoothed(s: BatterySense, raw: uint32, n: nat)
    requires s.smoothed < SCALE && raw < SCALE && s.limiter.filtered <= SIGN_LIMIT
    ensures BatterySamples(s, raw, n).smoothed == Repeat32(s.smoothed, raw, BATTERY_WEIGHT, n)
    ensures BatterySamples(s, raw, n).limiter.filtered <= SIGN_LIMIT
  {
    if n > 0 {
      BatterySmoothed(s, raw, n - 1);
      Repeat32IsDecay(s.smoothed, raw, BATTERY_WEIGHT, n);
      BatteryAdvances(BatterySamples(s, raw, n - 1).limiter, BatterySamples(s, raw, n).smoothed);
    }
  }

  /** The filter stands still from the m-th sample on. */
  lemma {:induction false} StandsStill(acc: uint32, raw: uint32, w: byte, m: nat, n: nat)
    requires w > 0 && acc < SCALE && raw < SCALE && m == Distance(acc, Settled32(raw, w))
    ensures var p := Repeat32(acc, raw, w, m);
      Repeat32(acc, raw, w, m + n) == p <= raw && w * (raw - p) < 0x200
  {
    Filter32Settles(acc, raw, w, m + n);
    if n > 0 {
      StandsStill(acc, raw, w, m, n - 1);
      Filter32Settles(acc, raw, w, m + n - 1);
    }
  }

  lemma LastStep(b: Battery, c: Battery, target: uint32, n: nat)
    requires n > 0 && c == BatteryRun(b, target, n - 1)
    ensures BatteryStep(c, target) == BatteryRun(b, target, n)
  {
  }

  lemma LastSample(s: BatterySense, raw: uint32, n: nat)
    requires n > 0
    ensures BatterySamples(s, raw, n).limiter
         == BatteryStep(BatterySamples(s, raw, n - 1).limiter, BatterySamples(s, raw, n).smoothed)
  {
  }

  lemma SameSmoothed(s: BatterySense, raw: uint32, m: nat, n: nat)
    requires s.smoothed < SCALE && raw < SCALE && s.limiter.filtered <= SIGN_LIMIT
    requires m == Distance(s.smoothed, Settled32(raw, BATTERY_WEIGHT))
    ensures BatterySamples(s, raw, m + n).smoothed == BatterySamples(s, raw, m).smoothed
  {
    BatterySmoothed(s, raw, m);
    BatterySmoothed(s, raw, m + n);
    StandsStill(s.smoothed, raw, BATTERY_WEIGHT, m, n);
  }

  /** From where the filter stands still the limiter sees a constant target. */
  lemma {:induction false} BatteryTail(s: BatterySense, raw: uint32, target: uint32, m: nat, n: nat)
    requires forall k: nat :: m < k <= m + n ==> BatterySamples(s, raw, k).smoothed == target
    ensures BatterySamples(s, raw, m + n).limiter == BatteryRun(BatterySamples(s, raw, m).limiter, target, n)
  {
    if n == 0 {
      assert m + n == m;
    } else {
      BatteryTail(s, raw, target, m, n - 1);
      LastSample(s, raw, m + n);
      LastStep(BatterySamples(s, raw, m).limiter, BatterySamples(s, raw, m + n - 1).limiter, target, n);
    }
  }

  lemma BatterySteady(s: BatterySense, raw: uint32, m: nat, k: nat)
    requires s.smoothed < SCALE && raw < SCALE && s.limiter.filtered <= SIGN_LIMIT
    requires m == Distance(s.smoothed, Settled32(raw, BATTERY_WEIGHT))
    ensures var t := BatterySamples(s, raw, m);
      && raw - 8 < t.smoothed <= raw && t.limiter.filtered <= SIGN_LIMIT
      && BatterySamples(s, raw, m + k).limiter == BatteryRun(t.limiter, t.smoothed, k)
  {
    forall j: nat | m < j <= m + k
      ensures BatterySamples(s, raw, j).smoothed == BatterySamples(s, raw, m).smoothed
    {
      SameSmoothed(s, raw, m, j - m);
    }
    BatteryTail(s, raw, BatterySamples(s, raw, m).smoothed, m, k);
    BatterySmoothed(s, raw, m);
    StandsStill(s.smoothed, raw, BATTERY_WEIGHT, m, 0);
  }

  /** No distance takes more than 2^16 steps. */
  lemma BatteryReachesSoon(b: Battery, target: uint32, k: nat)
    requires b.filtered <= SIGN_LIMIT && target <= SIGN_LIMIT && k >= 0x1_0000
    ensures BatteryRun(b, target, k).filtered == target
  {
    BatteryReachesIff(b, target, k);
    Larger(k, 0x1_0001, k + 1);
    Larger(k, 0, Slope(b, target));
  }

  /** A constant reading below 2^24 is reported to within 7, after 2^16 samples more than the
      filter takes at most. */
  lemma BatteryFollowsReading(s: BatterySense, raw: uint32, n: nat)
    requires s.smoothed < SCALE && raw < SCALE && s.limiter.filtered <= SIGN_LIMIT
    requires n >= Distance(s.smoothed, Settled32(raw, BATTERY_WEIGHT)) + 0x1_0000
    ensures raw - 8 < BatterySamples(s, raw, n).limiter.filtered <= raw
  {
    var m := Distance(s.smoothed, Settled32(raw, BATTERY_WEIGHT));
    var t := BatterySamples(s, raw, m);
    BatterySteady(s, raw, m, n - m);
    BatteryReachesSoon(t.limiter, t.smoothed, n - m);
  }

  datatype ThrottleSense = ThrottleSense(smoothed: uint32, limiter: Throttle)

  /** The angle for a sensor voltage, between the calibrated end points; differences wrap around if
      these are the wrong way round. */
  function RawAngle(volts: uint32, lo: uint32, hi: uint32): uint32
    requires lo != hi
  {
    var scaled := ToU32(ToU32(Min(hi, Max(lo, volts)) - lo) * ANGLE_RANGE);
    QuotientBelow(scaled, ToU32(hi - lo));
    scaled / ToU32(hi - lo)
  }

  lemma ClippedInRange(volts: uint32, lo: uint32, hi: uint32)
    requires lo != hi
    ensures ToU32(Min(hi, Max(lo, volts)) - lo) <= ToU32(hi - lo) != 0
  {
  }

  lemma WrappedQuotient(x: uint32, range: uint32)
    requires x <= range != 0
    ensures ToU32(x * ANGLE_RANGE) / range <= ANGLE_RANGE
  {
    var y := ToU32(x * ANGLE_RANGE);
    QuotientBelow(y, range);
    Above(range, y / range, ANGLE_RANGE);
  }

  /** Even then, and even where the product wraps. */
  lemma RawAngleInRange(volts: uint32, lo: uint32, hi: uint32)
    requires lo != hi
    ensures RawAngle(volts, lo, hi) <= ANGLE_RANGE
  {
    ClippedInRange(volts, lo, hi);
    WrappedQuotient(ToU32(Min(hi, Max(lo, volts)) - lo), ToU32(hi - lo));
  }

  /** With the end points the right way round and no wrap, the angle is 0 below, 90000 above and in
      proportion between them, rounded down. */
  lemma RawAngleInPlain(volts: uint32, lo: uint32, hi: uint32)
    requires lo < hi && (hi - lo) * 90000 <= 0xffff_ffff
    ensures volts <= lo ==> RawAngle(volts, lo, hi) == 0
    ensures volts >= hi ==> RawAngle(volts, lo, hi) == 90000
    ensures lo < volts < hi ==>
      var q := RawAngle(volts, lo, hi);
      (hi - lo) * q <= (volts - lo) * 90000 < (hi - lo) * q + (hi - lo)
  {
    var x, range := if volts <= lo then 0 else if volts >= hi then hi - lo else volts - lo, hi - lo;
    assert ToU32(range) == range && ToU32(Min(hi, Max(lo, volts)) - lo) == x;
    Proportion(x, range, RawAngle(volts, lo, hi));
  }

  lemma Proportion(x: uint32, range: uint32, q: uint32)
    requires x <= range != 0 && range * 90000 <= 0xffff_ffff && q == ToU32(x * ANGLE_RANGE) / range
    ensures range * q <= x * 90000 < range * q + range
    ensures x == 0 ==> q == 0
    ensures x == range ==> q == 90000
  {
    NoWrap(x * 90000);
    Divided(x * 90000, range);
    if x == 0 {
      DivisionIsUnique(0, range, 0, 0);
    } else if x == range {
      DivisionIsUnique(range * 90000, range, 90000, 0);
    }
  }

  /** The wrong way round every voltage gives the same. */
  lemma RawAngleReversed(volts: uint32, lo: uint32, hi: uint32)
    requires hi < lo
    ensures var range := 0x1_0000_0000 - (lo - hi);
      RawAngle(volts, lo, hi) == range * 90000 % 0x1_0000_0000 / range
  {
    assert ToU32(hi - lo) == 0x1_0000_0000 - (lo - hi);
  }

  function ThrottleSample(s: ThrottleSense, raw: uint32): ThrottleSense {
    var smoothed := Filter32(s.smoothed, raw, THROTTLE_WEIGHT);
    ThrottleSense(smoothed, ThrottleStep(s.limiter, smoothed))
  }

  /** Half of the filtered angle and half of the new one, each rounded down. */
  lemma ThrottleSampleInPlain(s: ThrottleSense, raw: uint32)
    requires s.smoothed < 0x100_0000 && raw < 0x100_0000
    ensures var t := ThrottleSample(s, raw);
      t.smoothed == s.smoothed / 2 + raw / 2 && t.limiter == ThrottleStep(s.limiter, t.smoothed)
  {
    Filter32IsDecay(s.smoothed, raw, 0x80);
    Half(s.smoothed);
    Half(raw);
  }

  lemma Half(x: nat)
    ensures 0x80 * x / 0x100 == x / 2
  {
  }

  function ThrottleSamples(s: ThrottleSense, raws: seq<uint32>): ThrottleSense {
    if raws == [] then s else ThrottleSample(ThrottleSamples(s, raws[..|raws| - 1]), raws[|raws| - 1])
  }

  predicate InRange(s: ThrottleSense) {
    s.smoothed <= ANGLE_RANGE && s.limiter.filtered <= ANGLE_RANGE && Limited(s.limiter)
  }

  lemma ThrottleSampleInRange(s: ThrottleSense, raw: uint32)
    requires InRange(s) && raw <= ANGLE_RANGE
    ensures InRange(ThrottleSample(s, raw))
    ensures Distance(s.limiter.filtered, ThrottleSample(s, raw).limiter.filtered) <= FIRST_LIMIT
  {
    Filter32Below(s.smoothed, raw, THROTTLE_WEIGHT);
    ThrottleMoves(s.limiter, Filter32(s.smoothed, raw, THROTTLE_WEIGHT));
  }

  /** Over every run of samples the angle and the limits stay in range, and no sample changes the
      angle by more than 600. */
  lemma {:induction false} ThrottleStaysInRange(s: ThrottleSense, raws: seq<uint32>)
    requires InRange(s) && forall i :: 0 <= i < |raws| ==> raws[i] <= ANGLE_RANGE
    ensures InRange(ThrottleSamples(s, raws))
    ensures raws != [] ==> Distance(ThrottleSamples(s, raws[..|raws| - 1]).limiter.filtered,
                                    ThrottleSamples(s, raws).limiter.filtered) <= FIRST_LIMIT
  {
    if raws != [] {
      ThrottleStaysInRange(s, raws[..|raws| - 1]);
      ThrottleSampleInRange(ThrottleSamples(s, raws[..|raws| - 1]), raws[|raws| - 1]);
    }
  }

  /** n samples of the same angle. */
  function ThrottleHold(s: ThrottleSense, raw: uint32, n: nat): ThrottleSense {
    if n == 0 then s else ThrottleSample(ThrottleHold(s, raw, n - 1), raw)
  }

  lemma {:induction false} HoldSmoothed(s: ThrottleSense, raw: uint32, n: nat)
    requires InRange(s) && raw <= ANGLE_RANGE
    ensures ThrottleHold(s, raw, n).smoothed == Repeat32(s.smoothed, raw, THROTTLE_WEIGHT, n)
    ensures InRange(ThrottleHold(s, raw, n))
  {
    if n > 0 {
      HoldSmoothed(s, raw, n - 1);
      ThrottleSampleInRange(ThrottleHold(s, raw, n - 1), raw);
    }
  }

  lemma LastHold(s: ThrottleSense, raw: uint32, n: nat)
    requires n > 0
    ensures ThrottleHold(s, raw, n).limiter
         == ThrottleStep(ThrottleHold(s, raw, n - 1).limiter, ThrottleHold(s, raw, n).smoothed)
  {
  }

  lemma LastThrottleStep(t: Throttle, u: Throttle, target: uint32, n: nat)
    requires n > 0 && u == ThrottleRun(t, target, n - 1)
    ensures ThrottleStep(u, target) == ThrottleRun(t, target, n)
  {
  }

  lemma {:induction false} ThrottleTail(s: ThrottleSense, raw: uint32, target: uint32, m: nat, n: nat)
    requires forall k: nat :: m < k <= m + n ==> ThrottleHold(s, raw, k).smoothed == target
    ensures ThrottleHold(s, raw, m + n).limiter == ThrottleRun(ThrottleHold(s, raw, m).limiter, target, n)
  {
    if n == 0 {
      assert m + n == m;
    } else {
      ThrottleTail(s, raw, target, m, n - 1);
      LastHold(s, raw, m + n);
      LastThrottleStep(ThrottleHold(s, raw, m).limiter, ThrottleHold(s, raw, m + n - 1).limiter, target, n);
    }
  }

  lemma ThrottleSteady(s: ThrottleSense, raw: uint32, m: nat, n: nat)
    requires InRange(s) && raw <= ANGLE_RANGE
    requires m == Distance(s.smoothed, Settled32(raw, THROTTLE_WEIGHT))
    ensures var t := ThrottleHold(s, raw, m);
      && InRange(t) && raw - 4 < t.smoothed <= raw
      && ThrottleHold(s, raw, m + n).limiter == ThrottleRun(t.limiter, t.smoothed, n)
  {
    HoldSmoothed(s, raw, m);
    StandsStill(s.smoothed, raw, THROTTLE_WEIGHT, m, 0);
    forall k: nat | m < k <= m + n
      ensures ThrottleHold(s, raw, k).smoothed == ThrottleHold(s, raw, m).smoothed
    {
      HoldSmoothed(s, raw, k);
      StandsStill(s.smoothed, raw, THROTTLE_WEIGHT, m, k - m);
    }
    ThrottleTail(s, raw, ThrottleHold(s, raw, m).smoothed, m, n);
  }

  lemma ThrottleReachesSoon(t: Throttle, target: uint32, n: nat)
    requires Limited(t) && t.filtered <= ANGLE_RANGE && target <= ANGLE_RANGE && n > 3600
    ensures ThrottleRun(t, target, n).filtered == target
  {
    SteepTravelAtLeast(ThrottleSlope(t, target), n - 1);
    ThrottleSettles(t, target, n);
  }

  /** A constant angle is reported to within 3, after 3601 samples more than the filter takes at
      most. */
  lemma ThrottleFollowsReading(s: ThrottleSense, raw: uint32, n: nat)
    requires InRange(s) && raw <= ANGLE_RANGE
    requires n > Distance(s.smoothed, Settled32(raw, THROTTLE_WEIGHT)) + 3600
    ensures raw - 4 < ThrottleHold(s, raw, n).limiter.filtered <= raw
  {
    var m := Distance(s.smoothed, Settled32(raw, THROTTLE_WEIGHT));
    var t := ThrottleHold(s, raw, m);
    ThrottleSteady(s, raw, m, n - m);
    ThrottleReachesSoon(t.limiter, t.smoothed, n - m);
  }

  // ---------- The modules' variables ----------

  class BatterySensor {
    const smoothed: FilterValue
    var filtered: uint32
    var pos: uint32
    var neg: uint32

    ghost function View(): BatterySense
      reads this, smoothed
    {
      BatterySense(smoothed.value, Battery(filtered, pos, neg))
    }

    /** The initial value of the filtered reading is 12000. */
    constructor ()
      ensures View() == BatterySense(0, Battery(12000, 0, 0)) && fresh(smoothed)
    {
      smoothed := new FilterValue(0);
      filtered, pos, neg := 12000, 0, 0;
    }

    /** BVM_vRun with a new sample, up to the conversion to volts. */
    method Sample(raw: uint32)
      modifies this, smoothed
      ensures View() == BatterySample(old(View()), raw)
    {
      var target := smoothed.LowPass32(raw, BATTERY_WEIGHT);
      Limit(target);
    }

    method Limit(target: uint32)
      modifies this
      ensures Battery(filtered, pos, neg) == BatteryStep(Battery(old(filtered), old(pos), old(neg)), target)
    {
      if target > filtered {
        if pos < target - filtered {
          pos := pos + 1;
          if pos < target - filtered {
            filtered := filtered + pos;
          } else {
            filtered := target;
          }
        } else {
          filtered := target;
        }
        neg := if 1 <= neg then neg - 1 else 0;
        neg := if 1 <= neg then neg - 1 else 0;
      } else if target < filtered {
        if neg < filtered - target {
          neg := neg + 1;
          if neg < filtered - target {
            filtered := filtered - neg;
          } else {
            filtered := target;
          }
        } else {
          filtered := target;
        }
        pos := if 1 <= pos then pos - 1 else 0;
        pos := if 1 <= pos then pos - 1 else 0;
      } else {
        pos := if 1 <= pos then pos - 1 else 0;
        neg := if 1 <= neg then neg - 1 else 0;
      }
      filtered := if SIGN_LIMIT < filtered then 0 else filtered;
    }
  }

  class ThrottleSensor {
    const smoothed: FilterValue
    var filtered: uint32
    var pos: sint32
    var neg: sint32

    ghost function View(): ThrottleSense
      reads this, smoothed
    {
      ThrottleSense(smoothed.value, Throttle(filtered, pos, neg))
    }

    constructor ()
      ensures View() == ThrottleSense(0, Throttle(0, 0, 0)) && fresh(smoothed)
    {
      smoothed := new FilterValue(0);
      filtered, pos, neg := 0, 0, 0;
    }

    /** TPS_vRun from a sensor voltage to the limited angle. */
    method Sample(volts: uint32, lo: uint32, hi: uint32)
      requires lo != hi
      modifies this, smoothed
      ensures View() == ThrottleSample(old(View()), RawAngle(volts, lo, hi))
    {
      var x := Max(lo, volts);
      x := Min(hi, x);
      x := ToU32(x - lo);
      x := ToU32(x * ANGLE_RANGE);
      QuotientBelow(x, ToU32(hi - lo));
      var raw := x / ToU32(hi - lo);
      var target := smoothed.LowPass32(raw, THROTTLE_WEIGHT);
      Limit(target);
    }

    method Limit(target: uint32)
      modifies this
      ensures Throttle(filtered, pos, neg) == ThrottleStep(Throttle(old(filtered), old(pos), old(neg)), target)
    {
      if target > filtered {
        if pos < ToS32(target - filtered) {
          pos := if FIRST_LIMIT > pos then pos + SECOND_LIMIT else FIRST_LIMIT;
          if pos < ToS32(target - filtered) {
            filtered := ToU32(filtered + pos);
          } else {
            filtered := target;
          }
        } else {
          filtered := target;
        }
        neg := if 0 > neg then neg + SECOND_LIMIT else 0;
        neg := if 0 > neg then neg + SECOND_LIMIT else 0;
      } else if target < filtered {
        if neg > ToS32(target - filtered) {
          neg := if -FIRST_LIMIT < neg then neg - SECOND_LIMIT else -FIRST_LIMIT;
          filtered := ToU32(filtered + neg);
        } else {
          filtered := target;
        }
        pos := if 0 < pos then pos - SECOND_LIMIT else 0;
        pos := if 0 < pos then pos - SECOND_LIMIT else 0;
      } else {
        pos := if 0 < pos then pos - SECOND_LIMIT else 0;
        neg := if 0 > neg then neg + SECOND_LIMIT else 0;
        pos := if 0 < pos then pos - SECOND_LIMIT else 0;
        neg := if 0 > neg then neg + SECOND_LIMIT else 0;
      }
      filtered := if SIGN_LIMIT < filtered then 0 else filtered;
    }
  }
}
