/** The slew planner of main/slew.c: a timer-driven state machine that
    drives both axes toward a target until both are within tolerance,
    halving its polling interval and its peak speed as the target nears.

    Angles are in the tracker's milli-units; `day` is `DAY_MILLIS`, the
    length of a full RA circle. The current angles are read from the
    position tracker by the caller and passed in. The motor callback and
    the one-shot timer are outputs (`Effects`). */
module Slew {
  import opened CInt

  const MaxSpeed: int := 16
  const MinSpeed: int := 1
  const ToleranceMillis: int := 1000
  const CheckIntervalMillis: int := 1000
  const MinCheckIntervalMillis: int := 125

  /** `DAY_MILLIS` is positive and twice it still fits an `int32_t`. */
  predicate ValidDay(day: int)
  {
    0 < day && IsInt32(2 * day)
  }

  /** RA readings for which `getRaDiff` does not overflow `int32_t`. */
  predicate RaInRange(current: int, day: int)
  {
    -0x8000_0000 + day <= current < 0x8000_0000 - day
  }

  /** The halving ladders of peak speed and polling interval. */
  predicate ValidSpeed(speed: int)
  {
    speed == 16 || speed == 8 || speed == 4 || speed == 2 || speed == 1
  }

  predicate ValidInterval(interval: int)
  {
    interval == 1000 || interval == 500 || interval == 250 || interval == 125
  }

  /** Reference for `getRaDiff`: the representative of `current - target`
      modulo the circle in (-day/2, day/2]. */
  function ShortestRaDiff(target: int, current: int, day: int): (r: int)
    requires day > 0
    ensures -day < 2 * r <= day
    ensures (r - (current - target)) % day == 0
  {
    var x := current - target;
    var m := x % day;
    var q := x / day;
    assert x == q * day + m;
    if 2 * m <= day then
      assert m - x == (-q) * day;
      MultipleMod(-q, day);
      m
    else
      assert m - day - x == (-q - 1) * day;
      MultipleMod(-q - 1, day);
      m - day
  }

  /** Only one value has both properties of `ShortestRaDiff`. */
  lemma ShortestRaDiffUnique(target: int, current: int, day: int, r: int)
    requires day > 0
    requires -day < 2 * r <= day
    requires (r - (current - target)) % day == 0
    ensures r == ShortestRaDiff(target, current, day)
  {
    var s := ShortestRaDiff(target, current, day);
    var x := current - target;
    var p, q := (r - x) / day, (s - x) / day;
    assert r - x == p * day;
    assert s - x == q * day;
    assert r - s == (p - q) * day;
    SmallMultipleIsZero(p - q, day);
  }

  /** `getRaDiff`: the shortest signed path from `target` to `current`
      round the RA circle, computed as the source does with two loops that
      bring a copy of the target into [current, current + day). Every
      intermediate value fits `int32_t`. */
  method GetRaDiff(target: int, current: int, day: int) returns (r: int)
    requires ValidDay(day) && IsInt32(target) && RaInRange(current, day)
    ensures r == ShortestRaDiff(target, current, day)
    ensures -day < 2 * r <= day
    // an exact half-circle tie resolves to +day/2
    ensures 2 * r == day <==> (current - target) % day * 2 == day
  {
    var targetGreater := target;
    ghost var k := 0;
    while targetGreater > current
      invariant IsInt32(targetGreater)
      invariant targetGreater == target || targetGreater > current - day
      invariant targetGreater == target + k * day
      decreases targetGreater - current
    {
      targetGreater := targetGreater - day;
      k := k - 1;
      assert target + k * day == target + (k + 1) * day - day;
    }
    while targetGreater < current
      invariant IsInt32(targetGreater)
      invariant targetGreater < current + day
      invariant targetGreater == target + k * day
      decreases current - targetGreater
    {
      targetGreater := targetGreater + day;
      k := k + 1;
      assert target + k * day == target + (k - 1) * day + day;
    }
    // the loops leave the target's copy in [current, current + day)
    assert current <= targetGreater < current + day;
    var targetLess := targetGreater - day;
    var diffGreater := current - targetGreater;
    var diffLess := current - targetLess;
    assert IsInt32(targetLess) && IsInt32(diffGreater) && IsInt32(diffLess);
    r := if Abs(diffGreater) < Abs(diffLess) then diffGreater else diffLess;
    NearerCopyIsShortest(target, current, day, k, targetGreater);
  }

  /** Of the two copies of the target that bracket `current`, the nearer
      one gives the shortest difference. */
  lemma NearerCopyIsShortest(target: int, current: int, day: int, k: int, targetGreater: int)
    requires day > 0 && targetGreater == target + k * day
    requires current <= targetGreater < current + day
    ensures var diffGreater, diffLess := current - targetGreater, current - (targetGreater - day);
            var r := if Abs(diffGreater) < Abs(diffLess) then diffGreater else diffLess;
            && r == ShortestRaDiff(target, current, day)
            && (2 * r == day <==> (current - target) % day * 2 == day)
  {
    var diffGreater, diffLess := current - targetGreater, current - (targetGreater - day);
    var r := if Abs(diffGreater) < Abs(diffLess) then diffGreater else diffLess;
    if r == diffGreater {
      assert r - (current - target) == (-k) * day;
      MultipleMod(-k, day);
    } else {
      assert r - (current - target) == (1 - k) * day;
      MultipleMod(1 - k, day);
    }
    ShortestRaDiffUnique(target, current, day, r);
    ShortestRaDiffTie(target, current, day);
  }

  /** An exact half-circle tie resolves to `+day/2`, never `-day/2`. */
  lemma ShortestRaDiffTie(target: int, current: int, day: int)
    requires day > 0
    ensures 2 * ShortestRaDiff(target, current, day) == day <==> (current - target) % day * 2 == day
  {
  }

  /** One pass of the back-off loop's body on (time to go, interval,
      speed): halve the interval down to 125 ms, and halve the speed down
      to 1, doubling the estimate with it. */
  function Round(x: (int, int, int)): (int, int, int)
  {
    var (timeToGo, interval, speed) := x;
    (if speed > MinSpeed then timeToGo * 2 else timeToGo,
     if interval > MinCheckIntervalMillis then interval / 2 else interval,
     if speed > MinSpeed then speed / 2 else speed)
  }

  /** The state after `k` passes of the body, whatever the loop's test. */
  function Rounds(x: (int, int, int), k: nat): (int, int, int)
    decreases k
  {
    if k == 0 then x else Rounds(Round(x), k - 1)
  }

  /** Where the loop leaves off: the estimate covers four intervals, or
      neither interval nor speed can shrink. */
  predicate Settled(x: (int, int, int))
  {
    x.0 >= 4 * x.1 || (x.1 == MinCheckIntervalMillis && x.2 == MinSpeed)
  }

  /** `k` is the first number of passes after which the loop leaves off. */
  predicate FirstSettledAt(x: (int, int, int), k: nat)
  {
    Settled(Rounds(x, k)) && forall j :: 0 <= j < k ==> !Settled(Rounds(x, j))
  }

  /** `y` is the state after the first number of passes that settles. */
  ghost predicate IsFirstSettled(x: (int, int, int), y: (int, int, int))
  {
    forall k: nat :: FirstSettledAt(x, k) ==> y == Rounds(x, k)
  }

  /** The back-off loop of the tick: while the estimated time to go is
      under four polling intervals, halve the interval (down to 125 ms) and
      halve the speed (down to 1), doubling the estimate with each speed
      halving; stop when neither can shrink. Returns the final
      (time to go, interval, speed). */
  function BackOff(timeToGo: int, interval: int, speed: int): (r: (int, int, int))
    requires timeToGo >= 0 && ValidInterval(interval) && ValidSpeed(speed)
    ensures ValidInterval(r.1) && ValidSpeed(r.2)
    ensures r.1 <= interval && r.2 <= speed
    // on exit the estimate covers four intervals, or both floors are reached
    ensures r.0 >= 4 * r.1 || (r.1 == MinCheckIntervalMillis && r.2 == MinSpeed)
    // the estimate scales inversely with the speed
    ensures r.0 * r.2 == timeToGo * speed
    // nothing changes when the estimate already covers four intervals
    ensures timeToGo >= 4 * interval ==> r == (timeToGo, interval, speed)
    // the result is the state after the first number of passes that settles
    ensures IsFirstSettled((timeToGo, interval, speed), r)
    decreases interval + speed
  {
    if timeToGo >= interval * 4 then
      SettledIsFirst((timeToGo, interval, speed));
      (timeToGo, interval, speed)
    else
      var nextInterval := if interval > MinCheckIntervalMillis then interval / 2 else interval;
      var nextSpeed := if speed > MinSpeed then speed / 2 else speed;
      var nextTime := if speed > MinSpeed then timeToGo * 2 else timeToGo;
      if nextInterval == interval && nextSpeed == speed then
        SettledIsFirst((timeToGo, interval, speed));
        (timeToGo, interval, speed)
      else
        var r := BackOff(nextTime, nextInterval, nextSpeed);
        FirstSettledStep((timeToGo, interval, speed), r);
        r
  }

  /** A state that is settled already is its own first settled state. */
  lemma SettledIsFirst(x: (int, int, int))
    requires Settled(x)
    ensures IsFirstSettled(x, x)
  {
    forall k: nat | FirstSettledAt(x, k)
      ensures x == Rounds(x, k)
    {
      if k > 0 {
        NoPasses(x);
        assert false;
      }
    }
  }

  lemma NoPasses(x: (int, int, int))
    ensures Rounds(x, 0) == x
  {
  }

  /** If `y` is the first settled state after one pass from an unsettled
      `x`, it is the first settled state from `x`. */
  lemma {:induction false} FirstSettledStep(x: (int, int, int), y: (int, int, int))
    requires !Settled(x) && IsFirstSettled(Round(x), y)
    ensures IsFirstSettled(x, y)
  {
    forall k: nat | FirstSettledAt(x, k)
      ensures y == Rounds(x, k)
    {
      assert Rounds(x, 0) == x;
      assert k != 0;
      forall j | 0 <= j < k - 1
        ensures !Settled(Rounds(Round(x), j))
      {
        assert Rounds(x, j + 1) == Rounds(Round(x), j);
      }
      assert FirstSettledAt(Round(x), k - 1);
    }
  }

  /** Four passes always settle: by then the speed is down to 1 and the
      interval to 125 ms, so the first settled state exists and `BackOff`
      is the state after it. */
  lemma {:induction false} SettledWithinFour(timeToGo: int, interval: int, speed: int)
    requires ValidInterval(interval) && ValidSpeed(speed)
    ensures Settled(Rounds((timeToGo, interval, speed), 4))
  {
    var x := (timeToGo, interval, speed);
    assert Rounds(x, 4) == Round(Round(Round(Round(x))));
  }

  /** The worked case: from an estimate of 100 ms at interval 1000 and
      speed 16, three passes give (800, 125, 2), the first state whose
      estimate covers four intervals. */
  lemma BackOffExample()
    ensures BackOff(100, 1000, 16) == (800, 125, 2)
  {
  }

  /** The back-off as the source's `while` loop with `break`. */
  method BackOffLoop(timeToGo0: int, interval0: int, speed0: int) returns (timeToGo: int, interval: int, speed: int)
    requires timeToGo0 >= 0 && ValidInterval(interval0) && ValidSpeed(speed0)
    ensures (timeToGo, interval, speed) == BackOff(timeToGo0, interval0, speed0)
    ensures timeToGo >= 4 * interval || (interval == MinCheckIntervalMillis && speed == MinSpeed)
  {
    timeToGo, interval, speed := timeToGo0, interval0, speed0;
    while timeToGo < interval * 4
      invariant timeToGo >= 0 && ValidInterval(interval) && ValidSpeed(speed)
      invariant BackOff(timeToGo, interval, speed) == BackOff(timeToGo0, interval0, speed0)
      decreases interval + speed
    {
      var anySlowDown := false;
      if interval > MinCheckIntervalMillis {
        interval := interval / 2;
        anySlowDown := true;
      }
      if speed > MinSpeed {
        speed := speed / 2;
        timeToGo := timeToGo * 2;
        anySlowDown := true;
      }
      if !anySlowDown {
        break;
      }
    }
  }

  datatype SlewState = SlewState(
    slewing: bool,
    raStart: int, decStart: int,
    raTarget: int, decTarget: int,
    speed: int,
    checkInterval: int,
    timeToGo: int)

  /** Rates handed to the motor callback (cycles per day on each axis). */
  datatype Motor = Motor(ra: real, dec: real)

  datatype TimerAction = NoTimerAction | StartOnce(micros: int) | StopTimer

  datatype Effects = Effects(motor: Motor, timer: TimerAction)

  /** The invariant every state reached through `SlewTo` keeps. */
  predicate Valid(s: SlewState)
  {
    ValidSpeed(s.speed) && ValidInterval(s.checkInterval) && IsInt32(s.raTarget)
  }

  /** The terminal test of the tick. */
  predicate WithinTolerance(raDiff: int, decDiff: int)
  {
    Abs(raDiff) < ToleranceMillis && Abs(decDiff) < ToleranceMillis
  }

  function Sign(x: int): real { if x > 0 then 1.0 else -1.0 }

  function MaxInt(a: int, b: int): int { if a < b then b else a }

  /** The rates of a moving tick: the axis with the larger difference
      gets factor 1, the other `smaller / larger`, each multiplied by the
      peak speed and by the sign of its own difference (a zero difference
      counts as negative, as in the source, and gets factor 0). */
  function Apportion(speed: int, raDiff: int, decDiff: int): (m: Motor)
    requires MaxInt(Abs(raDiff), Abs(decDiff)) > 0
    ensures var larger := MaxInt(Abs(raDiff), Abs(decDiff));
            m.ra == Rate(speed, raDiff, larger) && m.dec == Rate(speed, decDiff, larger)
  {
    var absRa, absDec := Abs(raDiff), Abs(decDiff);
    var larger := MaxInt(absRa, absDec);
    var raFactor := if absRa < absDec then absRa as real / absDec as real else 1.0;
    var decFactor := if absRa < absDec then 1.0 else absDec as real / absRa as real;
    FactorSign(raDiff, larger);
    FactorSign(decDiff, larger);
    DivSelf(larger as real);
    Associate(speed as real, raFactor, Sign(raDiff));
    Associate(speed as real, decFactor, Sign(decDiff));
    Motor(speed as real * raFactor * Sign(raDiff), speed as real * decFactor * Sign(decDiff))
  }

  /** The rate an axis gets: the peak speed scaled by its difference
      relative to the larger difference. */
  function Rate(speed: int, diff: int, larger: int): real
    requires larger > 0
  {
    speed as real * (diff as real / larger as real)
  }

  lemma DivSelf(x: real)
    requires x != 0.0
    ensures x / x == 1.0
  {
  }

  /** `slew_timer_callback`, given the current RA and DEC readings. RA
      difference is `current - target` round the circle; DEC difference is
      `target - current`. */
  function Tick(s: SlewState, ra: int, dec: int, day: int): (r: (SlewState, Effects))
    requires ValidDay(day) && RaInRange(ra, day) && Valid(s)
  {
    var raDiff := ShortestRaDiff(s.raTarget, ra, day);
    var decDiff := s.decTarget - dec;
    if WithinTolerance(raDiff, decDiff) then
      (s.(slewing := false), Effects(Motor(0.0, 0.0), NoTimerAction))
    else
      Drive(s, raDiff, decDiff)
  }

  /** The moving half of the tick, for differences not both within
      tolerance: the time-to-go estimate at the current peak speed, the
      back-off, the rates and the re-armed timer. The axis with the larger
      difference is driven at the (backed-off) peak speed, the other in
      proportion to its difference, each in the sign of its difference. */
  function Drive(s: SlewState, raDiff: int, decDiff: int): (r: (SlewState, Effects))
    requires Valid(s) && !WithinTolerance(raDiff, decDiff)
    ensures var larger := MaxInt(Abs(raDiff), Abs(decDiff));
            && larger >= ToleranceMillis
            && r.1.motor.ra == Rate(r.0.speed, raDiff, larger)
            && r.1.motor.dec == Rate(r.0.speed, decDiff, larger)
    ensures r.1.timer == StartOnce(r.0.checkInterval * 1000)
    ensures Valid(r.0) && r.0.slewing == s.slewing
    ensures r.0.raTarget == s.raTarget && r.0.decTarget == s.decTarget
    ensures r.0.speed <= s.speed && r.0.checkInterval <= s.checkInterval
    ensures r.0.timeToGo >= 4 * r.0.checkInterval
            || (r.0.checkInterval == MinCheckIntervalMillis && r.0.speed == MinSpeed)
    // estimate, interval and speed are the back-off of the larger difference
    // at the current peak speed; nothing else in the state changes
    ensures (r.0.timeToGo, r.0.checkInterval, r.0.speed)
            == BackOff(MaxInt(Abs(raDiff), Abs(decDiff)) / s.speed, s.checkInterval, s.speed)
    ensures r.0.(speed := s.speed, checkInterval := s.checkInterval, timeToGo := s.timeToGo) == s
  {
    var absRa, absDec := Abs(raDiff), Abs(decDiff);
    var estimate := if absRa < absDec then absDec / s.speed else absRa / s.speed;
    var b := BackOff(estimate, s.checkInterval, s.speed);
    var m := Apportion(b.2, raDiff, decDiff);
    (s.(speed := b.2, checkInterval := b.1, timeToGo := b.0), Effects(m, StartOnce(b.1 * 1000)))
  }

  /** Terminal tick: both differences under tolerance. Slewing stops, both
      rates go to zero, the timer is not restarted and nothing else
      changes; ticking again with the same readings changes nothing more. */
  lemma TickTerminal(s: SlewState, ra: int, dec: int, day: int)
    requires ValidDay(day) && RaInRange(ra, day) && Valid(s)
    requires WithinTolerance(ShortestRaDiff(s.raTarget, ra, day), s.decTarget - dec)
    ensures Tick(s, ra, dec, day) == (s.(slewing := false), Effects(Motor(0.0, 0.0), NoTimerAction))
    ensures Tick(Tick(s, ra, dec, day).0, ra, dec, day) == Tick(s, ra, dec, day)
  {
  }

  /** Non-terminal tick: the rates follow the differences as `Drive`
      states, the timer is re-armed at the new interval, and speed and
      interval never grow. */
  lemma TickMoves(s: SlewState, ra: int, dec: int, day: int)
    requires ValidDay(day) && RaInRange(ra, day) && Valid(s)
    requires !WithinTolerance(ShortestRaDiff(s.raTarget, ra, day), s.decTarget - dec)
    ensures var r := Tick(s, ra, dec, day);
            var raDiff := ShortestRaDiff(s.raTarget, ra, day);
            var larger := MaxInt(Abs(raDiff), Abs(s.decTarget - dec));
            && r.1.motor.ra == Rate(r.0.speed, raDiff, larger)
            && r.1.motor.dec == Rate(r.0.speed, s.decTarget - dec, larger)
            && r.1.timer == StartOnce(r.0.checkInterval * 1000)
            && Valid(r.0) && r.0.slewing == s.slewing
            && r.0.speed <= s.speed && r.0.checkInterval <= s.checkInterval
  {
    var r := Drive(s, ShortestRaDiff(s.raTarget, ra, day), s.decTarget - dec);
    assert Tick(s, ra, dec, day) == r;
  }

  /** The proportional factor times the direction sign is the signed
      difference over the larger one. */
  lemma FactorSign(diff: int, larger: int)
    requires larger > 0 && Abs(diff) <= larger
    ensures (Abs(diff) as real / larger as real) * Sign(diff) == diff as real / larger as real
    ensures Abs(diff) == larger ==> Sign(diff) == diff as real / larger as real
  {
  }

  lemma Associate(a: real, b: real, c: real)
    ensures a * b * c == a * (b * c)
  {
  }

  /** `slew_to_coordinates`: record start and target, set slewing, reset
      the peak speed to 16 and the interval to 1000 ms, then tick once. */
  function SlewTo(s: SlewState, raTarget: int, decTarget: int, ra: int, dec: int, day: int): (r: (SlewState, Effects))
    requires ValidDay(day) && RaInRange(ra, day) && IsInt32(raTarget)
    ensures Valid(r.0)
    ensures r.0.raTarget == raTarget && r.0.decTarget == decTarget
    ensures r.0.raStart == ra && r.0.decStart == dec
    // a slew to a target already within tolerance ends at once
    ensures IsSlewing(r.0) <==> !WithinTolerance(ShortestRaDiff(raTarget, ra, day), decTarget - dec)
    // then it stops both axes, starts no timer, and leaves the reset peak
    // speed and interval in place
    ensures WithinTolerance(ShortestRaDiff(raTarget, ra, day), decTarget - dec) ==>
              && r.0.speed == MaxSpeed && r.0.checkInterval == CheckIntervalMillis
              && r.0.timeToGo == s.timeToGo
              && r.1 == Effects(Motor(0.0, 0.0), NoTimerAction)
    // otherwise the first tick backs off from speed 16 and 1000 ms, drives
    // both axes in proportion and arms the timer
    ensures var raDiff, decDiff := ShortestRaDiff(raTarget, ra, day), decTarget - dec;
            var larger := MaxInt(Abs(raDiff), Abs(decDiff));
            !WithinTolerance(raDiff, decDiff) ==>
              && (r.0.timeToGo, r.0.checkInterval, r.0.speed) == BackOff(larger / MaxSpeed, CheckIntervalMillis, MaxSpeed)
              && r.1.motor.ra == Rate(r.0.speed, raDiff, larger)
              && r.1.motor.dec == Rate(r.0.speed, decDiff, larger)
              && r.1.timer == StartOnce(r.0.checkInterval * 1000)
  {
    var started := s.(slewing := true, raStart := ra, decStart := dec,
                      raTarget := raTarget, decTarget := decTarget,
                      speed := MaxSpeed, checkInterval := CheckIntervalMillis);
    TicksOnlySlowDown(started, ra, dec, day);
    Tick(started, ra, dec, day)
  }

  /** A slew forgets the speed, interval and slewing flag it starts from;
      a slew that moves forgets the old estimate too. */
  lemma SlewToForgets(s: SlewState, s2: SlewState, raTarget: int, decTarget: int, ra: int, dec: int, day: int)
    requires ValidDay(day) && RaInRange(ra, day) && IsInt32(raTarget)
    ensures s.timeToGo == s2.timeToGo ==>
              SlewTo(s, raTarget, decTarget, ra, dec, day) == SlewTo(s2, raTarget, decTarget, ra, dec, day)
    ensures !WithinTolerance(ShortestRaDiff(raTarget, ra, day), decTarget - dec) ==>
              SlewTo(s, raTarget, decTarget, ra, dec, day) == SlewTo(s2, raTarget, decTarget, ra, dec, day)
  {
  }

  /** `abort_slew`, from any state: rates to zero, timer stopped, idle. */
  function Abort(s: SlewState): (r: (SlewState, Effects))
    ensures !IsSlewing(r.0)
    ensures r.1 == Effects(Motor(0.0, 0.0), StopTimer)
    ensures r.0.(slewing := s.slewing) == s
  {
    (s.(slewing := false), Effects(Motor(0.0, 0.0), StopTimer))
  }

  function IsSlewing(s: SlewState): bool { s.slewing }

  /** A tick keeps speed and interval on their ladders and never raises
      either (only `SlewTo` resets them), keeps the target, and stops the
      slew exactly when both differences are within tolerance. */
  lemma TicksOnlySlowDown(s: SlewState, ra: int, dec: int, day: int)
    requires ValidDay(day) && RaInRange(ra, day) && Valid(s)
    ensures var s' := Tick(s, ra, dec, day).0;
            Valid(s') && s'.speed <= s.speed && s'.checkInterval <= s.checkInterval
            && s'.raTarget == s.raTarget && s'.decTarget == s.decTarget
            && (s'.slewing <==> s.slewing && !WithinTolerance(ShortestRaDiff(s.raTarget, ra, day), s.decTarget - dec))
  {
    if !WithinTolerance(ShortestRaDiff(s.raTarget, ra, day), s.decTarget - dec) {
      TickMoves(s, ra, dec, day);
    }
  }

  /** The worked example of a target just behind the wrap point: from RA 0
      to `day - 100` is a path of length 100 the negative way round, which
      in the source's sign convention (current minus target) is +100. */
  lemma NearWrapExample(day: int)
    requires ValidDay(day) && day > 200
    ensures ShortestRaDiff(day - 100, 0, day) == 100
  {
    ModOfDecomposition(-1, 100, day);
    assert (0 - (day - 100)) % day == 100;
  }

  /** `q * day + m` leaves remainder `m` when `0 <= m < day`. */
  lemma ModOfDecomposition(q: int, m: int, day: int)
    requires 0 <= m < day
    ensures (q * day + m) % day == m
  {
    var x := q * day + m;
    var p := x / day;
    assert x == p * day + x % day;
    assert (q - p) * day == x % day - m;
    SmallMultipleIsZero(q - p, day);
  }
}
