/** The focuser stepper of main/focuser.c: a four-coil stepper motor driven
    in half steps from an eight-row phase table, one step per period of a
    periodic timer, toward a clamped target position.

    `maxSteps` is `MAX_STEPS` and `intervalMicros` is
    `STEP_INTERVAL_MICROSECONDS`, both derived from build configuration; they
    are parameters here. The four GPIO output levels and the timer are part
    of the state. */
module Focuser {
  import CInt

  /** The focuser's timer: stopped, or firing every `micros` microseconds. */
  datatype Timer = Stopped | Periodic(micros: int)

  /** The levels written to the four lines IN1..IN4. */
  datatype Coils = Coils(in1: bool, in2: bool, in3: bool, in4: bool)

  /** `coils` holds the levels last written to the four lines. */
  datatype Focuser = Focuser(step: int, target: int, moving: bool, coils: Coils, timer: Timer)

  /** All four lines low. */
  const Released: Coils := Coils(false, false, false, false)

  /** `focuser_step_config`: the half-step sequence, alternating one and two
      energised coils. */
  const PhaseTable: seq<Coils> := [
    Coils(true, false, false, false),
    Coils(true, true, false, false),
    Coils(false, true, false, false),
    Coils(false, true, true, false),
    Coils(false, false, true, false),
    Coils(false, false, true, true),
    Coils(false, false, false, true),
    Coils(true, false, false, true)
  ]

  function Bit(b: bool): nat { if b then 1 else 0 }

  /** The number of lines on which two coil patterns differ. */
  function Differences(a: Coils, b: Coils): (n: nat)
    ensures n <= 4
    ensures n == 0 <==> a == b
  {
    Bit(a.in1 != b.in1) + Bit(a.in2 != b.in2) + Bit(a.in3 != b.in3) + Bit(a.in4 != b.in4)
  }

  /** The number of energised coils in a pattern. */
  function Energised(a: Coils): (n: nat)
    ensures n <= 4
    ensures n == 0 <==> a == Released
  {
    Bit(a.in1) + Bit(a.in2) + Bit(a.in3) + Bit(a.in4)
  }

  /** Cyclically neighbouring rows, including row 7 and row 0, differ on
      exactly one line, so each table step is a half step; even rows
      energise one coil and odd rows two. */
  lemma PhaseTableIsHalfStepping(i: int)
    requires 0 <= i < 8
    ensures |PhaseTable| == 8
    ensures Differences(PhaseTable[i], PhaseTable[(i + 1) % 8]) == 1
    ensures Energised(PhaseTable[i]) == if i % 2 == 0 then 1 else 2
  {
  }

  /** The table row for a step position, taken modulo 8 with a non-negative
      result, so that the sequence continues across zero. */
  function PhaseIndex(step: int): (i: int)
    ensures 0 <= i < 8
    ensures (step - i) % 8 == 0
  {
    step % 8
  }

  /** The row index as the source computes it: C's `%`, whose result takes
      the sign of the step. */
  function PhaseIndexAsWritten(step: int): (i: int)
    ensures step >= 0 ==> 0 <= i < 8
    ensures step < 0 ==> -8 < i <= 0
    // it names the same residue as the corrected index ...
    ensures (step - i) % 8 == 0
    // ... but for a negative position off a multiple of eight it is that
    // index less eight, which is no row of the table
    ensures step < 0 && PhaseIndex(step) != 0 ==> i == PhaseIndex(step) - 8
    ensures PhaseIndex(step) == 0 ==> i == 0
  {
    CInt.CRem(step, 8)
  }

  /** Moving one step forward moves one row forward in the table, cyclically,
      and one step back one row back; the written index agrees with the
      corrected one wherever the step is not negative. */
  lemma PhaseIndexSteps(step: int)
    ensures PhaseIndex(step + 1) == (PhaseIndex(step) + 1) % 8
    ensures PhaseIndex(step - 1) == (PhaseIndex(step) + 7) % 8
    ensures step >= 0 ==> PhaseIndexAsWritten(step) == PhaseIndex(step)
  {
    var q, i := step / 8, step % 8;
    assert step == 8 * q + i;
    if i == 7 {
      RemainderOfEight(q + 1, 0);
    } else {
      RemainderOfEight(q, i + 1);
    }
    if i == 0 {
      RemainderOfEight(q - 1, 7);
    } else {
      RemainderOfEight(q, i - 1);
    }
  }

  lemma RemainderOfEight(q: int, m: int)
    requires 0 <= m < 8
    ensures (8 * q + m) % 8 == m
  {
  }

  /** `focuser_init`: at zero, not moving, all lines low, timer created but
      not running. */
  function Init(): (f: Focuser)
    ensures f.step == 0 && f.target == 0 && !f.moving
    ensures f.coils == Released && f.timer == Stopped
  {
    Focuser(0, 0, false, Released, Stopped)
  }

  function Clamp(x: int, bound: int): (r: int)
    requires bound >= 0
    ensures -bound <= r <= bound
    ensures -bound <= x <= bound ==> r == x
    ensures x > bound ==> r == bound
    ensures x < -bound ==> r == -bound
  {
    if x > bound then bound else if x < -bound then -bound else x
  }

  /** Both the position and the target lie within `maxSteps` of zero. */
  predicate Bounded(f: Focuser, maxSteps: int)
  {
    -maxSteps <= f.step <= maxSteps && -maxSteps <= f.target <= maxSteps
  }

  /** `focuser_move`: the relative move is limited to `maxSteps` either way,
      added to the current target, and the result limited again; then the
      focuser is marked moving and the periodic step timer is started. */
  function Move(f: Focuser, steps: int, maxSteps: int, intervalMicros: int): (r: Focuser)
    requires maxSteps >= 0
    // the new target always lies within the travel
    ensures -maxSteps <= r.target <= maxSteps
    // a move that fits is taken exactly
    ensures -maxSteps <= steps <= maxSteps && -maxSteps <= f.target + steps <= maxSteps
            ==> r.target == f.target + steps
    // from a target within travel, the target moves in the commanded
    // direction and no further than commanded
    ensures -maxSteps <= f.target <= maxSteps && steps >= 0 ==> f.target <= r.target <= f.target + steps
    ensures -maxSteps <= f.target <= maxSteps && steps <= 0 ==> f.target + steps <= r.target <= f.target
    // otherwise the move saturates: a request beyond `maxSteps` either way
    // counts as `maxSteps`, and a target beyond the travel stops at its end
    ensures var d := if steps > maxSteps then maxSteps else if steps < -maxSteps then -maxSteps else steps;
            && (f.target + d >= maxSteps ==> r.target == maxSteps)
            && (f.target + d <= -maxSteps ==> r.target == -maxSteps)
            && (-maxSteps <= f.target + d <= maxSteps ==> r.target == f.target + d)
    ensures r.moving && r.timer == Periodic(intervalMicros)
    ensures r.step == f.step && r.coils == f.coils
  {
    var target := Clamp(f.target + Clamp(steps, maxSteps), maxSteps);
    f.(target := target, moving := true, timer := Periodic(intervalMicros))
  }

  /** `focuser_timer_listener`: one step toward the target, energising the
      coils from the table row of the new position (the wrapped row, which
      the source's index misses below zero); at the target, all lines
      go low, the focuser stops moving and the timer is stopped. */
  function Tick(f: Focuser): (r: Focuser)
    // away from the target: exactly one unit closer, target kept
    ensures f.step != f.target ==> r.target == f.target && r.step - f.step == (if f.step < f.target then 1 else -1)
    ensures f.step != f.target ==> r.coils == PhaseTable[PhaseIndex(r.step)]
    // for a position that is not negative that is the row the source's own
    // index picks; below zero the model takes the wrapped row instead
    ensures f.step != f.target && r.step >= 0 ==> r.coils == PhaseTable[PhaseIndexAsWritten(r.step)]
    ensures f.step != f.target ==> r.moving == f.moving && r.timer == f.timer
    // at the target: position kept, released and stopped
    ensures f.step == f.target ==> r == f.(moving := false, coils := Released, timer := Stopped)
  {
    if f.step > f.target then
      var step := f.step - 1;
      f.(step := step, coils := PhaseTable[PhaseIndex(step)])
    else if f.step < f.target then
      var step := f.step + 1;
      f.(step := step, coils := PhaseTable[PhaseIndex(step)])
    else
      f.(moving := false, coils := Released, timer := Stopped)
  }

  /** `focuser_abort_move`: stop where the focuser is. */
  function Abort(f: Focuser): (r: Focuser)
    ensures r.target == r.step == f.step
    ensures !r.moving && r.timer == Stopped
    ensures r.coils == f.coils
  {
    f.(moving := false, timer := Stopped, target := f.step)
  }

  /** After an abort the next tick (if one is still delivered) only
      releases the coils: the focuser does not move again. */
  lemma AbortThenTick(f: Focuser)
    ensures Tick(Abort(f)).step == f.step
    ensures Tick(Abort(f)).coils == Released && !Tick(Abort(f)).moving
  {
  }

  /** Every operation keeps the position and the target within travel. */
  lemma BoundedPreserved(f: Focuser, steps: int, maxSteps: int, intervalMicros: int)
    requires maxSteps >= 0 && Bounded(f, maxSteps)
    ensures Bounded(Move(f, steps, maxSteps, intervalMicros), maxSteps)
    ensures Bounded(Tick(f), maxSteps)
    ensures Bounded(Abort(f), maxSteps)
    ensures Bounded(Init(), maxSteps)
  {
  }

  /** A focuser whose lines show the table row of its position. */
  predicate Coherent(f: Focuser)
  {
    f.coils == PhaseTable[PhaseIndex(f.step)]
  }

  /** From a coherent state, a moving tick changes exactly one line and
      leaves the state coherent. */
  lemma TickChangesOneCoil(f: Focuser)
    requires Coherent(f) && f.step != f.target
    ensures Coherent(Tick(f))
    ensures Differences(f.coils, Tick(f).coils) == 1
  {
    if f.step < f.target {
      StepForwardChangesOneCoil(f.step);
    } else {
      StepBackChangesOneCoil(f.step);
    }
  }

  lemma DifferencesSymmetric(a: Coils, b: Coils)
    ensures Differences(a, b) == Differences(b, a)
  {
  }

  /** Moving one step up the table changes exactly one coil. */
  lemma StepForwardChangesOneCoil(step: int)
    ensures Differences(PhaseTable[PhaseIndex(step)], PhaseTable[PhaseIndex(step + 1)]) == 1
  {
    var i := PhaseIndex(step);
    PhaseIndexSteps(step);
    PhaseTableIsHalfStepping(i);
  }

  /** Moving one step down the table changes exactly one coil. */
  lemma StepBackChangesOneCoil(step: int)
    ensures Differences(PhaseTable[PhaseIndex(step)], PhaseTable[PhaseIndex(step - 1)]) == 1
  {
    var i := PhaseIndex(step);
    PhaseIndexSteps(step);
    var k := if i == 0 then 7 else i - 1;
    assert PhaseIndex(step - 1) == k;
    assert (k + 1) % 8 == i;
    PhaseTableIsHalfStepping(k);
    DifferencesSymmetric(PhaseTable[k], PhaseTable[i]);
  }

  /** `n` timer periods. */
  function Iterate(f: Focuser, n: nat): Focuser
    decreases n
  {
    if n == 0 then f else Iterate(Tick(f), n - 1)
  }

  function Distance(f: Focuser): nat
  {
    if f.step <= f.target then f.target - f.step else f.step - f.target
  }

  /** The first `k` ticks, while the target has not been reached, each take
      one step toward it, keep the target, and leave the focuser moving with
      the timer running. */
  lemma {:induction false} TicksApproach(f: Focuser, k: nat)
    requires k <= Distance(f)
    ensures Iterate(f, k).target == f.target
    ensures Distance(Iterate(f, k)) == Distance(f) - k
    ensures f.step <= f.target ==> Iterate(f, k).step == f.step + k
    ensures f.step > f.target ==> Iterate(f, k).step == f.step - k
    ensures Iterate(f, k).moving == f.moving && Iterate(f, k).timer == f.timer
    decreases k
  {
    if k > 0 {
      TicksApproach(Tick(f), k - 1);
    }
  }

  /** A move completes after exactly `Distance + 1` ticks: `Distance` steps
      to reach the target, then one tick that finds it reached and stops.
      Every earlier tick leaves the timer running. */
  lemma TicksToStop(f: Focuser)
    requires f.moving && f.timer.Periodic?
    ensures var n := Distance(f);
            && Iterate(f, n).step == f.target
            && Iterate(f, n).moving && Iterate(f, n).timer == f.timer
            && Iterate(f, n + 1) == Iterate(f, n).(moving := false, coils := Released, timer := Stopped)
  {
    var n := Distance(f);
    TicksApproach(f, n);
    IterateLast(f, n);
  }

  /** One more tick after `n` is a tick of the `n`-th state. */
  lemma {:induction false} IterateLast(f: Focuser, n: nat)
    ensures Iterate(f, n + 1) == Tick(Iterate(f, n))
    decreases n
  {
    if n > 0 {
      IterateLast(Tick(f), n - 1);
    }
  }

  /** The new target is the point of the travel nearest to the old target
      plus the limited move. */
  lemma MoveNearest(f: Focuser, steps: int, maxSteps: int, intervalMicros: int, t: int)
    requires maxSteps >= 0 && -maxSteps <= t <= maxSteps
    ensures var d := if steps > maxSteps then maxSteps else if steps < -maxSteps then -maxSteps else steps;
            CInt.Abs(Move(f, steps, maxSteps, intervalMicros).target - (f.target + d)) <= CInt.Abs(t - (f.target + d))
  {
  }

  /** Two saturating moves: a request larger than the travel is cut to the
      travel, and the sum is then cut again at the end of the travel. */
  lemma MoveSaturates(intervalMicros: int)
    ensures Move(Init(), 5, 3, intervalMicros).target == 3
    ensures Move(Init().(target := -3), 9, 3, intervalMicros).target == 0
    ensures Move(Init().(target := 2), -9, 3, intervalMicros).target == -1
    ensures Move(Init().(target := 7), 1, 3, intervalMicros).target == 3
  {
  }

  /** Moving 5 steps out from rest: five ticks reach positions 1 to 5, and
      the sixth tick releases the coils and stops the timer. */
  lemma MoveFiveFromRest(maxSteps: int, intervalMicros: int)
    requires maxSteps >= 5
    ensures var f := Move(Init(), 5, maxSteps, intervalMicros);
            && Iterate(f, 5).step == 5 && Iterate(f, 5).moving
            && Iterate(f, 5).coils == PhaseTable[5]
            && !Iterate(f, 6).moving && Iterate(f, 6).timer == Stopped
  {
    var f := Move(Init(), 5, maxSteps, intervalMicros);
    TicksToStop(f);
    IterateLast(f, 4);
    TicksApproach(f, 4);
  }

  /** The defect: moving one step in from rest and ticking once reaches
      position -1, where the source's index is -1, outside the table's rows
      0..7. The corrected index selects row 7, the row before row 0. */
  lemma NegativeIndexReachable(maxSteps: int, intervalMicros: int)
    requires maxSteps >= 1
    ensures var f := Tick(Move(Init(), -1, maxSteps, intervalMicros));
            && f.step == -1
            && PhaseIndexAsWritten(f.step) == -1
            && PhaseIndex(f.step) == 7 && f.coils == PhaseTable[7]
  {
  }
}
