/** Closed-loop position tracking of main/mount_encoder.c: each axis has a
    quadrature counter and a backlash compensator that turns raw encoder
    pulses into "actual" pulses.

    After the encoder reports a direction reversal, the compensator is
    "clearing": actual pulses stay put until the raw count has travelled the
    configured backlash `b` past an anchor, and then catch up in one step by
    whatever the raw count overshot. A reversal during a clear re-bases the
    anchor by `b`, so that the new clear completes where the interrupted one
    started. The RA and DEC handlers are the same code with different
    constants, so there is one machine here, parametrised by `b`. */
module MountEncoder {
  import opened RotaryEncoder
  import CInt

  /** `ra_is_clearing_backlash`: 0, +1 or -1 in the source. */
  datatype Clearing = NotClearing | ClearingPositive | ClearingNegative

  /** `anchor` is `ra_backlash_pulses`; `actual` is `ra_actual_pulses`. */
  datatype Backlash = Backlash(clearing: Clearing, anchor: int, actual: int)

  function ClearingToward(direction: bool): Clearing
  {
    if direction then ClearingPositive else ClearingNegative
  }

  /** The raw count at which the current clear completes. */
  function Threshold(s: Backlash, b: nat): int
    requires s.clearing != NotClearing
  {
    if s.clearing == ClearingPositive then s.anchor + b else s.anchor - b
  }

  /** Whether raw count `pul` has reached the threshold of the current clear
      (from below when clearing forward, from above when clearing back). */
  predicate Reached(s: Backlash, pul: int, b: nat)
    requires s.clearing != NotClearing
  {
    if s.clearing == ClearingPositive then pul >= Threshold(s, b) else pul <= Threshold(s, b)
  }

  /** The direction callback: the encoder saw a reversal to `direction`,
      and `raw` is the raw count it still holds. */
  function OnDirection(s: Backlash, direction: bool, raw: int, b: nat): (r: Backlash)
    ensures r.actual == s.actual
    ensures r.clearing == ClearingToward(direction)
    // from rest: start clearing toward the new direction, anchored at the raw count
    ensures s.clearing == NotClearing ==> r.anchor == raw
    // a reversal to the direction already being cleared changes nothing
    ensures s.clearing == ClearingToward(direction) ==> r == s
    // mid-clear reversal: the new clear completes where the interrupted one began
    ensures s.clearing == ClearingToward(!direction) ==> Threshold(r, b) == s.anchor
  {
    match s.clearing
    case NotClearing => s.(clearing := ClearingToward(direction), anchor := raw)
    case ClearingPositive =>
      if direction then s else s.(clearing := ClearingNegative, anchor := s.anchor + b)
    case ClearingNegative =>
      if direction then s.(clearing := ClearingPositive, anchor := s.anchor - b) else s
  }

  /** The count callback: the raw count is becoming `pul` by a unit step `diff`. */
  function OnPulse(s: Backlash, pul: int, diff: int, b: nat): (r: Backlash)
    ensures r.anchor == s.anchor
    // not clearing: actual pulses follow the unit step
    ensures s.clearing == NotClearing ==> r == s.(actual := s.actual + diff)
    // clearing ends exactly when the raw count reaches the threshold
    ensures s.clearing != NotClearing ==> (r.clearing == NotClearing <==> Reached(s, pul, b))
    ensures s.clearing != NotClearing && !Reached(s, pul, b) ==> r == s
    // and then actual pulses catch up by the overshoot in one step
    ensures s.clearing != NotClearing && Reached(s, pul, b) ==>
              r.actual == s.actual + (pul - Threshold(s, b))
  {
    match s.clearing
    case NotClearing => s.(actual := s.actual + diff)
    case ClearingPositive =>
      if pul >= s.anchor + b
      then s.(clearing := NotClearing, actual := s.actual + (pul - s.anchor - b))
      else s
    case ClearingNegative =>
      if pul <= s.anchor - b
      then s.(clearing := NotClearing, actual := s.actual + (pul - s.anchor + b))
      else s
  }

  /** One axis: its counter and its compensator. */
  datatype Axis = Axis(encoder: Encoder, backlash: Backlash)

  /** The encoder was started with both callbacks, as `init_mount` does. */
  predicate Wired(ax: Axis)
  {
    ax.encoder.hasDirectionCallback && ax.encoder.hasCountCallback
  }

  /** One sensor edge with the line levels the handler reads. */
  datatype Edge = Edge(pin: Pin, levelA: bool, levelB: bool)

  /** Deliver the callbacks of one interrupt to the compensator, in order.
      A direction call reads the raw count through `get_*_pulses_raw`, which
      is the count still stored in the encoder at that moment. */
  function Deliver(s: Backlash, calls: seq<Call>, b: nat): Backlash
    decreases |calls|
  {
    if |calls| == 0 then s
    else
      var next := match calls[0]
        case DirectionCall(d, observed) => OnDirection(s, d, observed.count, b)
        case CountCall(pul, diff, _) => OnPulse(s, pul, diff, b);
      Deliver(next, calls[1..], b)
  }

  /** The sensor interrupt of one axis, with its callbacks run. */
  function AxisInterrupt(ax: Axis, edge: Edge, b: nat): Axis
  {
    var (encoder, calls) := Interrupt(ax.encoder, edge.pin, edge.levelA, edge.levelB);
    Axis(encoder, Deliver(ax.backlash, calls, b))
  }

  /** A sequence of interrupts. */
  function Run(ax: Axis, edges: seq<Edge>, b: nat): Axis
    decreases |edges|
  {
    if |edges| == 0 then ax else Run(AxisInterrupt(ax, edges[0], b), edges[1..], b)
  }

  /** An edge that does not turn the encoder away from `direction`. */
  predicate Keeps(edge: Edge, direction: bool)
  {
    !(edge.pin == PinA && edge.levelA) || edge.levelB == direction
  }

  function Max0(x: int): nat { if x > 0 then x else 0 }

  /** The state after `j` unit pulses toward `d` since a clear toward `d`
      anchored at `c0` began, with `a0` actual pulses when it began. */
  ghost predicate Progress(ax: Axis, d: bool, b: nat, c0: int, a0: int, j: nat)
  {
    && Wired(ax) && ax.encoder.working && ax.encoder.direction == d
    && ax.encoder.count == c0 + j * Step(d)
    && (if j < b
        then ax.backlash == Backlash(ClearingToward(d), c0, a0)
        else ax.backlash.clearing == NotClearing && ax.backlash.actual == a0 + (j - b) * Step(d))
  }

  /** One more non-reversing edge advances the progress by one pulse. */
  lemma ProgressStep(ax: Axis, edge: Edge, d: bool, b: nat, c0: int, a0: int, j: nat)
    requires Progress(ax, d, b, c0, a0, j)
    requires Keeps(edge, d)
    ensures Progress(AxisInterrupt(ax, edge, b), d, b, c0, a0, j + 1)
  {
    var (encoder, calls) := Interrupt(ax.encoder, edge.pin, edge.levelA, edge.levelB);
    assert calls == [CountCall(encoder.count, Step(d), ax.encoder.(direction := d))];
    assert Deliver(ax.backlash, calls, b) == OnPulse(ax.backlash, encoder.count, Step(d), b);
  }

  /** Any number of non-reversing edges. */
  lemma {:induction false} ProgressRun(ax: Axis, edges: seq<Edge>, d: bool, b: nat, c0: int, a0: int, j: nat)
    requires Progress(ax, d, b, c0, a0, j)
    requires forall i :: 0 <= i < |edges| ==> Keeps(edges[i], d)
    ensures Progress(Run(ax, edges, b), d, b, c0, a0, j + |edges|)
    decreases |edges|
  {
    if |edges| > 0 {
      ProgressStep(ax, edges[0], d, b, c0, a0, j);
      ProgressRun(AxisInterrupt(ax, edges[0], b), edges[1..], d, b, c0, a0, j + 1);
    }
  }

  /** The reversing edge itself: a rising edge of A with B at the new level. */
  function Reversal(d: bool): Edge { Edge(PinA, true, d) }

  /** From rest, the reversing edge starts a clear anchored at the raw count
      before the edge and counts as its first pulse. */
  lemma ReversalFromRestStep(ax: Axis, d: bool, b: nat)
    requires Wired(ax) && ax.encoder.working
    requires ax.encoder.direction == !d && ax.backlash.clearing == NotClearing
    ensures Progress(AxisInterrupt(ax, Reversal(d), b), d, b, ax.encoder.count, ax.backlash.actual, 1)
  {
    var (encoder, calls) := Interrupt(ax.encoder, PinA, true, d);
    assert calls == [DirectionCall(d, ax.encoder), CountCall(encoder.count, Step(d), ax.encoder.(direction := d))];
    var s1 := OnDirection(ax.backlash, d, ax.encoder.count, b);
    assert Deliver(ax.backlash, calls, b) == Deliver(s1, calls[1..], b);
    assert Deliver(s1, calls[1..], b) == OnPulse(s1, encoder.count, Step(d), b);
  }

  /** The end-to-end law of reversal from rest: after a reversal and `n`
      pulses in all (the reversing edge included), the raw count moved `n`
      units and the actual count moved `max(0, n - b)` units, toward the new
      direction; the clear is over exactly when `n >= b`. */
  lemma ReversalFromRest(ax: Axis, d: bool, b: nat, rest: seq<Edge>)
    requires Wired(ax) && ax.encoder.working
    requires ax.encoder.direction == !d && ax.backlash.clearing == NotClearing
    requires forall i :: 0 <= i < |rest| ==> Keeps(rest[i], d)
    ensures var n := |rest| + 1;
            var r := Run(ax, [Reversal(d)] + rest, b);
            && r.encoder.count == ax.encoder.count + n * Step(d)
            && r.backlash.actual == ax.backlash.actual + Max0(n - b) * Step(d)
            && (r.backlash.clearing == NotClearing <==> n >= b)
  {
    var edges := [Reversal(d)] + rest;
    var ax1 := AxisInterrupt(ax, Reversal(d), b);
    ReversalFromRestStep(ax, d, b);
    assert edges[1..] == rest;
    ProgressRun(ax1, rest, d, b, ax.encoder.count, ax.backlash.actual, 1);
  }

  /** A reversal `k` pulses into a clear re-bases the anchor: the reversing
      edge leaves the machine `b - k + 1` pulses into a clear toward the new
      direction whose threshold is the interrupted clear's anchor. */
  lemma ReversalMidClearStep(ax: Axis, d: bool, b: nat, k: nat)
    requires Wired(ax) && ax.encoder.working
    requires ax.encoder.direction == !d && ax.backlash.clearing == ClearingToward(!d)
    requires k < b && ax.encoder.count == ax.backlash.anchor + k * Step(!d)
    ensures Progress(AxisInterrupt(ax, Reversal(d), b), d, b,
                     ax.backlash.anchor - b * Step(d), ax.backlash.actual, b - k + 1)
  {
    var (encoder, calls) := Interrupt(ax.encoder, PinA, true, d);
    assert calls == [DirectionCall(d, ax.encoder), CountCall(encoder.count, Step(d), ax.encoder.(direction := d))];
    var s1 := OnDirection(ax.backlash, d, ax.encoder.count, b);
    assert s1.anchor == ax.backlash.anchor - b * Step(d);
    assert Deliver(ax.backlash, calls, b) == Deliver(s1, calls[1..], b);
    assert Deliver(s1, calls[1..], b) == OnPulse(s1, encoder.count, Step(d), b);
  }

  /** Reversal in the middle of a clear: if the raw count had gone `k < b`
      pulses into a clear when the encoder turns back, exactly `k` pulses in
      the new direction (the reversing edge included) complete the new
      clear, and pulses beyond those count one for one. Nothing of the
      partial clear is lost or counted twice; it does not take `b` plus the
      remainder. */
  lemma ReversalMidClear(ax: Axis, d: bool, b: nat, k: nat, rest: seq<Edge>)
    requires Wired(ax) && ax.encoder.working
    requires ax.encoder.direction == !d && ax.backlash.clearing == ClearingToward(!d)
    requires k < b && ax.encoder.count == ax.backlash.anchor + k * Step(!d)
    requires forall i :: 0 <= i < |rest| ==> Keeps(rest[i], d)
    ensures var n := |rest| + 1;
            var r := Run(ax, [Reversal(d)] + rest, b);
            && r.encoder.count == ax.backlash.anchor + (n - k) * Step(d)
            && r.backlash.actual == ax.backlash.actual + Max0(n - k) * Step(d)
            && (r.backlash.clearing == NotClearing <==> n >= k)
  {
    var edges := [Reversal(d)] + rest;
    var c0 := ax.backlash.anchor - b * Step(d);
    ReversalMidClearStep(ax, d, b, k);
    assert edges[1..] == rest;
    ProgressRun(AxisInterrupt(ax, Reversal(d), b), rest, d, b, c0, ax.backlash.actual, b - k + 1);
  }

  /** Module state: both axes, the reset epoch and the reset angles. */
  datatype Tracker = Tracker(
    ra: Axis,
    dec: Axis,
    resetTime: int,
    resetRaMillis: int,
    resetDecMillis: int)

  /** `init_mount`: both encoders started with both callbacks, not clearing,
      no actual pulses, reset angles zero and the epoch at `now`. The
      anchors are the zero the C globals start with (`init_mount` runs once
      at boot and does not write them). */
  function InitTracker(now: int): (t: Tracker)
    ensures Wired(t.ra) && Wired(t.dec)
    ensures t.ra.backlash.clearing == NotClearing && t.dec.backlash.clearing == NotClearing
    ensures t.ra.backlash.actual == 0 && t.dec.backlash.actual == 0
    ensures t.ra.encoder.count == 0 && t.dec.encoder.count == 0
    ensures t.ra.encoder.working && t.dec.encoder.working
    ensures t.resetRaMillis == 0 && t.resetDecMillis == 0 && t.resetTime == now
  {
    var axis := Axis(Start(true, true), Backlash(NotClearing, 0, 0));
    Tracker(axis, axis, now, 0, 0)
  }

  /** `set_angles`: restart the epoch at `now`, record the reset angles
      (RA converted from solar to sidereal milli-units by the C cast of
      `ra / raTimeRatio`) and zero both actual counters. Encoders, clearing
      flags and anchors are left alone. */
  function SetAngles(t: Tracker, now: int, raDayMillis: int, decMillis: int, raTimeRatio: real): (r: Tracker)
    requires raTimeRatio > 0.0
    ensures r.ra.backlash.actual == 0 && r.dec.backlash.actual == 0
    ensures r.ra.encoder == t.ra.encoder && r.dec.encoder == t.dec.encoder
    ensures r.ra.backlash.clearing == t.ra.backlash.clearing && r.ra.backlash.anchor == t.ra.backlash.anchor
    ensures r.dec.backlash.clearing == t.dec.backlash.clearing && r.dec.backlash.anchor == t.dec.backlash.anchor
    ensures r.resetDecMillis == decMillis && r.resetTime == now
    ensures raTimeRatio >= 1.0 ==> CInt.Abs(r.resetRaMillis) <= CInt.Abs(raDayMillis)
  {
    var sidereal := CInt.Trunc(raDayMillis as real / raTimeRatio);
    TruncShrinks(raDayMillis, raTimeRatio);
    Tracker(
      t.ra.(backlash := t.ra.backlash.(actual := 0)),
      t.dec.(backlash := t.dec.backlash.(actual := 0)),
      now, sidereal, decMillis)
  }

  lemma TruncShrinks(x: int, ratio: real)
    requires ratio > 0.0
    ensures ratio >= 1.0 ==> CInt.Abs(CInt.Trunc(x as real / ratio)) <= CInt.Abs(x)
  {
    if ratio >= 1.0 {
      var q := x as real / ratio;
      if x >= 0 {
        assert q <= x as real by {
          assert q * ratio == x as real;
        }
      } else {
        assert q >= x as real by {
          assert q * ratio == x as real;
        }
      }
    }
  }

  /** RA interrupt, with the RA backlash constant. */
  function RaInterrupt(t: Tracker, edge: Edge, raBacklash: nat): Tracker
  {
    t.(ra := AxisInterrupt(t.ra, edge, raBacklash))
  }

  /** DEC interrupt, with the DEC backlash constant. */
  function DecInterrupt(t: Tracker, edge: Edge, decBacklash: nat): Tracker
  {
    t.(dec := AxisInterrupt(t.dec, edge, decBacklash))
  }

  /** Interrupts of one axis never disturb the other axis or the epoch. */
  lemma AxesIndependent(t: Tracker, edge: Edge, raBacklash: nat, decBacklash: nat)
    ensures RaInterrupt(t, edge, raBacklash).dec == t.dec
    ensures DecInterrupt(t, edge, decBacklash).ra == t.ra
    ensures RaInterrupt(DecInterrupt(t, edge, decBacklash), edge, raBacklash)
         == DecInterrupt(RaInterrupt(t, edge, raBacklash), edge, decBacklash)
  {
  }
}
