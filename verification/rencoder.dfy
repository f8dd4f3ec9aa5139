/** The quadrature counter of main/rencoder.c: two input lines A and B per
    axis, a signed pulse count, a direction flag, and an enable flag.

    An edge on either line is one interrupt. The direction is resampled only
    on a rising edge of A (it becomes the level of B), then the count moves by
    one in the stored direction. The two registered callbacks are not called
    here; instead `Interrupt` returns the calls it would make, in order, each
    with the encoder state the callee can observe at that moment. */
module RotaryEncoder {

  /** Which of the two registered lines fired. */
  datatype Pin = PinA | PinB

  /** `hasDirectionCallback` and `hasCountCallback` say whether the two
      callback pointers passed to `rencoder_start` were non-null. */
  datatype Encoder = Encoder(
    count: int,
    direction: bool,
    working: bool,
    hasDirectionCallback: bool,
    hasCountCallback: bool)

  /** A callback invocation. `observed` is the encoder state as stored when
      the callback runs: a callee reading the counter (as the backlash
      compensator does) sees `observed.count`. */
  datatype Call =
    | DirectionCall(nextDirection: bool, observed: Encoder)
    | CountCall(nextCount: int, difference: int, observed: Encoder)

  /** The unit step for a direction: +1 forward, -1 backward. */
  function Step(direction: bool): (d: int)
    ensures d == 1 || d == -1
    ensures d > 0 <==> direction
  {
    if direction then 1 else -1
  }

  /** `rencoder_start`: direction forward, count zero, working. */
  function Start(withDirectionCallback: bool, withCountCallback: bool): (e: Encoder)
    ensures e.count == 0 && e.direction && e.working
    ensures e.hasDirectionCallback == withDirectionCallback
    ensures e.hasCountCallback == withCountCallback
  {
    Encoder(0, true, true, withDirectionCallback, withCountCallback)
  }

  function Pause(e: Encoder): Encoder { e.(working := false) }

  function Resume(e: Encoder): Encoder { e.(working := true) }

  function Clear(e: Encoder): Encoder { e.(count := 0) }

  function Direction(e: Encoder): bool { e.direction }

  function Value(e: Encoder): int { e.count }

  /** The direction after an interrupt, before the count moves. */
  function Resampled(e: Encoder, pin: Pin, levelA: bool, levelB: bool): bool
  {
    if pin == PinA && levelA then levelB else e.direction
  }

  /** One interrupt on `pin`, with `levelA` and `levelB` the line levels
      read by the handler. Returns the new encoder and the callbacks made. */
  function Interrupt(e: Encoder, pin: Pin, levelA: bool, levelB: bool): (r: (Encoder, seq<Call>))
    // a paused encoder ignores the edge completely
    ensures !e.working ==> r == (e, [])
    // only count and direction ever change
    ensures r.0.working == e.working
    ensures r.0.hasDirectionCallback == e.hasDirectionCallback
    ensures r.0.hasCountCallback == e.hasCountCallback
    // the direction is resampled only on a rising edge of A, from B
    ensures e.working && pin == PinA && levelA ==> r.0.direction == levelB
    ensures !(pin == PinA && levelA) ==> r.0.direction == e.direction
    // every working edge moves the count one unit in the (new) direction
    ensures e.working ==> r.0.count == e.count + Step(r.0.direction)
    // at most two calls: a direction call strictly before a count call
    ensures |r.1| <= 2
    ensures e.working ==> (r.1 != [] && r.1[|r.1| - 1].CountCall? <==> e.hasCountCallback)
    ensures (|r.1| > 0 && r.1[0].DirectionCall?) <==>
              e.working && e.hasDirectionCallback && pin == PinA && levelA && levelB != e.direction
    ensures forall i :: 0 < i < |r.1| ==> r.1[i].CountCall?
    ensures |r.1| > 0 && r.1[0].DirectionCall? ==> r.1[0] == DirectionCall(levelB, e)
  {
    if !e.working then (e, [])
    else
      var dir := Resampled(e, pin, levelA, levelB);
      var dirCalls :=
        if pin == PinA && levelA && dir != e.direction && e.hasDirectionCallback
        then [DirectionCall(dir, e)] else [];
      var turned := e.(direction := dir);
      var diff := Step(dir);
      var next := e.count + diff;
      var countCalls := if e.hasCountCallback then [CountCall(next, diff, turned)] else [];
      (turned.(count := next), dirCalls + countCalls)
  }

  /** The count call hands over the new count while the stored count is
      still the old one; the store happens after the call returns. */
  lemma CountCallSeesOldCount(e: Encoder, pin: Pin, levelA: bool, levelB: bool)
    requires e.working && e.hasCountCallback
    ensures var r := Interrupt(e, pin, levelA, levelB);
            var c := r.1[|r.1| - 1];
            && c.CountCall?
            && c.observed.count == e.count
            && c.nextCount == r.0.count
            && c.difference == r.0.count - e.count
            && c.observed.direction == r.0.direction
  {
  }

  /** A paused encoder ignores any number of edges, and resuming it gives
      back the encoder that was paused. */
  lemma PauseResume(e: Encoder, pin: Pin, levelA: bool, levelB: bool)
    ensures Interrupt(Pause(e), pin, levelA, levelB) == (Pause(e), [])
    ensures e.working ==> Resume(Pause(e)) == e
    ensures Value(Pause(e)) == Value(e) && Direction(Pause(e)) == Direction(e)
    ensures Pause(e).hasCountCallback == e.hasCountCallback
  {
  }

  /** `rencoder_clear` resets only the count; direction, enable and the
      callbacks are kept, so the next edge counts from zero. */
  lemma ClearKeepsDirection(e: Encoder, pin: Pin, levelA: bool, levelB: bool)
    requires e.working
    ensures Value(Clear(e)) == 0 && Direction(Clear(e)) == Direction(e)
    ensures Clear(e).working == e.working
    ensures Interrupt(Clear(e), pin, levelA, levelB).0.count == Step(Resampled(e, pin, levelA, levelB))
  {
  }

  /** Repeated edges on line B in a fixed direction (no resampling). */
  function EdgesOnB(e: Encoder, n: nat): (r: Encoder)
    decreases n
  {
    if n == 0 then e else EdgesOnB(Interrupt(e, PinB, false, false).0, n - 1)
  }

  /** `n` edges on B move a working counter by exactly `n` units in its
      direction and never change the direction. */
  lemma {:induction false} EdgesOnBCount(e: Encoder, n: nat)
    requires e.working
    ensures EdgesOnB(e, n).count == e.count + n * Step(e.direction)
    ensures EdgesOnB(e, n).direction == e.direction
    ensures EdgesOnB(e, n).working
    decreases n
  {
    if n > 0 {
      var e1 := Interrupt(e, PinB, false, false).0;
      EdgesOnBCount(e1, n - 1);
    }
  }
}
