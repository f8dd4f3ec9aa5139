/** The command side of main/telescope.c (the older, open-loop revision of
    the mount): a UDP datagram carries a one-byte opcode and big-endian
    arguments; accepted commands update the speed and guiding state, which
    is turned into two stepper rates; every datagram is answered with an
    18-byte acknowledgement of the whole state.

    `parse_command` is split here into `Decode` (opcode and length checks,
    argument decoding) and `Execute` (the state change), with `Encode` as
    the inverse of `Decode`. */
module Telescope {
  import opened CInt
  import opened Options
  import opened Bytes
  import AxisDrive

  /** Opcodes. */
  const OpPing: byte := 0
  const OpSetTracking: byte := 1
  const OpSetRaSpeed: byte := 2
  const OpSetDecSpeed: byte := 3
  const OpPulseGuiding: byte := 4
  const OpSetRaGuideSpeed: byte := 5
  const OpSetDecGuideSpeed: byte := 6

  /** Pulse-guiding directions; any other non-zero byte is stored too. */
  const GuideNone: int := 0
  const GuideNorth: int := 1
  const GuideSouth: int := 2
  const GuideEast: int := 3
  const GuideWest: int := 4

  /** `RA_SPEED_MAX`/`DEC_SPEED_MAX` and `RA_SPEED_MIN`/`DEC_SPEED_MIN`, in
      thousandths of a cycle per day times 15. */
  const SpeedMax: int := 450000
  const SpeedMin: int := 150

  const SiderealDaySeconds: real := 86164.1
  const DaySeconds: real := 86400.0

  /** The globals: `tracking` is an `int8_t`, `pulseGuiding` a byte, and the
      four speeds are `int`s. */
  datatype State = State(
    tracking: int,
    pulseGuiding: int,
    raSpeed: int,
    decSpeed: int,
    raGuideSpeed: int,
    decGuideSpeed: int)

  /** The globals' initial values. */
  const Initial: State := State(0, GuideNone, 0, 0, 7500, 7500)

  /** The initial values are a valid state, and both axes start at rest. */
  lemma InitialValid(raSteps: int, decSteps: int)
    ensures Valid(Initial)
    ensures UpdateStepper(Initial, raSteps, decSteps).0.enableLevel == 1
    ensures UpdateStepper(Initial, raSteps, decSteps).1.enableLevel == 1
  {
  }

  /** The speeds the clamp can produce: zero, or a magnitude between the
      limits, where the positive side excludes 150 and the negative side
      includes -150. */
  predicate IsClampedSpeed(x: int)
  {
    x == 0 || SpeedMin < x <= SpeedMax || -SpeedMax <= x <= -SpeedMin
  }

  /** The speed clamp of the four set-speed commands: saturate at the
      maximum, and a dead zone around zero that is asymmetric because every
      comparison is a strict `>`. */
  function ClampSpeed(x: int): (r: int)
    ensures IsClampedSpeed(r)
    // the clamp changes exactly the values outside its range
    ensures r == x <==> IsClampedSpeed(x)
    ensures x > SpeedMax ==> r == SpeedMax
    ensures x <= -SpeedMax ==> r == -SpeedMax
    ensures -SpeedMin < x <= SpeedMin ==> r == 0
  {
    if x > SpeedMax then SpeedMax
    else if x > SpeedMin then x
    else if x > -SpeedMin then 0
    else if x > -SpeedMax then x
    else -SpeedMax
  }

  /** Clamping twice is clamping once; +150 is cut to zero while -150 is
      kept. */
  lemma ClampSpeedIdempotent(x: int)
    ensures ClampSpeed(ClampSpeed(x)) == ClampSpeed(x)
    ensures ClampSpeed(SpeedMin) == 0 && ClampSpeed(-SpeedMin) == -SpeedMin
  {
  }

  /** The state every reachable state satisfies. */
  predicate Valid(st: State)
  {
    && IsInt8(st.tracking) && 0 <= st.pulseGuiding < 256
    && IsClampedSpeed(st.raSpeed) && IsClampedSpeed(st.decSpeed)
    && IsClampedSpeed(st.raGuideSpeed) && IsClampedSpeed(st.decGuideSpeed)
  }

  /** A well-formed command. */
  datatype Command =
    | Ping
    | SetTracking(tracking: int)
    | SetRaSpeed(raSpeed: int)
    | SetDecSpeed(decSpeed: int)
    | PulseGuide(direction: byte, millis: int)
    | SetRaGuideSpeed(raGuideSpeed: int)
    | SetDecGuideSpeed(decGuideSpeed: int)

  /** Arguments in the ranges their wire types can carry. */
  predicate WellFormed(c: Command)
  {
    match c
    case Ping => true
    case SetTracking(t) => IsInt8(t)
    case SetRaSpeed(v) => IsInt32(v)
    case SetDecSpeed(v) => IsInt32(v)
    case PulseGuide(_, ms) => IsInt16(ms)
    case SetRaGuideSpeed(v) => IsInt32(v)
    case SetDecGuideSpeed(v) => IsInt32(v)
  }

  /** The datagram of a command. */
  function Encode(c: Command): (bs: seq<byte>)
    requires WellFormed(c)
    ensures |bs| >= 1
  {
    match c
    case Ping => [OpPing]
    case SetTracking(t) => [OpSetTracking] + ToBeSigned(t, 1)
    case SetRaSpeed(v) => [OpSetRaSpeed] + ToBeSigned(v, 4)
    case SetDecSpeed(v) => [OpSetDecSpeed] + ToBeSigned(v, 4)
    case PulseGuide(d, ms) => [OpPulseGuiding, d] + ToBeSigned(ms, 2)
    case SetRaGuideSpeed(v) => [OpSetRaGuideSpeed] + ToBeSigned(v, 4)
    case SetDecGuideSpeed(v) => [OpSetDecGuideSpeed] + ToBeSigned(v, 4)
  }

  /** The length each opcode demands, or `None` for an unknown opcode. */
  function ExpectedLength(op: byte): (n: Option<nat>)
    ensures n.Some? <==> op as int <= 6
  {
    if op == OpPing then Some(1)
    else if op == OpSetTracking then Some(2)
    else if op == OpPulseGuiding then Some(4)
    else if op as int <= 6 then Some(5)
    else None
  }

  /** The opcode and length checks and the argument decoding: a 32-bit
      argument is bytes 1..4 big-endian, the pulse length is bytes 2..3 as a
      big-endian `short`, the tracking flag is byte 1 as an `int8_t`. */
  function Decode(buf: seq<byte>): (c: Option<Command>)
    requires |buf| >= 1
    ensures c.Some? <==> ExpectedLength(buf[0]) == Some(|buf|)
    ensures c.Some? ==> WellFormed(c.value)
  {
    var op := buf[0];
    if ExpectedLength(op) != Some(|buf|) then None
    else if op == OpPing then Some(Ping)
    else if op == OpSetTracking then Some(SetTracking(BeSigned(buf[1..2])))
    else if op == OpSetRaSpeed then Some(SetRaSpeed(BeSigned(buf[1..5])))
    else if op == OpSetDecSpeed then Some(SetDecSpeed(BeSigned(buf[1..5])))
    else if op == OpPulseGuiding then Some(PulseGuide(buf[1], BeSigned(buf[2..4])))
    else if op == OpSetRaGuideSpeed then Some(SetRaGuideSpeed(BeSigned(buf[1..5])))
    else Some(SetDecGuideSpeed(BeSigned(buf[1..5])))
  }

  /** Decoding an encoded command gives the command back. */
  lemma DecodeEncode(c: Command)
    requires WellFormed(c)
    ensures Decode(Encode(c)) == Some(c)
  {
    var bs := Encode(c);
    match c
    case Ping =>
    case SetTracking(t) =>
      assert bs[1..2] == ToBeSigned(t, 1);
      DecodeEncodeSigned(t, 1);
    case SetRaSpeed(v) =>
      assert bs[1..5] == ToBeSigned(v, 4);
      DecodeEncodeSigned(v, 4);
    case SetDecSpeed(v) =>
      assert bs[1..5] == ToBeSigned(v, 4);
      DecodeEncodeSigned(v, 4);
    case PulseGuide(d, ms) =>
      assert bs[2..4] == ToBeSigned(ms, 2);
      DecodeEncodeSigned(ms, 2);
    case SetRaGuideSpeed(v) =>
      assert bs[1..5] == ToBeSigned(v, 4);
      DecodeEncodeSigned(v, 4);
    case SetDecGuideSpeed(v) =>
      assert bs[1..5] == ToBeSigned(v, 4);
      DecodeEncodeSigned(v, 4);
  }

  /** Every datagram that decodes is the encoding of what it decodes to. */
  lemma EncodeDecode(buf: seq<byte>)
    requires |buf| >= 1 && Decode(buf).Some?
    ensures Encode(Decode(buf).value) == buf
  {
    var op := buf[0];
    if op == OpPing {
      assert buf == [op];
    } else if op == OpSetTracking {
      EncodeDecodeSigned(buf[1..2]);
      assert buf == [op] + buf[1..2];
    } else if op == OpPulseGuiding {
      EncodeDecodeSigned(buf[2..4]);
      assert buf == [op, buf[1]] + buf[2..4];
    } else {
      EncodeDecodeSigned(buf[1..5]);
      assert buf == [op] + buf[1..5];
    }
  }

  /** `esp_timer_start_once` takes an unsigned 64-bit timeout: the `int`
      product `pulseLength * 1000` converts modulo 2^64. */
  function TimeoutMicros(millis: int): (us: int)
    requires IsInt16(millis)
    ensures 0 <= us < 0x1_0000_0000_0000_0000
    ensures millis >= 0 ==> us == millis * 1000
    ensures millis < 0 ==> us == millis * 1000 + 0x1_0000_0000_0000_0000
  {
    var product := millis * 1000;
    if product < 0 then product + 0x1_0000_0000_0000_0000 else product
  }

  /** What `parse_command` did: whether it returned 1, the new state,
      whether it called `updateStepper`, and the pulse timer it started. */
  datatype Parsed = Parsed(accepted: bool, state: State, restep: bool, pulseTimerMicros: Option<int>)

  /** The state change of a decoded command. A pulse-guiding command while a
      pulse is in progress is refused. */
  function Execute(st: State, c: Command): (r: Parsed)
    requires WellFormed(c)
    ensures !r.accepted <==> c.PulseGuide? && st.pulseGuiding != GuideNone
    ensures !r.accepted ==> r == Parsed(false, st, false, None)
    ensures r.accepted ==> (r.restep <==> !c.Ping?)
    ensures r.pulseTimerMicros.Some? <==> r.accepted && c.PulseGuide?
    // only the field a command names changes; a ping changes nothing
    ensures c.Ping? ==> r.state == st
    ensures c.SetTracking? ==> r.state == st.(tracking := c.tracking)
    ensures c.SetRaSpeed? ==> r.state == st.(raSpeed := ClampSpeed(c.raSpeed))
    ensures c.SetDecSpeed? ==> r.state == st.(decSpeed := ClampSpeed(c.decSpeed))
    ensures c.SetRaGuideSpeed? ==> r.state == st.(raGuideSpeed := ClampSpeed(c.raGuideSpeed))
    ensures c.SetDecGuideSpeed? ==> r.state == st.(decGuideSpeed := ClampSpeed(c.decGuideSpeed))
    ensures c.PulseGuide? && r.accepted ==>
              r.state == st.(pulseGuiding := c.direction as int)
              && r.pulseTimerMicros == Some(TimeoutMicros(c.millis))
    ensures Valid(st) ==> Valid(r.state)
  {
    match c
    case Ping => Parsed(true, st, false, None)
    case SetTracking(t) => Parsed(true, st.(tracking := t), true, None)
    case SetRaSpeed(v) => Parsed(true, st.(raSpeed := ClampSpeed(v)), true, None)
    case SetDecSpeed(v) => Parsed(true, st.(decSpeed := ClampSpeed(v)), true, None)
    case PulseGuide(d, ms) =>
      if st.pulseGuiding != GuideNone then Parsed(false, st, false, None)
      else Parsed(true, st.(pulseGuiding := d as int), true, Some(TimeoutMicros(ms)))
    case SetRaGuideSpeed(v) => Parsed(true, st.(raGuideSpeed := ClampSpeed(v)), true, None)
    case SetDecGuideSpeed(v) => Parsed(true, st.(decGuideSpeed := ClampSpeed(v)), true, None)
  }

  /** `parse_command` on a datagram of at least one byte (the receive loop
      never hands over an empty one). */
  function ParseCommand(st: State, buf: seq<byte>): (r: Parsed)
    requires |buf| >= 1
    // a wrong length or an unknown opcode is refused and changes nothing
    ensures ExpectedLength(buf[0]) != Some(|buf|) ==> r == Parsed(false, st, false, None)
    ensures r.accepted <==>
              ExpectedLength(buf[0]) == Some(|buf|) && !(buf[0] == OpPulseGuiding && st.pulseGuiding != GuideNone)
    ensures !r.accepted ==> r.state == st && !r.restep && r.pulseTimerMicros == None
    ensures Decode(buf).Some? ==> r == Execute(st, Decode(buf).value)
    ensures Valid(st) ==> Valid(r.state)
  {
    match Decode(buf)
    case None => Parsed(false, st, false, None)
    case Some(c) => Execute(st, c)
  }

  /** Sending the encoding of a command executes that command. */
  lemma ParseEncoded(st: State, c: Command)
    requires WellFormed(c)
    ensures ParseCommand(st, Encode(c)) == Execute(st, c)
  {
    DecodeEncode(c);
  }

  /** `pulseGuidingFinished`: guiding back to none. The callback itself
      then recomputes both steppers from the new state (`UpdateStepper`) and
      sends the acknowledgement to the sender of the pulse (`Ack`); the
      function gives the state those two read. */
  function PulseGuidingFinished(st: State): (r: State)
    ensures r.pulseGuiding == GuideNone
    ensures r.(pulseGuiding := st.pulseGuiding) == st
    ensures Valid(st) ==> Valid(r)
  {
    st.(pulseGuiding := GuideNone)
  }

  /** An accepted pulse followed by its timer's expiry returns to the state
      before the pulse, and a second pulse during the first is refused. */
  lemma PulseRoundTrip(st: State, d: byte, ms: int, d2: byte, ms2: int)
    requires IsInt16(ms) && IsInt16(ms2) && st.pulseGuiding == GuideNone && d != 0
    ensures var r := Execute(st, PulseGuide(d, ms));
            && r.accepted
            && PulseGuidingFinished(r.state) == st
            && !Execute(r.state, PulseGuide(d2, ms2)).accepted
  {
  }

  /** The globals together with the one-shot pulse timer: whether it is
      armed. `esp_timer_start_once` on an armed timer fails and leaves the
      running timeout in place, and the source ignores that failure. */
  datatype Device = Device(state: State, timerArmed: bool)

  /** A command on the device: what `parse_command` did, and the timeout the
      timer really started, if any. */
  datatype Dispatched = Dispatched(device: Device, parsed: Parsed, started: Option<int>)

  /** `parse_command` as written: its only guard is the stored direction, so
      a pulse of direction 0 arms the timer without blocking the next pulse,
      whose own timer then fails to start. */
  function Dispatch(d: Device, c: Command): (r: Dispatched)
    requires WellFormed(c)
    ensures r.parsed == Execute(d.state, c) && r.device.state == r.parsed.state
    // a timer is armed after the call exactly if one was before or an
    // accepted pulse asked for one
    ensures r.device.timerArmed <==> d.timerArmed || (r.parsed.accepted && c.PulseGuide?)
    // an accepted pulse gets its own timeout only on an idle timer
    ensures r.started.Some? <==> r.parsed.accepted && c.PulseGuide? && !d.timerArmed
    ensures r.started.Some? ==> r.started == Some(TimeoutMicros(c.millis))
  {
    var p := Execute(d.state, c);
    var start := if d.timerArmed then None else p.pulseTimerMicros;
    Dispatched(Device(p.state, d.timerArmed || p.pulseTimerMicros.Some?), p, start)
  }

  /** The timer fires: `pulseGuidingFinished` runs and the timer is idle. */
  function Expire(d: Device): (r: Device)
    requires d.timerArmed
    ensures !r.timerArmed && r.state.pulseGuiding == GuideNone
    ensures r.state.(pulseGuiding := d.state.pulseGuiding) == d.state
  {
    Device(PulseGuidingFinished(d.state), false)
  }

  /** The defect: a pulse of direction 0 is accepted and arms a one-second
      timer while guiding stays "none"; a north pulse sent next is accepted
      and guides north, yet no timer of its own is started, so it runs until
      the first pulse's timer expires instead of for its 10 ms. */
  lemma ZeroDirectionPulseNotGuarded()
    ensures var first := Dispatch(Device(Initial, false), PulseGuide(0, 1000));
            var second := Dispatch(first.device, PulseGuide(1, 10));
            && first.parsed.accepted && first.started == Some(1000000)
            && first.device.state.pulseGuiding == GuideNone && first.device.timerArmed
            && second.parsed.accepted && second.device.state.pulseGuiding == GuideNorth
            && second.started == None
  {
  }

  /** `parse_command` with the guard the code evidently intends: a pulse is
      refused while the pulse timer is armed, not only while a direction is
      stored. Every other command is dispatched as written. */
  function DispatchGuarded(d: Device, c: Command): (r: Dispatched)
    requires WellFormed(c)
    ensures !c.PulseGuide? ==> r == Dispatch(d, c)
    ensures c.PulseGuide? && (d.timerArmed || d.state.pulseGuiding != GuideNone) ==>
              r == Dispatched(d, Parsed(false, d.state, false, None), None)
    // every accepted pulse starts a timer with its own timeout
    ensures c.PulseGuide? && r.parsed.accepted ==> r.started == Some(TimeoutMicros(c.millis))
    // and a stored direction always has a timer that will clear it
    ensures (d.state.pulseGuiding != GuideNone ==> d.timerArmed) ==>
              (r.device.state.pulseGuiding != GuideNone ==> r.device.timerArmed)
  {
    if c.PulseGuide? && d.timerArmed then Dispatched(d, Parsed(false, d.state, false, None), None)
    else Dispatch(d, c)
  }

  /** Where no timer is armed without a stored direction (no pulse of
      direction 0 has been taken), the guarded and the written dispatch
      agree. */
  lemma GuardedAgrees(d: Device, c: Command)
    requires WellFormed(c)
    requires d.timerArmed ==> d.state.pulseGuiding != GuideNone
    ensures DispatchGuarded(d, c) == Dispatch(d, c)
  {
  }

  /** The two rates: RA in cycles per sidereal day and DEC in cycles per
      day. Speeds are in fifteen-thousandths; a pulse adds or subtracts the
      guide speed on one axis (west and north add); tracking adds one
      cycle per sidereal day to RA. */
  function Rates(st: State): (r: (real, real))
    ensures r.0 == st.raSpeed as real / 15000.0 + GuideRa(st) + (if st.tracking != 0 then 1.0 else 0.0)
    ensures r.1 == st.decSpeed as real / 15000.0 + GuideDec(st)
  {
    var ra := st.raSpeed as real / 15000.0;
    var dec := st.decSpeed as real / 15000.0;
    var dec' :=
      if st.pulseGuiding == GuideNorth then dec + st.decGuideSpeed as real / 15000.0
      else if st.pulseGuiding == GuideSouth then dec - st.decGuideSpeed as real / 15000.0
      else dec;
    var ra' :=
      if st.pulseGuiding == GuideWest then ra + st.raGuideSpeed as real / 15000.0
      else if st.pulseGuiding == GuideEast then ra - st.raGuideSpeed as real / 15000.0
      else ra;
    (if st.tracking != 0 then ra' + 1.0 else ra', dec')
  }

  /** The guiding contribution to each axis, by direction. */
  function GuideRa(st: State): real
  {
    if st.pulseGuiding == GuideWest then st.raGuideSpeed as real / 15000.0
    else if st.pulseGuiding == GuideEast then -(st.raGuideSpeed as real / 15000.0)
    else 0.0
  }

  function GuideDec(st: State): real
  {
    if st.pulseGuiding == GuideNorth then st.decGuideSpeed as real / 15000.0
    else if st.pulseGuiding == GuideSouth then -(st.decGuideSpeed as real / 15000.0)
    else 0.0
  }

  /** A pulse in a direction outside 1..4 adds no rate, yet it is stored
      and so blocks further pulses until its timer expires. */
  lemma UnknownDirectionBlocks(st: State, d: byte, ms: int, d2: byte, ms2: int)
    requires IsInt16(ms) && IsInt16(ms2) && st.pulseGuiding == GuideNone && d as int > 4
    ensures var r := Execute(st, PulseGuide(d, ms));
            && r.accepted
            && Rates(r.state) == Rates(st)
            && !Execute(r.state, PulseGuide(d2, ms2)).accepted
  {
  }

  /** The `RA_FREQ`/`DEC_FREQ` macro of this revision: the step rate of
      `rate` cycles per day of `daySeconds` seconds, truncated by the
      `(int)` cast. */
  function StepperFrequency(stepsPerCycle: int, rate: real, daySeconds: real): int
    requires daySeconds > 0.0
  {
    Trunc(stepsPerCycle as real * rate / daySeconds)
  }

  /** One axis of `updateStepper`: direction from the sign, frequency from
      the magnitude, stopped below the minimum rate or at frequency zero.
      There is no time ratio, no reverse flag and no notification. */
  function StepperAxis(rate: real, stepsPerCycle: int, daySeconds: real): (o: AxisDrive.Output)
    requires daySeconds > 0.0
    ensures o.dirLevel == 1 <==> rate >= 0.0
    ensures o.dirLevel == 0 || o.dirLevel == 1
    ensures o.enableLevel == 1 <==>
              AbsReal(rate) < AxisDrive.CycleMin || StepperFrequency(stepsPerCycle, AbsReal(rate), daySeconds) == 0
    ensures o.enableLevel == 1 ==> o.duty == 0 && o.freq == None
    ensures o.enableLevel == 0 ==>
              o.duty == AxisDrive.Duty && o.freq == Some(StepperFrequency(stepsPerCycle, AbsReal(rate), daySeconds))
    ensures o.notified == None
  {
    var magnitude := AbsReal(rate);
    var dir := if rate < 0.0 then 0 else 1;
    var freq := StepperFrequency(stepsPerCycle, magnitude, daySeconds);
    if magnitude < AxisDrive.CycleMin || freq == 0 then AxisDrive.Output(dir, 0, 1, None, None)
    else AxisDrive.Output(dir, AxisDrive.Duty, 0, Some(freq), None)
  }

  /** `updateStepper`: both axes from the current rates. `raSteps` and
      `decSteps` are the products of cycle steps, gear ratio and resolution
      of each axis. */
  function UpdateStepper(st: State, raSteps: int, decSteps: int): (r: (AxisDrive.Output, AxisDrive.Output))
    // RA turns forward for a rate that is not negative, is disabled below
    // the minimum rate or at frequency zero, and otherwise runs at the
    // truncated step rate over a sidereal day
    ensures r.0.dirLevel == 1 <==> Rates(st).0 >= 0.0
    ensures r.0.enableLevel == 1 <==>
              AbsReal(Rates(st).0) < AxisDrive.CycleMin
              || StepperFrequency(raSteps, AbsReal(Rates(st).0), SiderealDaySeconds) == 0
    ensures r.0.enableLevel == 1 ==> r.0.duty == 0 && r.0.freq == None
    ensures r.0.enableLevel == 0 ==>
              r.0.duty == AxisDrive.Duty
              && r.0.freq == Some(StepperFrequency(raSteps, AbsReal(Rates(st).0), SiderealDaySeconds))
    // DEC likewise, over a solar day
    ensures r.1.dirLevel == 1 <==> Rates(st).1 >= 0.0
    ensures r.1.enableLevel == 1 <==>
              AbsReal(Rates(st).1) < AxisDrive.CycleMin
              || StepperFrequency(decSteps, AbsReal(Rates(st).1), DaySeconds) == 0
    ensures r.1.enableLevel == 1 ==> r.1.duty == 0 && r.1.freq == None
    ensures r.1.enableLevel == 0 ==>
              r.1.duty == AxisDrive.Duty
              && r.1.freq == Some(StepperFrequency(decSteps, AbsReal(Rates(st).1), DaySeconds))
    ensures r.0.notified == None && r.1.notified == None
  {
    var (ra, dec) := Rates(st);
    (StepperAxis(ra, raSteps, SiderealDaySeconds), StepperAxis(dec, decSteps, DaySeconds))
  }

  /** Tracking affects RA only: the DEC output is the same with tracking on
      or off, and with tracking on the RA rate is one cycle higher. */
  lemma TrackingDrivesRaOnly(st: State, t: int, raSteps: int, decSteps: int)
    requires t != 0
    ensures UpdateStepper(st.(tracking := t), raSteps, decSteps).1 == UpdateStepper(st.(tracking := 0), raSteps, decSteps).1
    ensures Rates(st.(tracking := t)).0 == Rates(st.(tracking := 0)).0 + 1.0
  {
  }

  /** Each axis reads its own fields only: DEC ignores tracking and the RA
      speeds, RA ignores the DEC speeds, and a north or south pulse leaves
      RA as it is without guiding, an east or west pulse DEC. */
  lemma AxesUseOwnFields(st: State, raSteps: int, decSteps: int, t: int, ra: int, raGuide: int, dec: int, decGuide: int)
    ensures UpdateStepper(st.(tracking := t, raSpeed := ra, raGuideSpeed := raGuide), raSteps, decSteps).1
            == UpdateStepper(st, raSteps, decSteps).1
    ensures UpdateStepper(st.(decSpeed := dec, decGuideSpeed := decGuide), raSteps, decSteps).0
            == UpdateStepper(st, raSteps, decSteps).0
    ensures st.pulseGuiding in {GuideNorth, GuideSouth} ==>
              UpdateStepper(st, raSteps, decSteps).0 == UpdateStepper(st.(pulseGuiding := GuideNone), raSteps, decSteps).0
    ensures st.pulseGuiding in {GuideEast, GuideWest} ==>
              UpdateStepper(st, raSteps, decSteps).1 == UpdateStepper(st.(pulseGuiding := GuideNone), raSteps, decSteps).1
  {
  }

  /** The 18-byte acknowledgement: tracking, guiding direction, then the
      four speeds as big-endian 32-bit values. */
  function Ack(st: State): (bs: seq<byte>)
    requires Valid(st)
    ensures |bs| == 18
  {
    ToBeSigned(st.tracking, 1) + [st.pulseGuiding as byte]
    + ToBeSigned(st.raSpeed, 4) + ToBeSigned(st.decSpeed, 4)
    + ToBeSigned(st.raGuideSpeed, 4) + ToBeSigned(st.decGuideSpeed, 4)
  }

  /** The state an acknowledgement reports, read back field by field at
      the offsets of the layout. */
  function DecodeAck(bs: seq<byte>): (st: State)
    requires |bs| == 18
  {
    State(BeSigned(bs[0..1]), bs[1] as int, BeSigned(bs[2..6]), BeSigned(bs[6..10]),
          BeSigned(bs[10..14]), BeSigned(bs[14..18]))
  }

  /** Reading an acknowledgement back gives the state it was made from. */
  lemma AckRoundTrip(st: State)
    requires Valid(st)
    ensures DecodeAck(Ack(st)) == st
  {
    AckLayout(st);
    DecodeEncodeSigned(st.tracking, 1);
    DecodeEncodeSigned(st.raSpeed, 4);
    DecodeEncodeSigned(st.decSpeed, 4);
    DecodeEncodeSigned(st.raGuideSpeed, 4);
    DecodeEncodeSigned(st.decGuideSpeed, 4);
  }

  /** Where each field of the acknowledgement sits. */
  lemma AckLayout(st: State)
    requires Valid(st)
    ensures var bs := Ack(st);
            && bs[0..1] == ToBeSigned(st.tracking, 1) && bs[1] as int == st.pulseGuiding
            && bs[2..6] == ToBeSigned(st.raSpeed, 4) && bs[6..10] == ToBeSigned(st.decSpeed, 4)
            && bs[10..14] == ToBeSigned(st.raGuideSpeed, 4) && bs[14..18] == ToBeSigned(st.decGuideSpeed, 4)
  {
    var t, r, d := ToBeSigned(st.tracking, 1), ToBeSigned(st.raSpeed, 4), ToBeSigned(st.decSpeed, 4);
    var rg, dg := ToBeSigned(st.raGuideSpeed, 4), ToBeSigned(st.decGuideSpeed, 4);
    var bs := Ack(st);
    assert bs == t + [st.pulseGuiding as byte] + r + d + rg + dg;
    assert bs[0..1] == t;
    assert bs[2..6] == r;
    assert bs[6..10] == d;
    assert bs[10..14] == rg;
    assert bs[14..18] == dg;
  }


  /** One pass of the receive loop: an empty datagram is skipped; any other
      is parsed and answered with the acknowledgement of the resulting
      state, whether or not it was accepted. */
  function Receive(st: State, buf: seq<byte>): (r: Option<(Parsed, seq<byte>)>)
    requires Valid(st)
    ensures r.None? <==> |buf| == 0
    ensures r.Some? ==> Valid(r.value.0.state) && |r.value.1| == 18 && DecodeAck(r.value.1) == r.value.0.state
    // the datagram is parsed against the current state, and the answer is
    // the acknowledgement of the state that results
    ensures r.Some? ==> r.value.0 == ParseCommand(st, buf) && r.value.1 == Ack(r.value.0.state)
  {
    if |buf| == 0 then None
    else
      var p := ParseCommand(st, buf);
      AckRoundTrip(p.state);
      Some((p, Ack(p.state)))
  }
}
