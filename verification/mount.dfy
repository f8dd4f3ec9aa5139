/** The axis drive of main/mount.c: each axis is a stepper driver with a
    direction line, an enable line (active low) and a pulse line fed by an
    LEDC PWM channel. A rate in cycles per (sidereal) day becomes a pulse
    frequency through a per-axis constant and the global time ratio.

    Doubles are exact reals here; `round` and the `(int)` cast are the C
    functions modelled in `CInt`. Every GPIO level, LEDC setting and
    pulse-frequency notification is an output value. */
module AxisDrive {
  import opened CInt
  import opened Options

  /** Half of the 13-bit duty range: a square wave. */
  const Duty: int := (8192 - 1) / 2

  /** `RA_CYCLE_MIN`/`DEC_CYCLE_MIN` and `RA_CYCLE_MAX`/`DEC_CYCLE_MAX`. */
  const CycleMin: real := 0.01
  const CycleMax: real := 30.0

  /** What one rate update drives: the direction line level, the PWM duty,
      the enable line level (0 enables the driver), the new PWM frequency
      if one was set, and the signed frequency passed to the pulse-frequency
      notification if it was called. */
  datatype Output = Output(dirLevel: int, duty: int, enableLevel: int, freq: Option<int>, notified: Option<int>)

  /** Build configuration of an axis: the `CONFIG_*_REVERSE` flag and the
      pulse frequency of one cycle per day at time ratio 1 (the `RA_FREQ`
      and `DEC_FREQ` factor). */
  datatype AxisConfig = AxisConfig(reverse: bool, hzPerCycle: real)

  /** The direction line for a rate: high for a non-negative rate, unless
      the axis is reversed. */
  function DirectionLevel(reverse: bool, value: real): (level: int)
    ensures level == 0 || level == 1
    ensures level == 1 <==> (value >= 0.0) != reverse
  {
    if value < 0.0 then (if reverse then 1 else 0) else (if reverse then 0 else 1)
  }

  /** The rounded PWM frequency for a rate magnitude. */
  function Frequency(timeRatio: real, cfg: AxisConfig, magnitude: real): int
  {
    Round(timeRatio * (cfg.hzPerCycle * magnitude))
  }

  /** `set_ra_cycles_per_sidereal_day` / `set_dec_cycles_per_day`: returns
      the value the getter reports afterwards, and the outputs. */
  function Apply(timeRatio: real, cfg: AxisConfig, value: real): (r: (real, Output))
    // the direction line follows the sign and the reverse flag
    ensures r.1.dirLevel == DirectionLevel(cfg.reverse, value)
    // stop branch: below the minimum rate or a zero frequency
    ensures (AbsReal(value) < CycleMin || Frequency(timeRatio, cfg, AbsReal(value)) == 0)
            <==> r.1.enableLevel == 1
    ensures r.1.enableLevel == 1 ==>
              r.1.duty == 0 && r.1.freq == None && r.1.notified == Some(0) && r.0 == AbsReal(value)
    // run branch: square wave at the rounded frequency, notified with the
    // rate's sign, stored magnitude limited to the maximum
    ensures r.1.enableLevel == 0 ==>
              var f := Frequency(timeRatio, cfg, AbsReal(value));
              && r.1.duty == Duty && r.1.freq == Some(f)
              && r.1.notified == Some(if value < 0.0 then -f else f)
              && r.0 == (if AbsReal(value) > CycleMax then CycleMax else AbsReal(value))
  {
    var magnitude := AbsReal(value);
    var dir := DirectionLevel(cfg.reverse, value);
    var freq := Frequency(timeRatio, cfg, magnitude);
    if magnitude < CycleMin || freq == 0 then
      (magnitude, Output(dir, 0, 1, None, Some(0)))
    else
      var stored := if magnitude > CycleMax then CycleMax else magnitude;
      (stored, Output(dir, Duty, 0, Some(freq), Some(if value < 0.0 then -freq else freq)))
  }

  /** The stored rate never carries a sign: the getter reports the same value
      for a rate and its negation, and the outputs differ only in direction
      and in the sign of the notification. */
  lemma StoredRateLosesSign(m: Mount, timeRatio: real, cfg: AxisConfig, value: real)
    requires value != 0.0
    ensures GetRa(SetRa(m, cfg, value).0) == GetRa(SetRa(m, cfg, -value).0) >= 0.0
    ensures GetDec(SetDec(m, cfg, value).0) == GetDec(SetDec(m, cfg, -value).0) >= 0.0
    ensures Apply(timeRatio, cfg, value).0 == Apply(timeRatio, cfg, -value).0 >= 0.0
    ensures Apply(timeRatio, cfg, value).1.dirLevel != Apply(timeRatio, cfg, -value).1.dirLevel
    ensures Apply(timeRatio, cfg, value).1.freq == Apply(timeRatio, cfg, -value).1.freq
  {
  }

  /** The maximum-rate clamp comes after the frequency is computed, so it
      limits only the stored value: a rate above the maximum is driven at a
      frequency at least that of the maximum. */
  lemma ClampAfterFrequency(timeRatio: real, cfg: AxisConfig, value: real)
    requires timeRatio >= 0.0 && cfg.hzPerCycle >= 0.0
    requires AbsReal(value) > CycleMax
    requires Apply(timeRatio, cfg, value).1.enableLevel == 0
    ensures Apply(timeRatio, cfg, value).0 == CycleMax
    ensures Apply(timeRatio, cfg, value).1.freq.value >= Frequency(timeRatio, cfg, CycleMax)
  {
    var m := AbsReal(value);
    var low, high := timeRatio * (cfg.hzPerCycle * CycleMax), timeRatio * (cfg.hzPerCycle * m);
    ScaleMonotone(cfg.hzPerCycle, CycleMax, m);
    ScaleMonotone(timeRatio, cfg.hzPerCycle * CycleMax, cfg.hzPerCycle * m);
    RoundMonotone(low, high);
    assert Frequency(timeRatio, cfg, CycleMax) == Round(low);
    assert Frequency(timeRatio, cfg, m) == Round(high);
  }

  lemma ScaleMonotone(k: real, a: real, b: real)
    requires k >= 0.0 && a <= b
    ensures k * a <= k * b
  {
  }

  /** A concrete instance: at 60 cycles per day with unit ratio and factor,
      the driver runs at 60 Hz while the getter reports 30. */
  lemma ClampExample()
    ensures Apply(1.0, AxisConfig(false, 1.0), 60.0) == (CycleMax, Output(1, Duty, 0, Some(60), Some(60)))
  {
  }

  /** The rates and the time ratio kept by the module. */
  datatype Mount = Mount(raRate: real, decRate: real, timeRatio: real)

  /** Outcome of reading the stored time ratio: the stored integer (ratio
      times one million), no entry, a read error, or failing to open the
      store. */
  datatype RatioRead = Stored(millionths: int) | NotFound | ReadError | OpenError

  /** `init_mount`: both rates zero; the ratio read back from storage, or 1
      whenever there is none to read. */
  function Init(read: RatioRead): (m: Mount)
    ensures m.raRate == 0.0 && m.decRate == 0.0
    ensures read.Stored? ==> m.timeRatio * 1000000.0 == read.millionths as real
    ensures !read.Stored? ==> m.timeRatio == 1.0
  {
    var ratio := match read
      case Stored(v) => v as real / 1000000.0
      case _ => 1.0;
    Mount(0.0, 0.0, ratio)
  }

  function SetRa(m: Mount, cfg: AxisConfig, value: real): (r: (Mount, Output))
    ensures r.0.decRate == m.decRate && r.0.timeRatio == m.timeRatio
    ensures (r.0.raRate, r.1) == Apply(m.timeRatio, cfg, value)
  {
    var (stored, out) := Apply(m.timeRatio, cfg, value);
    (m.(raRate := stored), out)
  }

  function SetDec(m: Mount, cfg: AxisConfig, value: real): (r: (Mount, Output))
    ensures r.0.raRate == m.raRate && r.0.timeRatio == m.timeRatio
    ensures (r.0.decRate, r.1) == Apply(m.timeRatio, cfg, value)
  {
    var (stored, out) := Apply(m.timeRatio, cfg, value);
    (m.(decRate := stored), out)
  }

  function GetRa(m: Mount): real { m.raRate }

  function GetDec(m: Mount): real { m.decRate }

  function GetTimeRatio(m: Mount): real { m.timeRatio }

  /** The integer `set_mount_time_ratio_persist` stores: the ratio in
      millionths, truncated toward zero. */
  function PersistedMillionths(ratio: real): (v: int)
    ensures ratio >= 0.0 ==> 0 <= v && v as real <= ratio * 1000000.0 < v as real + 1.0
  {
    Trunc(ratio * 1000000.0)
  }

  /** `set_mount_time_ratio_persist`: set the ratio, re-apply both stored
      rates under it, and store it. Returns the new state, the two outputs
      and the integer written to storage. */
  function SetTimeRatio(m: Mount, raCfg: AxisConfig, decCfg: AxisConfig, ratio: real): (r: (Mount, Output, Output, int))
    ensures GetTimeRatio(r.0) == ratio
    ensures (r.0.raRate, r.1) == Apply(ratio, raCfg, m.raRate)
    ensures (r.0.decRate, r.2) == Apply(ratio, decCfg, m.decRate)
    ensures r.3 == PersistedMillionths(ratio)
  {
    var m1 := m.(timeRatio := ratio);
    var (m2, raOut) := SetRa(m1, raCfg, m1.raRate);
    var (m3, decOut) := SetDec(m2, decCfg, m2.decRate);
    (m3, raOut, decOut, PersistedMillionths(ratio))
  }

  /** After a negative rate was set, changing the time ratio re-applies the
      stored magnitude: the axis is driven in the positive direction and the
      notification is no longer negative. */
  lemma ReapplyDrivesForward(m: Mount, raCfg: AxisConfig, decCfg: AxisConfig, value: real, ratio: real)
    requires value < 0.0 && ratio >= 0.0 && raCfg.hzPerCycle >= 0.0
    ensures var (m1, before) := SetRa(m, raCfg, value);
            var r := SetTimeRatio(m1, raCfg, decCfg, ratio);
            && before.dirLevel == DirectionLevel(raCfg.reverse, value)
            && r.1.dirLevel == DirectionLevel(raCfg.reverse, 1.0)
            && r.1.dirLevel != before.dirLevel
            && r.1.notified.value >= 0
  {
    var (m1, before) := SetRa(m, raCfg, value);
    assert m1.raRate >= 0.0;
    var r := SetTimeRatio(m1, raCfg, decCfg, ratio);
    assert raCfg.hzPerCycle * m1.raRate >= 0.0;
    assert ratio * (raCfg.hzPerCycle * m1.raRate) >= 0.0;
  }

  /** A ratio written by `SetTimeRatio` and read back by `Init` is the
      written ratio truncated to millionths: never larger, and smaller by
      less than one millionth. */
  lemma RatioPersistRoundTrip(m: Mount, raCfg: AxisConfig, decCfg: AxisConfig, ratio: real)
    requires ratio >= 0.0
    ensures var back := Init(Stored(SetTimeRatio(m, raCfg, decCfg, ratio).3)).timeRatio;
            back <= ratio && ratio - back < 1.0 / 1000000.0
  {
    var v := PersistedMillionths(ratio);
    var back := Init(Stored(v)).timeRatio;
    assert back * 1000000.0 == v as real;
    assert back * 1000000.0 <= ratio * 1000000.0;
    assert ratio * 1000000.0 - back * 1000000.0 < 1.0;
  }
}
