/** The speed command of velocity mode (`compute_velocity_csv_command`, `apply_slew_rate_limit`), in exact reals, over
    whole runs of cycles. */
module Velocity {
  import RtCycle

  const NS_PER_S := 1_000_000_000.0

  function MaxStep(accel: real, dtNs: int): real {
    accel * (dtNs as real / NS_PER_S)
  }

  /** An acceleration of 0 or less means no limit. */
  function SlewLimit(current: real, target: real, accel: real, dtNs: int): real {
    if accel <= 0.0 then target
    else if current < target then Min(current + MaxStep(accel, dtNs), target)
    else if current > target then Max(current - MaxStep(accel, dtNs), target)
    else current
  }

  function Min(x: real, y: real): real { if x < y then x else y }
  function Max(x: real, y: real): real { if x > y then x else y }

  /** Rounding to the nearest integer, halves away from zero */
  function Round(x: real): (r: int)
    ensures -0.5 <= r as real - x <= 0.5
    ensures (r as real - x == 0.5 ==> x > 0.0) && (r as real - x == -0.5 ==> x < 0.0)
  {
    if x >= 0.0 then (x + 0.5).Floor else -((0.5 - x).Floor)
  }

  datatype Wave = NoWave | Wave(rpm: int)

  datatype Command = Command(rpm: int, filtered: real)

  /** A waveform goes through as it is; otherwise the speed follows its target with limited acceleration. */
  function CsvCommand(wave: Wave, target: int, accel: int, maxRpm: int, previous: real, dtNs: int): Command {
    if wave.Wave? then Command(RtCycle.Clamp(wave.rpm, maxRpm), wave.rpm as real)
    else
      var f := SlewLimit(previous, target as real, accel as real, dtNs);
      Command(RtCycle.Clamp(Round(f), maxRpm), f)
  }

  // ----- one cycle -----

  /** Whatever the target is, the filtered speed moves towards it, not past it, and not faster than allowed. */
  lemma StepIsTowards(current: real, target: real, accel: real, dtNs: int)
    requires accel > 0.0 && dtNs >= 0
    ensures var f := SlewLimit(current, target, accel, dtNs);
            (current <= target ==> current <= f <= target) && (current >= target ==> current >= f >= target)
            && -MaxStep(accel, dtNs) <= f - current <= MaxStep(accel, dtNs)
  {
    StepIsNotNegative(accel, dtNs);
  }

  lemma StepIsNotNegative(accel: real, dtNs: int)
    requires accel >= 0.0 && dtNs >= 0
    ensures MaxStep(accel, dtNs) >= 0.0
  {
  }

  lemma RoundingSpread(x: real, y: real, d: real)
    requires -d <= x - y <= d
    ensures -(d + 1.0) <= (Round(x) - Round(y)) as real <= d + 1.0
  {
  }

  lemma ClampBringsCloser(x: int, y: int, limit: int)
    ensures -(if x > y then x - y else y - x) <= RtCycle.Clamp(x, limit) - RtCycle.Clamp(y, limit) <= (if x > y then x - y else y - x)
  {
  }

  /** From one cycle to the next the command that goes to the drive stays within the speed limit and changes by at
      most the allowed step and one, through rounding and clamping, even when the target has changed. */
  lemma CommandChangesSlowly(current: real, target: int, accel: int, maxRpm: int, dtNs: int)
    requires accel > 0 && dtNs >= 0
    ensures var c := CsvCommand(NoWave, target, accel, maxRpm, current, dtNs);
            -(MaxStep(accel as real, dtNs) + 1.0) <= (c.rpm - RtCycle.Clamp(Round(current), maxRpm)) as real <= MaxStep(accel as real, dtNs) + 1.0
            && (maxRpm >= 0 ==> -maxRpm <= c.rpm <= maxRpm) && (maxRpm < 0 ==> c.rpm == 0)
  {
    var f := SlewLimit(current, target as real, accel as real, dtNs);
    StepIsTowards(current, target as real, accel as real, dtNs);
    RoundingSpread(f, current, MaxStep(accel as real, dtNs));
    ClampBringsCloser(Round(f), Round(current), maxRpm);
  }

  /** A waveform, and a target without a limit on the acceleration, reach the drive at once, cut to the speed limit. */
  lemma CommandAtOnce(wave: Wave, target: int, accel: int, maxRpm: int, current: real, dtNs: int, rpm: int)
    requires if wave.Wave? then rpm == wave.rpm else rpm == target && accel <= 0
    ensures var c := CsvCommand(wave, target, accel, maxRpm, current, dtNs);
      && c.filtered == rpm as real
      && c.rpm == if maxRpm < 0 then 0 else if rpm < -maxRpm then -maxRpm else if rpm > maxRpm then maxRpm else rpm
  {
    assert Round(rpm as real) == rpm;
  }

  // ----- whole runs -----

  /** The filtered speed after n cycles */
  function Filtered(start: real, target: int, accel: int, dts: seq<nat>, n: nat): real
    requires n <= |dts|
  {
    if n == 0 then start else CsvCommand(NoWave, target, accel, 0, Filtered(start, target, accel, dts, n - 1), dts[n - 1]).filtered
  }

  function Elapsed(dts: seq<nat>, n: nat): nat
    requires n <= |dts|
  {
    if n == 0 then 0 else Elapsed(dts, n - 1) + dts[n - 1]
  }

  lemma StepsAdd(accel: real, a: int, b: int)
    ensures MaxStep(accel, a + b) == MaxStep(accel, a) + MaxStep(accel, b)
  {
    assert (a + b) as real / NS_PER_S == a as real / NS_PER_S + b as real / NS_PER_S;
  }

  /** Main result, the whole run in closed form: the speed lies on a straight line from its start towards the
      target and stays there once it has arrived, however the time is cut into cycles. */
  lemma {:induction false} RunIsRamp(start: real, target: int, accel: int, dts: seq<nat>, n: nat)
    requires accel > 0 && n <= |dts|
    ensures var way := MaxStep(accel as real, Elapsed(dts, n));
            Filtered(start, target, accel, dts, n)
            == if start <= target as real then Min(start + way, target as real) else Max(start - way, target as real)
  {
    if n > 0 {
      RunIsRamp(start, target, accel, dts, n - 1);
      StepsAdd(accel as real, Elapsed(dts, n - 1), dts[n - 1]);
      StepIsNotNegative(accel as real, Elapsed(dts, n - 1));
      StepIsNotNegative(accel as real, dts[n - 1]);
    }
  }

  lemma StepsGrow(accel: real, a: nat, b: nat)
    requires accel >= 0.0 && a <= b
    ensures MaxStep(accel, a) <= MaxStep(accel, b)
  {
    StepsAdd(accel, a, b - a);
    StepIsNotNegative(accel, b - a);
  }

  lemma {:induction false} ElapsedGrows(dts: seq<nat>, m: nat, n: nat)
    requires m <= n <= |dts|
    ensures Elapsed(dts, m) <= Elapsed(dts, n)
  {
    if m < n {
      ElapsedGrows(dts, m, n - 1);
    }
  }

  /** The target is reached exactly when the time passed covers the gap; the approach is monotone, there is no
      overshoot, and a target once reached is kept. */
  lemma ReachedIffTimeCoversGap(start: real, target: int, accel: int, dts: seq<nat>, m: nat, n: nat)
    requires accel > 0 && m <= n <= |dts|
    ensures var gap := if start <= target as real then target as real - start else start - target as real;
            Filtered(start, target, accel, dts, n) == target as real <==> MaxStep(accel as real, Elapsed(dts, n)) >= gap
    ensures var f, g, t := Filtered(start, target, accel, dts, m), Filtered(start, target, accel, dts, n), target as real;
            (start <= t ==> start <= f <= g <= t) && (start >= t ==> start >= f >= g >= t) && (f == t ==> g == t)
  {
    RunIsRamp(start, target, accel, dts, m);
    RunIsRamp(start, target, accel, dts, n);
    ElapsedGrows(dts, m, n);
    StepsGrow(accel as real, Elapsed(dts, m), Elapsed(dts, n));
    StepIsNotNegative(accel as real, Elapsed(dts, m));
  }

  /** In the end the command is the target itself, cut to the speed limit. */
  lemma EndsAtTarget(start: real, target: int, accel: int, maxRpm: int, dts: seq<nat>, n: nat)
    requires accel > 0 && 0 < n <= |dts| && Filtered(start, target, accel, dts, n) == target as real
    ensures CsvCommand(NoWave, target, accel, maxRpm, Filtered(start, target, accel, dts, n - 1), dts[n - 1]).rpm == RtCycle.Clamp(target, maxRpm)
  {
    var f := Filtered(start, target, accel, dts, n);
    assert Round(f) == target;
  }
}
