/**
 The vibration controller (haptics/vibration_controller.h): rate-limited ramps of intensity and
 frequency with clamps and a dead zone. Floats are modelled by reals, the clock by a parameter.
 */
module Vibration {
  const INTENSITY_RAMP_RATE: real := 1.0
  const FREQUENCY_RAMP_RATE: real := 50.0

  function Clamp(x: real, lo: real, hi: real): (r: real)
    requires lo <= hi
    ensures lo <= r <= hi && (lo <= x <= hi ==> r == x)
  {
    if x < lo then lo else if x > hi then hi else x
  }

  function Interpolate(current: real, target: real, rampRate: real, deltaTime: real): real
    requires rampRate * deltaTime >= 0.0
  {
    var maxChange := rampRate * deltaTime;
    current + Clamp(target - current, -maxChange, maxChange)
  }

  datatype Motor = Motor(intensity: real, frequency: real, targetIntensity: real, targetFrequency: real,
                         minFrequency: real, maxFrequency: real, deadzone: real)
  {
    function SetIntensity(x: real): Motor {
      this.(targetIntensity := Clamp(x, 0.0, 1.0))
    }

    function SetFrequency(x: real): Motor
      requires minFrequency <= maxFrequency
    {
      this.(targetFrequency := Clamp(x, minFrequency, maxFrequency))
    }

    function Calibrate(minF: real, maxF: real, dead: real): Motor {
      this.(minFrequency := minF, maxFrequency := maxF, deadzone := dead)
    }

    function Update(dt: real): Motor
      requires dt >= 0.0
    {
      var i := Interpolate(intensity, targetIntensity, INTENSITY_RAMP_RATE, dt);
      var f := Interpolate(frequency, targetFrequency, FREQUENCY_RAMP_RATE, dt);
      var g := if f < minFrequency then minFrequency else f;
      this.(intensity := if i < deadzone then 0.0 else i,
            frequency := if g > maxFrequency then maxFrequency else g)
    }

    function Stop(dt: real): Motor
      requires dt >= 0.0 && minFrequency <= maxFrequency
    {
      SetIntensity(0.0).SetFrequency(minFrequency).Update(dt)
    }

    ghost predicate Calibrated() {
      minFrequency <= maxFrequency
    }

    /** Where the frequency is headed: the target, as far as the calibration allows. */
    function Goal(): real
      requires minFrequency <= maxFrequency
    {
      Clamp(targetFrequency, minFrequency, maxFrequency)
    }
  }

  function Distance(x: real, y: real): real {
    if x <= y then y - x else x - y
  }

  /** x moved towards the goal by at most d. */
  function Approach(x: real, goal: real, d: real): (r: real)
    requires d >= 0.0
    ensures r == goal <==> Distance(x, goal) <= d
    ensures x <= goal ==> x <= r <= goal
    ensures goal <= x ==> goal <= r <= x
    ensures Distance(x, goal) > d ==> Distance(r, goal) == Distance(x, goal) - d
  {
    if goal > x + d then x + d else if goal < x - d then x - d else goal
  }

  function Elapsed(dts: seq<real>): (t: real)
    requires forall i | 0 <= i < |dts| :: dts[i] >= 0.0
    ensures t >= 0.0
  {
    if dts == [] then 0.0 else dts[0] + Elapsed(dts[1..])
  }

  function Updates(m: Motor, dts: seq<real>): Motor
    requires forall i | 0 <= i < |dts| :: dts[i] >= 0.0
    decreases |dts|
  {
    if dts == [] then m else Updates(m.Update(dts[0]), dts[1..])
  }

  lemma ApproachTwice(x: real, goal: real, a: real, b: real)
    requires a >= 0.0 && b >= 0.0
    ensures Approach(Approach(x, goal, a), goal, b) == Approach(x, goal, a + b)
  {
  }

  // ----- frequency

  lemma UpdateFrequency(m: Motor, dt: real)
    requires m.Calibrated() && dt >= 0.0
    ensures var n := m.Update(dt);
            && m.minFrequency <= n.frequency <= m.maxFrequency
            && (m.minFrequency <= m.frequency <= m.maxFrequency ==>
                  n.frequency == Approach(m.frequency, m.Goal(), FREQUENCY_RAMP_RATE * dt))
            && (Distance(m.frequency, m.Goal()) <= FREQUENCY_RAMP_RATE * dt ==> n.frequency == m.Goal())
            && (Distance(m.frequency, m.Goal()) > FREQUENCY_RAMP_RATE * dt ==>
                  Distance(n.frequency, m.Goal()) <= Distance(m.frequency, m.Goal()) - FREQUENCY_RAMP_RATE * dt)
            && (m.frequency <= m.Goal() ==> n.frequency <= m.Goal())
            && (m.frequency >= m.Goal() ==> n.frequency >= m.Goal())
  {
  }

  /**
   From a frequency in range, any updates move it straight towards the goal by 50 Hz per elapsed
   second, however the time is divided up. So it never overshoots, and has arrived exactly when
   the elapsed time is at least the distance over 50.
   */
  lemma {:induction false} FrequencyFollowsElapsedTime(m: Motor, dts: seq<real>)
    requires m.Calibrated() && m.minFrequency <= m.frequency <= m.maxFrequency
    requires forall i | 0 <= i < |dts| :: dts[i] >= 0.0
    ensures var f := Updates(m, dts).frequency;
            && f == Approach(m.frequency, m.Goal(), FREQUENCY_RAMP_RATE * Elapsed(dts))
            && (f == m.Goal() <==> Distance(m.frequency, m.Goal()) <= FREQUENCY_RAMP_RATE * Elapsed(dts))
    decreases |dts|
  {
    if dts == [] {
    } else {
      UpdateFrequency(m, dts[0]);
      FrequencyFollowsElapsedTime(m.Update(dts[0]), dts[1..]);
      ApproachTwice(m.frequency, m.Goal(), FREQUENCY_RAMP_RATE * dts[0], FREQUENCY_RAMP_RATE * Elapsed(dts[1..]));
    }
  }

  /** From any start, in range or not, the frequency has arrived by then, and never passes the goal. */
  lemma {:induction false} FrequencyConverges(m: Motor, dts: seq<real>)
    requires m.Calibrated() && dts != [] && forall i | 0 <= i < |dts| :: dts[i] >= 0.0
    ensures var f := Updates(m, dts).frequency;
            && (Distance(m.frequency, m.Goal()) <= FREQUENCY_RAMP_RATE * Elapsed(dts) ==> f == m.Goal())
            && (m.frequency <= m.Goal() ==> f <= m.Goal())
            && (m.frequency >= m.Goal() ==> f >= m.Goal())
            && m.minFrequency <= f <= m.maxFrequency
  {
    UpdateFrequency(m, dts[0]);
    FrequencyFollowsElapsedTime(m.Update(dts[0]), dts[1..]);
  }

  // ----- intensity

  ghost predicate IntensityInRange(m: Motor) {
    0.0 <= m.intensity <= 1.0 && 0.0 <= m.targetIntensity <= 1.0
  }

  lemma UpdateIntensity(m: Motor, dt: real)
    requires IntensityInRange(m) && dt >= 0.0
    ensures var n := m.Update(dt);
            && IntensityInRange(n)
            && (n.intensity == 0.0 || m.deadzone <= n.intensity <= 1.0)
            && n.intensity == (var i := Approach(m.intensity, m.targetIntensity, dt); if i < m.deadzone then 0.0 else i)
  {
  }

  lemma {:induction false} UpdatesAppend(m: Motor, dts: seq<real>, k: nat)
    requires k < |dts| && forall i | 0 <= i < |dts| :: dts[i] >= 0.0
    ensures Updates(m, dts[..k + 1]) == Updates(m, dts[..k]).Update(dts[k])
    decreases |dts|
  {
    if k == 0 {
    } else {
      UpdatesAppend(m.Update(dts[0]), dts[1..], k - 1);
      assert dts[..k + 1][1..] == dts[1..][..k] && dts[..k][1..] == dts[1..][..k - 1];
    }
  }

  /** The target is inside the dead zone, or the step is too short to clear it, or one of them is 0. */
  predicate TooShort(m: Motor, dt: real) {
    m.targetIntensity < m.deadzone || dt < m.deadzone || m.targetIntensity == 0.0 || dt == 0.0
  }

  lemma UpdateFromRest(m: Motor, dt: real)
    requires IntensityInRange(m) && m.intensity == 0.0 && dt >= 0.0
    ensures m.Update(dt).intensity == 0.0 <==> TooShort(m, dt)
  {
    UpdateIntensity(m, dt);
  }

  lemma {:induction false} StaysAtRest(m: Motor, dts: seq<real>)
    requires IntensityInRange(m) && m.intensity == 0.0
    requires forall i | 0 <= i < |dts| :: dts[i] >= 0.0 && TooShort(m, dts[i])
    ensures var n := Updates(m, dts);
            n.intensity == 0.0 && n.targetIntensity == m.targetIntensity && n.deadzone == m.deadzone
    decreases |dts|
  {
    if dts == [] {
    } else {
      UpdateFromRest(m, dts[0]);
      StaysAtRest(m.Update(dts[0]), dts[1..]);
    }
  }

  lemma {:induction false} FirstLong(m: Motor, dts: seq<real>) returns (k: nat)
    requires exists j :: 0 <= j < |dts| && !TooShort(m, dts[j])
    ensures k < |dts| && !TooShort(m, dts[k]) && forall j | 0 <= j < k :: TooShort(m, dts[j])
  {
    if !TooShort(m, dts[0]) {
      k := 0;
    } else {
      var j :| 0 <= j < |dts| && !TooShort(m, dts[j]);
      assert !TooShort(m, dts[1..][j - 1]);
      k := FirstLong(m, dts[1..]);
      k := k + 1;
    }
  }

  /**
   From rest, the intensity stays at zero through all updates exactly when each single step is too
   short to clear the dead zone, or the target is inside it: elapsed time does not add up. A dead
   zone of 0 or less is cleared by any step at all.
   */
  lemma RestExactlyWithoutALongStep(m: Motor, dts: seq<real>)
    requires IntensityInRange(m) && m.intensity == 0.0
    requires forall i | 0 <= i < |dts| :: dts[i] >= 0.0
    ensures (forall k | 0 <= k <= |dts| :: Updates(m, dts[..k]).intensity == 0.0) <==>
            forall k | 0 <= k < |dts| :: TooShort(m, dts[k])
  {
    if forall k | 0 <= k < |dts| :: TooShort(m, dts[k]) {
      forall k | 0 <= k <= |dts| ensures Updates(m, dts[..k]).intensity == 0.0 { StaysAtRest(m, dts[..k]); }
    } else {
      var k := FirstLong(m, dts);
      StaysAtRest(m, dts[..k]);
      UpdatesAppend(m, dts, k);
      UpdateFromRest(Updates(m, dts[..k]), dts[k]);
      assert Updates(m, dts[..k + 1]).intensity != 0.0;
    }
  }

  /** Clear of the dead zone, and with the target clear of it, the ramp does follow elapsed time. */
  lemma {:induction false} IntensityFollowsElapsedTime(m: Motor, dts: seq<real>)
    requires IntensityInRange(m) && m.deadzone <= m.intensity && m.deadzone <= m.targetIntensity
    requires forall i | 0 <= i < |dts| :: dts[i] >= 0.0
    ensures Updates(m, dts).intensity == Approach(m.intensity, m.targetIntensity, Elapsed(dts))
    decreases |dts|
  {
    if dts == [] {
    } else {
      UpdateIntensity(m, dts[0]);
      IntensityFollowsElapsedTime(m.Update(dts[0]), dts[1..]);
      ApproachTwice(m.intensity, m.targetIntensity, dts[0], Elapsed(dts[1..]));
    }
  }

  // ----- reaching what was set

  /** What the dead zone leaves of an intensity. */
  function Felt(i: real, deadzone: real): real {
    if i < deadzone then 0.0 else i
  }

  /** With a target of 0 the intensity falls by 1 per second, and to 0 as soon as it is in the dead zone. */
  lemma {:induction false} IntensityDecays(m: Motor, dts: seq<real>)
    requires IntensityInRange(m) && m.targetIntensity == 0.0 && dts != []
    requires forall i | 0 <= i < |dts| :: dts[i] >= 0.0
    ensures Updates(m, dts).intensity == Felt(Approach(m.intensity, 0.0, Elapsed(dts)), m.deadzone)
    decreases |dts|
  {
    var n := m.Update(dts[0]);
    UpdateIntensity(m, dts[0]);
    if |dts| == 1 {
      assert dts[1..] == [];
    } else {
      IntensityDecays(n, dts[1..]);
      ApproachTwice(m.intensity, 0.0, dts[0], Elapsed(dts[1..]));
    }
  }

  /**
   After a stop the intensity has gone exactly once the time since, or that time plus the dead zone,
   makes up for it: one second is always enough. The frequency goes down to its minimum by 50 Hz
   per second.
   */
  lemma StopEndsAtRest(m: Motor, dt: real, dts: seq<real>)
    requires IntensityInRange(m) && m.Calibrated() && dt >= 0.0 && forall i | 0 <= i < |dts| :: dts[i] >= 0.0
    ensures var r, t := Updates(m.Stop(dt), dts), dt + Elapsed(dts);
            && (r.intensity == 0.0 <==> m.intensity <= t || m.intensity < t + m.deadzone)
            && (t >= 1.0 ==> r.intensity == 0.0)
            && (Distance(m.frequency, m.minFrequency) <= 50.0 * t ==> r.frequency == m.minFrequency)
  {
    var s := m.SetIntensity(0.0).SetFrequency(m.minFrequency);
    var all := [dt] + dts;
    assert all[0] == dt && all[1..] == dts;
    assert Updates(s, all) == Updates(m.Stop(dt), dts) && Elapsed(all) == dt + Elapsed(dts);
    IntensityDecays(s, all);
    FrequencyConverges(s, all);
  }

  /** A frequency set within the range is reached exactly once 50 Hz per elapsed second make up the way there. */
  lemma SetFrequencyIsReached(m: Motor, f: real, dts: seq<real>)
    requires m.Calibrated() && m.minFrequency <= m.frequency <= m.maxFrequency
    requires m.minFrequency <= f <= m.maxFrequency && forall i | 0 <= i < |dts| :: dts[i] >= 0.0
    ensures Updates(m.SetFrequency(f), dts).frequency == f <==> Distance(m.frequency, f) <= 50.0 * Elapsed(dts)
  {
    FrequencyFollowsElapsedTime(m.SetFrequency(f), dts);
  }

  /** So is an intensity, at 1 per second, between values clear of the dead zone. */
  lemma SetIntensityIsReached(m: Motor, x: real, dts: seq<real>)
    requires IntensityInRange(m) && m.deadzone <= m.intensity && m.deadzone <= x && 0.0 <= x <= 1.0
    requires forall i | 0 <= i < |dts| :: dts[i] >= 0.0
    ensures Updates(m.SetIntensity(x), dts).intensity == x <==> Distance(m.intensity, x) <= Elapsed(dts)
  {
    IntensityFollowsElapsedTime(m.SetIntensity(x), dts);
  }

  /** A target out of range counts as the nearest one in range. */
  lemma TargetsAreClamped(m: Motor, x: real)
    requires m.Calibrated()
    ensures x < 0.0 ==> m.SetIntensity(x) == m.SetIntensity(0.0)
    ensures x > 1.0 ==> m.SetIntensity(x) == m.SetIntensity(1.0)
    ensures x < m.minFrequency ==> m.SetFrequency(x) == m.SetFrequency(m.minFrequency)
    ensures x > m.maxFrequency ==> m.SetFrequency(x) == m.SetFrequency(m.maxFrequency)
  {
  }

  /** A calibration moves nothing by itself, and binds every update after it. */
  lemma CalibrationTakesHold(m: Motor, lo: real, hi: real, dead: real, dt: real)
    requires IntensityInRange(m) && lo <= hi && dt >= 0.0
    ensures var c := m.Calibrate(lo, hi, dead);
            && c.intensity == m.intensity && c.targetIntensity == m.targetIntensity
            && c.frequency == m.frequency && c.targetFrequency == m.targetFrequency
            && lo <= c.Update(dt).frequency <= hi
            && (c.Update(dt).intensity == 0.0 || dead <= c.Update(dt).intensity)
  {
    UpdateIntensity(m.Calibrate(lo, hi, dead), dt);
  }

  // ----- whole runs

  datatype Op = Intensity(x: real) | Frequency(x: real) | Calibration(minF: real, maxF: real, dead: real)
              | Tick(dt: real) | Halt(dt: real)

  /** What the operation demands: a clamp needs ordered bounds, and the clock does not run backwards. */
  predicate Allowed(m: Motor, op: Op) {
    match op
    case Intensity(_) => true
    case Frequency(_) => m.minFrequency <= m.maxFrequency
    case Calibration(_, _, _) => true
    case Tick(dt) => dt >= 0.0
    case Halt(dt) => dt >= 0.0 && m.minFrequency <= m.maxFrequency
  }

  function Step(m: Motor, op: Op): Motor
    requires Allowed(m, op)
  {
    match op
    case Intensity(x) => m.SetIntensity(x)
    case Frequency(x) => m.SetFrequency(x)
    case Calibration(minF, maxF, dead) => m.Calibrate(minF, maxF, dead)
    case Tick(dt) => m.Update(dt)
    case Halt(dt) => m.Stop(dt)
  }

  ghost predicate IsRun(states: seq<Motor>, ops: seq<Op>) {
    && |states| == |ops| + 1
    && forall i | 0 <= i < |ops| :: Allowed(states[i], ops[i]) && states[i + 1] == Step(states[i], ops[i])
  }

  /** A motor at rest, with the default calibration. */
  const INITIAL := Motor(0.0, 0.0, 0.0, 0.0, 20.0, 200.0, 0.05)

  /**
   In any run of the controller, with targets set and the motor recalibrated at will: after every
   update the intensity is 0 or between the dead zone and 1, and the frequency is in range.
   */
  lemma {:induction false} EveryRunIsSafe(states: seq<Motor>, ops: seq<Op>, k: nat)
    requires IsRun(states, ops) && IntensityInRange(states[0]) && k < |states|
    ensures IntensityInRange(states[k])
    ensures k > 0 && (ops[k - 1].Tick? || ops[k - 1].Halt?) ==>
              && (states[k].intensity == 0.0 || states[k].deadzone <= states[k].intensity <= 1.0)
              && (states[k].Calibrated() ==>
                    states[k].minFrequency <= states[k].frequency <= states[k].maxFrequency)
  {
    if k == 0 {
    } else {
      EveryRunIsSafe(states, ops, k - 1);
      var m, op := states[k - 1], ops[k - 1];
      assert Allowed(m, op) && states[k] == Step(m, op);
      match op {
        case Tick(dt) => UpdateIntensity(m, dt);
        case Halt(dt) => UpdateIntensity(m.SetIntensity(0.0).SetFrequency(m.minFrequency), dt);
        case _ =>
      }
    }
  }

  lemma {:induction false} RunKeepsCalibration(states: seq<Motor>, ops: seq<Op>, k: nat)
    requires IsRun(states, ops) && k < |states| && forall i | 0 <= i < |ops| :: !ops[i].Calibration?
    ensures states[k].minFrequency == states[0].minFrequency && states[k].maxFrequency == states[0].maxFrequency
    ensures states[k].deadzone == states[0].deadzone
  {
    if k == 0 {
    } else {
      RunKeepsCalibration(states, ops, k - 1);
      assert Allowed(states[k - 1], ops[k - 1]) && states[k] == Step(states[k - 1], ops[k - 1]);
    }
  }

  /** A new motor that is never recalibrated runs between 20 and 200 Hz, at intensity 0 or at least 0.05. */
  lemma DefaultRunIsSafe(states: seq<Motor>, ops: seq<Op>, k: nat)
    requires IsRun(states, ops) && states[0] == INITIAL && forall i | 0 <= i < |ops| :: !ops[i].Calibration?
    requires 0 < k < |states| && (ops[k - 1].Tick? || ops[k - 1].Halt?)
    ensures 20.0 <= states[k].frequency <= 200.0
    ensures states[k].intensity == 0.0 || 0.05 <= states[k].intensity <= 1.0
  {
    EveryRunIsSafe(states, ops, k);
    RunKeepsCalibration(states, ops, k);
  }

  lemma {:induction false} SilentStaysSilent(m: Motor, dts: seq<real>)
    requires m == INITIAL.(frequency := 20.0) && forall i | 0 <= i < |dts| :: dts[i] >= 0.0
    ensures Updates(m, dts) == m
    decreases |dts|
  {
    if dts == [] {
    } else {
      SilentStaysSilent(m.Update(dts[0]), dts[1..]);
    }
  }

  /** A new motor that is only updated stays silent, and goes to 20 Hz at the first update. */
  lemma UntouchedMotorIsSilent(dts: seq<real>)
    requires dts != [] && forall i | 0 <= i < |dts| :: dts[i] >= 0.0
    ensures var m := Updates(INITIAL, dts); m.intensity == 0.0 && m.frequency == 20.0
  {
    SilentStaysSilent(INITIAL.Update(dts[0]), dts[1..]);
  }

  // ----- the controller itself

  class VibrationController {
    var currentIntensity: real
    var currentFrequency: real
    var targetIntensity: real
    var targetFrequency: real
    var lastUpdate: real
    var minFrequency: real
    var maxFrequency: real
    var intensityDeadzone: real

    ghost function View(): Motor
      reads this
    {
      Motor(currentIntensity, currentFrequency, targetIntensity, targetFrequency,
            minFrequency, maxFrequency, intensityDeadzone)
    }

    constructor (now: real)
      ensures View() == INITIAL && lastUpdate == now
    {
      currentIntensity, currentFrequency, targetIntensity, targetFrequency := 0.0, 0.0, 0.0, 0.0;
      minFrequency, maxFrequency, intensityDeadzone := 20.0, 200.0, 0.05;
      lastUpdate := now;
    }

    method SetIntensity(intensity: real)
      modifies this`targetIntensity
      ensures View() == old(View()).SetIntensity(intensity)
    {
      targetIntensity := Clamp(intensity, 0.0, 1.0);
    }

    method SetFrequency(frequency: real)
      requires minFrequency <= maxFrequency
      modifies this`targetFrequency
      ensures View() == old(View()).SetFrequency(frequency)
    {
      targetFrequency := Clamp(frequency, minFrequency, maxFrequency);
    }

    method Update(now: real)
      requires now >= lastUpdate
      modifies this`currentIntensity, this`currentFrequency, this`lastUpdate
      ensures View() == old(View()).Update(now - old(lastUpdate)) && lastUpdate == now
    {
      var deltaTime := now - lastUpdate;
      lastUpdate := now;
      currentIntensity := Interpolate(currentIntensity, targetIntensity, INTENSITY_RAMP_RATE, deltaTime);
      currentFrequency := Interpolate(currentFrequency, targetFrequency, FREQUENCY_RAMP_RATE, deltaTime);
      if currentIntensity < intensityDeadzone {
        currentIntensity := 0.0;
      }
      if currentFrequency < minFrequency {
        currentFrequency := minFrequency;
      }
      if currentFrequency > maxFrequency {
        currentFrequency := maxFrequency;
      }
    }

    method CalibrateMotor(minFreq: real, maxFreq: real, deadzone: real)
      modifies this`minFrequency, this`maxFrequency, this`intensityDeadzone
      ensures View() == old(View()).Calibrate(minFreq, maxFreq, deadzone)
    {
      minFrequency := minFreq;
      maxFrequency := maxFreq;
      intensityDeadzone := deadzone;
    }

    method Stop(now: real)
      requires now >= lastUpdate && minFrequency <= maxFrequency
      modifies this
      ensures View() == old(View()).Stop(now - old(lastUpdate)) && lastUpdate == now
    {
      SetIntensity(0.0);
      SetFrequency(minFrequency);
      Update(now);
    }
  }
}
