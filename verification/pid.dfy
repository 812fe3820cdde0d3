/**
 * The PID controller of firmware/src/core1/pid.rs, over the reals.
 *
 * `PidController` is the class; `Updated` and `Output` are the functions its `Update` is proved against.
 */
module PidControl {

  /** `f32::EPSILON`. */
  const EPSILON: real := 1.0 / 8388608.0

  datatype Pid = Pid(
    kp: real, ki: real, kd: real, integral: real, prevError: real, outputMin: real, outputMax: real)

  function Abs(x: real): real { if x < 0.0 then -x else x }

  /** `f32::clamp`, which panics unless `lo <= hi`. */
  function Clamp(x: real, lo: real, hi: real): (r: real)
    requires lo <= hi
    ensures lo <= r <= hi && (lo <= x <= hi ==> r == x)
  {
    if x < lo then lo else if x > hi then hi else x
  }

  function Times(x: real, y: real): real { x * y }

  predicate Clamps(p: Pid) { Abs(p.ki) > EPSILON }

  function WindupLimit(p: Pid): real
    requires Clamps(p)
  {
    p.outputMax / p.ki
  }

  /** Neither clamp panics. */
  predicate Usable(p: Pid) { p.outputMin <= p.outputMax && (Clamps(p) ==> WindupLimit(p) >= 0.0) }

  function Integrated(p: Pid, error: real, dt: real): real
    requires Usable(p)
  {
    var sum := p.integral + Times(error, dt);
    if Clamps(p) then Clamp(sum, -WindupLimit(p), WindupLimit(p)) else sum
  }

  function Derivative(p: Pid, error: real, dt: real): real {
    if dt > EPSILON then (error - p.prevError) / dt else 0.0
  }

  /** The controller after one update with `error == setpoint - measured`. */
  function Updated(p: Pid, error: real, dt: real): (q: Pid)
    requires Usable(p)
    ensures Usable(q)
  {
    p.(integral := Integrated(p, error, dt), prevError := error)
  }

  function Output(p: Pid, error: real, dt: real): (r: real)
    requires Usable(p)
    ensures p.outputMin <= r <= p.outputMax
  {
    Clamp(Times(p.kp, error) + Times(p.ki, Integrated(p, error, dt)) + Times(p.kd, Derivative(p, error, dt)),
      p.outputMin, p.outputMax)
  }

  function Fresh(p: Pid): Pid { p.(integral := 0.0, prevError := 0.0) }

  class PidController {
    var kp: real
    var ki: real
    var kd: real
    var integral: real
    var prevError: real
    var outputMin: real
    var outputMax: real

    ghost function Value(): Pid
      reads this
    {
      Pid(kp, ki, kd, integral, prevError, outputMin, outputMax)
    }

    constructor (kp: real, ki: real, kd: real, outputMin: real, outputMax: real)
      ensures Value() == Pid(kp, ki, kd, 0.0, 0.0, outputMin, outputMax)
    {
      this.kp, this.ki, this.kd := kp, ki, kd;
      this.outputMin, this.outputMax := outputMin, outputMax;
      integral, prevError := 0.0, 0.0;
    }

    method Update(setpoint: real, measured: real, dt: real) returns (output: real)
      requires Usable(Value())
      modifies this
      ensures Value() == Updated(old(Value()), setpoint - measured, dt)
      ensures output == Output(old(Value()), setpoint - measured, dt)
      ensures ObeysLaw(output, Value(), setpoint - measured, integral, old(prevError), dt)
    {
      ghost var p := Value();
      var error := setpoint - measured;
      integral := integral + Times(error, dt);
      if Abs(ki) > EPSILON {
        var windupLimit := outputMax / ki;
        integral := Clamp(integral, -windupLimit, windupLimit);
      }
      var derivative := if dt > EPSILON then (error - prevError) / dt else 0.0;
      prevError := error;
      output := Clamp(Times(kp, error) + Times(ki, integral) + Times(kd, derivative), outputMin, outputMax);
      OutputIsLaw(p, error, dt);
      LawCarriesOver(p, Value(), output, error, integral, p.prevError, dt);
    }

    method Reset()
      modifies this
      ensures Value() == Fresh(old(Value()))
    {
      integral := 0.0;
      prevError := 0.0;
    }
  }

  // ── Runs ──────────────────────────────────────────────────────────────────

  datatype Input = Step(error: real, dt: real) | Reset

  function Apply(p: Pid, i: Input): (q: Pid)
    requires Usable(p)
    ensures Usable(q)
  {
    match i
    case Step(error, dt) => Updated(p, error, dt)
    case Reset => Fresh(p)
  }

  function After(p: Pid, inputs: seq<Input>, n: nat): (q: Pid)
    requires Usable(p) && n <= |inputs|
    ensures Usable(q)
    ensures q.ki == p.ki && q.outputMax == p.outputMax && q.outputMin == p.outputMin
  {
    if n == 0 then p else Apply(After(p, inputs, n - 1), inputs[n - 1])
  }

  /** Anti-windup: in every run from rest, whatever the errors and time steps, |ki * integral| <= outputMax side. */
  lemma IntegralIsBounded(p: Pid, inputs: seq<Input>, n: nat)
    requires Usable(p) && Clamps(p) && p.integral == 0.0 && n <= |inputs|
    ensures Abs(After(p, inputs, n).integral) <= WindupLimit(p)
  {}

  /** How far apart two controllers' integrals are after the same inputs. */
  function Drift(p: Pid, q: Pid, inputs: seq<Input>, n: nat): real
    requires Usable(p) && Usable(q) && n <= |inputs|
  {
    Abs(After(p, inputs, n).integral - After(q, inputs, n).integral)
  }

  lemma {:induction false} DriftNeverGrows(p: Pid, q: Pid, inputs: seq<Input>, m: nat, n: nat)
    requires Usable(p) && Usable(q) && p.ki == q.ki && p.outputMax == q.outputMax
    requires m <= n <= |inputs|
    ensures Drift(p, q, inputs, n) <= Drift(p, q, inputs, m)
  {
    if n > m {
      DriftNeverGrows(p, q, inputs, m, n - 1);
      var a, b := After(p, inputs, n - 1), After(q, inputs, n - 1);
      match inputs[n - 1]
      case Reset =>
      case Step(error, dt) =>
        ClampContracts(a.integral, b.integral, Times(error, dt), if Clamps(p) then WindupLimit(p) else 0.0);
    }
  }

  lemma ClampContracts(x: real, y: real, d: real, limit: real)
    requires limit >= 0.0
    ensures Abs(Clamp(x + d, -limit, limit) - Clamp(y + d, -limit, limit)) <= Abs(x - y)
    ensures Abs((x + d) - (y + d)) == Abs(x - y)
  {}

  // ── The control law ───────────────────────────────────────────────────────

  /** The sum of error times time step over the first `n` inputs, since the last reset. */
  function ErrorSum(inputs: seq<Input>, n: nat): real
    requires n <= |inputs|
  {
    if n == 0 then 0.0
    else
      match inputs[n - 1]
      case Reset => 0.0
      case Step(error, dt) => ErrorSum(inputs, n - 1) + error * dt
  }

  /** The same sum, brought back within +-`limit` after every update. */
  function LimitedSum(inputs: seq<Input>, n: nat, limit: real): real
    requires n <= |inputs|
  {
    if n == 0 then 0.0
    else
      match inputs[n - 1]
      case Reset => 0.0
      case Step(error, dt) => Limited(LimitedSum(inputs, n - 1, limit) + error * dt, -limit, limit)
  }

  /** `Clamp` in full, for any two limits. */
  function Limited(x: real, lo: real, hi: real): real { if x < lo then lo else if x > hi then hi else x }

  /** The error of the last update, zero at rest. */
  function LastError(inputs: seq<Input>, n: nat): real
    requires n <= |inputs|
  {
    if n == 0 || inputs[n - 1].Reset? then 0.0 else inputs[n - 1].error
  }

  /** The sum an integral stands for: limited if the gain is not negligible. */
  function SumOf(p: Pid, inputs: seq<Input>, n: nat): real
    requires n <= |inputs|
  {
    if p.ki > EPSILON || p.ki < -EPSILON then LimitedSum(inputs, n, p.outputMax / p.ki) else ErrorSum(inputs, n)
  }

  /** kp times the error, ki times the sum of the errors, kd times the slope of the error. */
  function ControlLaw(p: Pid, error: real, sum: real, last: real, dt: real): real {
    p.kp * error + p.ki * sum + (if dt > EPSILON then p.kd * ((error - last) / dt) else 0.0)
  }

  lemma AddsProduct(x: real, y: real, z: real)
    ensures x + Times(y, z) == x + y * z
  {}

  lemma {:induction false} IntegralIsSum(p: Pid, inputs: seq<Input>, n: nat)
    requires Usable(p) && p.integral == 0.0 && p.prevError == 0.0 && n <= |inputs|
    ensures After(p, inputs, n).integral == SumOf(p, inputs, n)
    ensures After(p, inputs, n).prevError == LastError(inputs, n)
    ensures After(p, inputs, n).kp == p.kp && After(p, inputs, n).kd == p.kd
  {
    if n > 0 {
      IntegralIsSum(p, inputs, n - 1);
      if inputs[n - 1].Step? {
        AddsProduct(After(p, inputs, n - 1).integral, inputs[n - 1].error, inputs[n - 1].dt);
      }
    }
  }

  /** `output` is the control law, brought between the output limits. */
  predicate ObeysLaw(output: real, p: Pid, error: real, sum: real, last: real, dt: real) {
    output == Limited(ControlLaw(p, error, sum, last, dt), p.outputMin, p.outputMax)
  }

  lemma LawOfGains(p: Pid, q: Pid, error: real, sum: real, last: real, dt: real)
    requires p.kp == q.kp && p.ki == q.ki && p.kd == q.kd
    ensures ControlLaw(p, error, sum, last, dt) == ControlLaw(q, error, sum, last, dt)
  {}

  lemma LawTerms(p: Pid, error: real, sum: real, dt: real)
    ensures Times(p.kp, error) + Times(p.ki, sum) + Times(p.kd, Derivative(p, error, dt))
      == ControlLaw(p, error, sum, p.prevError, dt)
  {}

  lemma ClampIsLimited(x: real, lo: real, hi: real)
    requires lo <= hi
    ensures Clamp(x, lo, hi) == Limited(x, lo, hi)
  {}

  /** One update's output in terms of the integral it leaves: the law, between the output limits. */
  lemma OutputIsLaw(p: Pid, error: real, dt: real)
    requires Usable(p)
    ensures ObeysLaw(Output(p, error, dt), p, error, Updated(p, error, dt).integral, p.prevError, dt)
  {
    var sum := Integrated(p, error, dt);
    LawTerms(p, error, sum, dt);
    ClampIsLimited(ControlLaw(p, error, sum, p.prevError, dt), p.outputMin, p.outputMax);
  }

  /** The same, with the gains and limits of another controller that has them too. */
  lemma LawCarriesOver(p: Pid, q: Pid, output: real, error: real, sum: real, last: real, dt: real)
    requires ObeysLaw(output, p, error, sum, last, dt)
    requires p.kp == q.kp && p.ki == q.ki && p.kd == q.kd && p.outputMin == q.outputMin && p.outputMax == q.outputMax
    ensures ObeysLaw(output, q, error, sum, last, dt)
  {
    LawOfGains(p, q, error, sum, last, dt);
  }

  /**
   * The output of the update after the first `n` inputs of any run from rest: the control law of the errors
   * so far, with the limited sum, between the output limits.
   */
  lemma OutputInRuns(p: Pid, inputs: seq<Input>, n: nat)
    requires Usable(p) && p.integral == 0.0 && p.prevError == 0.0 && n < |inputs| && inputs[n].Step?
    ensures
      var (error, dt) := (inputs[n].error, inputs[n].dt);
      ObeysLaw(Output(After(p, inputs, n), error, dt), p, error, SumOf(p, inputs, n + 1), LastError(inputs, n), dt)
  {
    var q, error, dt := After(p, inputs, n), inputs[n].error, inputs[n].dt;
    IntegralIsSum(p, inputs, n);
    IntegralIsSum(p, inputs, n + 1);
    OutputIsLaw(q, error, dt);
    LawCarriesOver(q, p, Output(q, error, dt), error, SumOf(p, inputs, n + 1), LastError(inputs, n), dt);
  }

  /** The integral limit is not reached in the first `n` inputs. */
  ghost predicate WithinLimit(inputs: seq<Input>, n: nat, limit: real)
    requires n <= |inputs|
  {
    forall k :: 0 <= k <= n ==> -limit <= ErrorSum(inputs, k) <= limit
  }

  lemma {:induction false} LimitUnused(inputs: seq<Input>, n: nat, limit: real)
    requires n <= |inputs| && WithinLimit(inputs, n, limit)
    ensures LimitedSum(inputs, n, limit) == ErrorSum(inputs, n)
  {
    if n > 0 {
      LimitUnused(inputs, n - 1, limit);
      assert -limit <= ErrorSum(inputs, n) <= limit;
    }
  }

  /** While neither limit engages it is the law with the plain sum. */
  lemma PlainLaw(p: Pid, inputs: seq<Input>, n: nat)
    requires Usable(p) && p.integral == 0.0 && p.prevError == 0.0 && n < |inputs| && inputs[n].Step?
    requires Clamps(p) ==> WithinLimit(inputs, n + 1, p.outputMax / p.ki)
    requires p.outputMin
      <= ControlLaw(p, inputs[n].error, ErrorSum(inputs, n + 1), LastError(inputs, n), inputs[n].dt) <= p.outputMax
    ensures Output(After(p, inputs, n), inputs[n].error, inputs[n].dt)
      == ControlLaw(p, inputs[n].error, ErrorSum(inputs, n + 1), LastError(inputs, n), inputs[n].dt)
  {
    OutputInRuns(p, inputs, n);
    if Clamps(p) {
      LimitUnused(inputs, n + 1, p.outputMax / p.ki);
    }
  }

  // ── Constant error ────────────────────────────────────────────────────────

  /** `n` updates with one error and time step. */
  function Repeated(p: Pid, error: real, dt: real, n: nat): (q: Pid)
    requires Usable(p)
    ensures Usable(q) && q.ki == p.ki && q.outputMax == p.outputMax
  {
    if n == 0 then p else Updated(Repeated(p, error, dt, n - 1), error, dt)
  }

  function RepeatedSum(x: real, d: real, limit: real, n: nat): real
    requires limit >= 0.0
  {
    if n == 0 then x else Clamp(RepeatedSum(x, d, limit, n - 1) + d, -limit, limit)
  }

  lemma ClampAgain(x: real, y: real, d: real, limit: real)
    requires limit >= 0.0 && y == Clamp(x, -limit, limit)
    requires (d <= 0.0 && x <= limit) || (d >= 0.0 && x >= -limit)
    ensures Clamp(y + d, -limit, limit) == Clamp(x + d, -limit, limit)
  {}

  lemma Multiples(n: nat, d: real)
    ensures Times((n + 1) as real, d) == Times(n as real, d) + d
    ensures Times(0.0, d) == 0.0
    ensures d >= 0.0 ==> Times(n as real, d) >= 0.0
    ensures d <= 0.0 ==> Times(n as real, d) <= 0.0
  {}

  lemma {:induction false} RepeatedSumClosedForm(x: real, d: real, limit: real, n: nat)
    requires limit >= 0.0 && -limit <= x <= limit
    ensures RepeatedSum(x, d, limit, n) == Clamp(x + Times(n as real, d), -limit, limit)
  {
    Multiples(0, d);
    if n > 0 {
      RepeatedSumClosedForm(x, d, limit, n - 1);
      Multiples(n - 1, d);
      ClampAgain(x + Times((n - 1) as real, d), RepeatedSum(x, d, limit, n - 1), d, limit);
    }
  }

  lemma {:induction false} RepeatedIsSum(p: Pid, error: real, dt: real, n: nat)
    requires Usable(p) && Clamps(p)
    ensures Repeated(p, error, dt, n).integral == RepeatedSum(p.integral, Times(error, dt), WindupLimit(p), n)
  {
    if n > 0 {
      RepeatedIsSum(p, error, dt, n - 1);
    }
  }

  /** Closed form: however often the limit was hit on the way, `n` updates clamp once. */
  lemma ConstantErrorClosedForm(p: Pid, error: real, dt: real, n: nat)
    requires Usable(p) && Clamps(p) && Abs(p.integral) <= WindupLimit(p)
    ensures Repeated(p, error, dt, n).integral
         == Clamp(p.integral + Times(n as real, Times(error, dt)), -WindupLimit(p), WindupLimit(p))
  {
    RepeatedIsSum(p, error, dt, n);
    RepeatedSumClosedForm(p.integral, Times(error, dt), WindupLimit(p), n);
  }

  lemma CrossesZero(x: real, total: real, limit: real)
    requires limit >= 0.0
    ensures Clamp(x + total, -limit, limit) <= 0.0 <==> -total >= x || limit == 0.0
    ensures Clamp(x + total, -limit, limit) >= 0.0 <==> total >= -x || limit == 0.0
  {}

  /**
   * Recovery: with a constant negative error the integral is down to zero after exactly those numbers of
   * updates that, times |error * dt|, reach it; likewise upwards with a positive one.
   */
  lemma RecoveryExactly(p: Pid, error: real, dt: real, n: nat)
    requires Usable(p) && Clamps(p) && Abs(p.integral) <= WindupLimit(p) && WindupLimit(p) > 0.0
    ensures Repeated(p, error, dt, n).integral <= 0.0 <==> -Times(n as real, Times(error, dt)) >= p.integral
    ensures Repeated(p, error, dt, n).integral >= 0.0 <==> Times(n as real, Times(error, dt)) >= -p.integral
  {
    ConstantErrorClosedForm(p, error, dt, n);
    CrossesZero(p.integral, Times(n as real, Times(error, dt)), WindupLimit(p));
  }

  /** `ceil(limit / step)`: the least number of steps that reach the limit. */
  function UpdatesNeeded(limit: real, step: real): (n: nat)
    requires limit >= 0.0 && step > 0.0
    ensures Times(n as real, step) >= limit
    ensures n > 0 ==> Times((n - 1) as real, step) < limit
  {
    var q := limit / step;
    assert q >= 0.0;
    var n: nat := if q == q.Floor as real then q.Floor else q.Floor + 1;
    QuotientBounds(limit, step, n as real);
    QuotientBounds(limit, step, (n - 1) as real);
    n
  }

  lemma QuotientBounds(limit: real, step: real, k: real)
    requires limit >= 0.0 && step > 0.0
    ensures k >= limit / step ==> Times(k, step) >= limit
    ensures k < limit / step ==> Times(k, step) < limit
  {}

  lemma NeededReaches(x: real, d: real, limit: real)
    requires -limit <= x <= limit && d != 0.0
    ensures
      var n := UpdatesNeeded(limit, Abs(d)) as real;
      (d < 0.0 ==> -Times(n, d) >= x) && (d > 0.0 ==> Times(n, d) >= -x)
  {}

  lemma RecoveryFrom(q: Pid, error: real, dt: real)
    requires Usable(q) && Clamps(q) && Abs(q.integral) <= WindupLimit(q) && WindupLimit(q) > 0.0
    requires Times(error, dt) != 0.0
    ensures
      var r := Repeated(q, error, dt, UpdatesNeeded(WindupLimit(q), Abs(Times(error, dt))));
      if Times(error, dt) < 0.0 then r.integral <= 0.0 else r.integral >= 0.0
  {
    var d, limit := Times(error, dt), WindupLimit(q);
    RecoveryExactly(q, error, dt, UpdatesNeeded(limit, Abs(d)));
    NeededReaches(q.integral, d, limit);
  }

  /** After any history, ceil(outputMax / (ki * |error| * dt)) updates with an opposing error suffice. */
  lemma RecoveryIsBounded(p: Pid, inputs: seq<Input>, error: real, dt: real)
    requires Usable(p) && Clamps(p) && p.integral == 0.0 && WindupLimit(p) > 0.0 && Times(error, dt) != 0.0
    ensures
      var q := Repeated(After(p, inputs, |inputs|), error, dt, UpdatesNeeded(WindupLimit(p), Abs(Times(error, dt))));
      if Times(error, dt) < 0.0 then q.integral <= 0.0 else q.integral >= 0.0
  {
    IntegralIsBounded(p, inputs, |inputs|);
    RecoveryFrom(After(p, inputs, |inputs|), error, dt);
  }

  // ── The derivative term ───────────────────────────────────────────────────

  /**
   * The derivative is taken on the error: it is the derivative of the measurement alone exactly when the
   * setpoint did not move between the two updates.
   */
  lemma DerivativeFollowsSetpoint(p: Pid, sp0: real, m0: real, sp1: real, m1: real, dt: real)
    requires Usable(p) && dt > EPSILON
    ensures Derivative(Updated(p, sp0 - m0, dt), sp1 - m1, dt) == -(m1 - m0) / dt <==> sp1 == sp0
  {}

  /** A reset forgets everything before it: the rest of the run is that of a controller at rest. */
  lemma {:induction false} ResetForgets(p: Pid, inputs: seq<Input>, k: nat, n: nat)
    requires Usable(p) && k < n <= |inputs| && inputs[k] == Reset
    ensures After(p, inputs, n) == After(Fresh(p), inputs[k + 1..], n - k - 1)
  {
    if n == k + 1 {
      GainsKept(p, inputs, k);
    } else {
      ResetForgets(p, inputs, k, n - 1);
    }
  }

  lemma {:induction false} GainsKept(p: Pid, inputs: seq<Input>, n: nat)
    requires Usable(p) && n <= |inputs|
    ensures Fresh(After(p, inputs, n)) == Fresh(p)
  {
    if n > 0 {
      GainsKept(p, inputs, n - 1);
    }
  }

  // ── The documented limits ─────────────────────────────────────────────────

  predicate Between(lo: real, x: real, hi: real) { lo <= x <= hi }

  /** Where the type's comment says the integral is kept: [output_min / ki, output_max / ki]. */
  predicate DocumentedLimits(p: Pid, x: real)
    requires Clamps(p)
  {
    Between(p.outputMin / p.ki, x, p.outputMax / p.ki)
  }

  predicate CodeLimits(p: Pid, x: real)
    requires Clamps(p)
  {
    Between(-WindupLimit(p), x, WindupLimit(p))
  }

  lemma RangesDiffer(lo: real, hi: real) returns (x: real)
    requires hi >= 0.0 && lo != -hi
    ensures Between(lo, x, hi) != Between(-hi, x, hi)
  {
    x := if -hi < lo then -hi else if lo <= hi then lo else -hi;
  }

  lemma QuotientsMatch(a: real, b: real, k: real)
    requires k != 0.0
    ensures a / k == -(b / k) <==> a == -b
  {}

  ghost predicate SameLimits(p: Pid)
    requires Clamps(p)
  {
    forall x :: DocumentedLimits(p, x) == CodeLimits(p, x)
  }

  /** The code keeps it there exactly when the output limits are opposite, as they are in the firmware. */
  lemma LimitsAsDocumented(p: Pid)
    requires Usable(p) && Clamps(p)
    ensures SameLimits(p) <==> p.outputMin == -p.outputMax
  {
    QuotientsMatch(p.outputMin, p.outputMax, p.ki);
    if p.outputMin != -p.outputMax {
      var x := RangesDiffer(p.outputMin / p.ki, WindupLimit(p));
      assert DocumentedLimits(p, x) != CodeLimits(p, x);
    }
  }
}
