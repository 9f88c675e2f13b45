/** The fixed-point PID controller `PIDInt`.

    `PidInt` is the controller with the C++ widths: every 32- or 64-bit operation
    wraps, every narrowing cast truncates. `MachineStep` is the value it computes and
    `Step` the same controller on unbounded integers. `PidRuns` proves what whole runs
    of `Step` do and when the machine agrees with it. */
module Pid {
  import opened Arith
  import opened Options
  import opened Words

  const SCALE: int := 1000

  /** What the constructor fixes for good. */
  datatype Config = Config(kp: int, ki: int, kd: int, outMin: int, outMax: int, integrMin: int, integrMax: int)

  /** What changes while the controller runs. */
  datatype State = State(integral: int, prevError: int, hasPrev: bool, sampleTimeMs: int, deadband: int)

  datatype Op =
    | ResetOp
    | SampleTimeOp(ms: uint32)
    | DeadbandOp(deadband: int32)
    | UpdateOp(setpoint: int, measured: int, dtMs: uint32)

  datatype Outcome = Outcome(state: State, output: Option<int>)

  // ---- Pieces shared by both step functions ----------------------------------------

  function Clamp(v: int, lo: int, hi: int): int { Min(Max(v, lo), hi) }

  /** The nominal sample time, with the guard against zero. */
  function Base(s: State): int { if s.sampleTimeMs != 0 then s.sampleTimeMs else 1 }

  /** The elapsed time that `update` works with: zero stands for the sample time. */
  function Elapsed(s: State, dtMs: uint32): int { if dtMs == 0 then Base(s) else dtMs }

  function Initial(sampleTimeMs: uint32, deadband: int32): State {
    State(0, 0, false, if sampleTimeMs != 0 then sampleTimeMs else 1, if deadband >= 0 then deadband else 0)
  }

  // ---- The controller on unbounded integers -------------------------------------------

  function Error(s: State, setpoint: int, measured: int): int {
    var error := setpoint - measured;
    if s.deadband > 0 && Abs(error) <= s.deadband then 0 else error
  }

  function Increment(error: int, elapsed: int, base: int): int
    requires base > 0
  {
    TruncDiv(error * elapsed, base)
  }

  function Derivative(s: State, error: int, elapsed: int, base: int): int
    requires elapsed > 0
  {
    if s.hasPrev then TruncDiv((error - s.prevError) * base, elapsed) else 0
  }

  function Output(c: Config, error: int, integral: int, derivative: int): int {
    Clamp(TruncDiv(c.kp * error + c.ki * integral + c.kd * derivative, SCALE), c.outMin, c.outMax)
  }

  function Step(c: Config, s: State, op: Op): Outcome
    requires s.sampleTimeMs >= 0
  {
    match op
    case UpdateOp(setpoint, measured, dtMs) =>
      var error := Error(s, setpoint, measured);
      var elapsed, base := Elapsed(s, dtMs), Base(s);
      var integral := Clamp(s.integral + Increment(error, elapsed, base), c.integrMin, c.integrMax);
      var output := Output(c, error, integral, Derivative(s, error, elapsed, base));
      Outcome(s.(integral := integral, prevError := error, hasPrev := true), Some(output))
    case _ => Outcome(Settings(s, op), None)
  }

  /** The operations other than `update`. */
  function Settings(s: State, op: Op): State {
    match op
    case ResetOp => s.(integral := 0, prevError := 0, hasPrev := false)
    case SampleTimeOp(ms) => s.(sampleTimeMs := if ms == 0 then 1 else ms)
    case DeadbandOp(deadband) => s.(deadband := if deadband < 0 then 0 else deadband)
    case UpdateOp(_, _, _) => s
  }

  // ---- The controller with the C++ widths -----------------------------------------------

  function MachineAbs(v: int32): int32 { if v < 0 then I32(0 - v) else v }

  function MachineError(s: State, setpoint: int, measured: int): int32 {
    var error := I32(setpoint - measured);
    if s.deadband > 0 && MachineAbs(error) <= s.deadband then 0 else error
  }

  function MachineIncrement(error: int, elapsed: int, base: int): int32
    requires base != 0
  {
    I32(TruncDiv(I64(error * elapsed), base))
  }

  function MachineDerivative(s: State, error: int, elapsed: int, base: int): int32
    requires elapsed != 0
  {
    if s.hasPrev then I32(TruncDiv(I64(I32(error - s.prevError) * base), elapsed)) else 0
  }

  function MachineOutput(c: Config, error: int, integral: int, derivative: int): int32 {
    var sum := I64(I64(I64(c.kp * error) + I64(c.ki * integral)) + I64(c.kd * derivative));
    I32(Clamp(TruncDiv(sum, SCALE), c.outMin, c.outMax))
  }

  function MachineStep(c: Config, s: State, op: Op): Outcome
    requires 0 <= s.sampleTimeMs < W32
  {
    match op
    case UpdateOp(setpoint, measured, dtMs) =>
      var error := MachineError(s, setpoint, measured);
      var elapsed, base := Elapsed(s, dtMs), I32(Base(s));
      var integral := Clamp(I32(s.integral + MachineIncrement(error, elapsed, base)), c.integrMin, c.integrMax);
      var output := MachineOutput(c, error, integral, MachineDerivative(s, error, elapsed, base));
      Outcome(s.(integral := integral, prevError := error, hasPrev := true), Some(output))
    case _ => Outcome(Settings(s, op), None)
  }

  lemma MachineStepParts(c: Config, s: State, setpoint: int, measured: int, dtMs: uint32,
                         error: int, integral: int, derivative: int)
    requires 0 <= s.sampleTimeMs < W32 && I32(Base(s)) != 0
    requires error == MachineError(s, setpoint, measured)
    requires integral == Clamp(I32(s.integral + MachineIncrement(error, Elapsed(s, dtMs), I32(Base(s)))),
                               c.integrMin, c.integrMax)
    requires derivative == MachineDerivative(s, error, Elapsed(s, dtMs), I32(Base(s)))
    ensures MachineStep(c, s, UpdateOp(setpoint, measured, dtMs))
         == Outcome(s.(integral := integral, prevError := error, hasPrev := true),
                    Some(MachineOutput(c, error, integral, derivative)))
  {
  }

  // ---- The class ---------------------------------------------------------------------------

  class PidInt {
    const kp: int32
    const ki: int32
    const kd: int32
    const outMin: int32
    const outMax: int32
    const integrMin: int32
    const integrMax: int32
    var integral: int32
    var prevError: int32
    var hasPrev: bool
    var sampleTimeMs: uint32
    var deadband: int32

    ghost function Parameters(): Config { Config(kp, ki, kd, outMin, outMax, integrMin, integrMax) }

    ghost function Value(): State
      reads this
    {
      State(integral, prevError, hasPrev, sampleTimeMs, deadband)
    }

    constructor (kp: int32, ki: int32, kd: int32, outMin: int32, outMax: int32, integrMin: int32, integrMax: int32,
                 sampleTimeMs: uint32, deadband: int32)
      ensures Parameters() == Config(kp, ki, kd, outMin, outMax, integrMin, integrMax)
      ensures Value() == Initial(sampleTimeMs, deadband)
    {
      this.kp, this.ki, this.kd := kp, ki, kd;
      this.outMin, this.outMax := outMin, outMax;
      this.integrMin, this.integrMax := integrMin, integrMax;
      this.sampleTimeMs := if sampleTimeMs != 0 then sampleTimeMs else 1;
      this.deadband := if deadband >= 0 then deadband else 0;
      integral, prevError, hasPrev := 0, 0, false;
    }

    /** Afterwards the controller is as new, with the settings it has now. */
    method Reset()
      modifies this`integral, this`prevError, this`hasPrev
      ensures Value() == MachineStep(Parameters(), old(Value()), ResetOp).state
      ensures sampleTimeMs != 0 && deadband >= 0 ==> Value() == Initial(sampleTimeMs, deadband)
    {
      integral := 0;
      prevError := 0;
      hasPrev := false;
    }

    method Update(setpoint: int32, measured: int32, dt: uint32) returns (output: int32)
      modifies this`integral, this`prevError, this`hasPrev
      ensures MachineStep(Parameters(), old(Value()), UpdateOp(setpoint, measured, dt)) == Outcome(Value(), Some(output))
    {
      var dtMs := dt;
      if dtMs == 0 {
        dtMs := sampleTimeMs;
      }
      if dtMs == 0 {
        dtMs := 1;
      }
      var error := Deviation(setpoint, measured);
      Integrate(error, dtMs);
      var derivative := Differentiate(error, dtMs);
      output := Weigh(error, derivative);
      MachineStepParts(Parameters(), old(Value()), setpoint, measured, dt, error, integral, derivative);
    }

    // The parts of `update`, in the order it runs them.

    method Deviation(setpoint: int32, measured: int32) returns (error: int32)
      ensures error == MachineError(Value(), setpoint, measured)
    {
      error := I32(setpoint - measured);
      if deadband > 0 {
        var magnitude := Abs32(error);
        if magnitude <= deadband {
          error := 0;
        }
      }
    }

    method Integrate(error: int32, dtMs: uint32)
      requires dtMs != 0
      modifies this`integral
      ensures integral == Clamp(I32(old(integral) + MachineIncrement(error, dtMs, I32(Base(Value())))), integrMin, integrMax)
    {
      var baseDt: int32 := I32(if sampleTimeMs != 0 then sampleTimeMs else 1);
      var integralIncrement: int := I64(error * dtMs);
      integralIncrement := TruncDiv(integralIncrement, baseDt);
      integral := I32(integral + I32(integralIncrement));
      integral := ClampTo(integral, integrMin, integrMax);
    }

    method Differentiate(error: int32, dtMs: uint32) returns (derivative: int32)
      requires dtMs != 0
      modifies this`prevError, this`hasPrev
      ensures derivative == MachineDerivative(old(Value()), error, dtMs, I32(Base(Value())))
      ensures prevError == error && hasPrev
    {
      var baseDt: int32 := I32(if sampleTimeMs != 0 then sampleTimeMs else 1);
      derivative := 0;
      if hasPrev {
        var delta := I64(I32(error - prevError) * baseDt);
        derivative := I32(TruncDiv(delta, dtMs));
      } else {
        hasPrev := true;
      }
      prevError := error;
    }

    method Weigh(error: int32, derivative: int32) returns (output: int32)
      ensures output == MachineOutput(Parameters(), error, integral, derivative)
    {
      var pTerm: int := I64(kp * error);
      var iTerm: int := I64(ki * integral);
      var dTerm: int := I64(kd * derivative);
      var sum: int := I64(I64(pTerm + iTerm) + dTerm);
      var out := TruncDiv(sum, SCALE);
      out := ClampTo(out, outMin, outMax);
      output := I32(out);
    }

    method SetSampleTimeMs(ms: uint32)
      modifies this`sampleTimeMs
      ensures Value() == MachineStep(Parameters(), old(Value()), SampleTimeOp(ms)).state
      ensures sampleTimeMs != 0
    {
      var sampleTime := ms;
      if sampleTime == 0 {
        sampleTime := 1;
      }
      sampleTimeMs := sampleTime;
    }

    method SetDeadband(value: int32)
      modifies this`deadband
      ensures Value() == MachineStep(Parameters(), old(Value()), DeadbandOp(value)).state
      ensures deadband >= 0
    {
      deadband := if value < 0 then 0 else value;
    }

    /** `clamp`, which assigns through its reference parameter. */
    static method ClampTo(value: int, lo: int, hi: int) returns (v: int)
      ensures v == Clamp(value, lo, hi)
    {
      v := value;
      if v < lo {
        v := lo;
      }
      if v > hi {
        v := hi;
      }
    }

    static method Abs32(v: int32) returns (r: int32)
      ensures r == MachineAbs(v)
    {
      r := if v < 0 then I32(0 - v) else v;
    }
  }
}
