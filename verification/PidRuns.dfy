/** Whole runs of the PID controller: what the saturating integrator does over time,
    how the output depends on the inputs, and when the fixed-width controller
    computes exactly what the unbounded one does. */
module PidRuns {
  import opened Arith
  import opened Options
  import opened Words
  import opened Pid

  ghost predicate WellFormed(s: State) { 0 < s.sampleTimeMs < W32 && 0 <= s.deadband }

  lemma StepWellFormed(c: Config, s: State, op: Op)
    requires WellFormed(s)
    ensures WellFormed(Step(c, s, op).state) && WellFormed(MachineStep(c, s, op).state)
  {
  }

  /** The state after a run. */
  ghost function Run(c: Config, s: State, ops: seq<Op>): (r: State)
    requires WellFormed(s)
    ensures WellFormed(r)
    decreases |ops|
  {
    if ops == [] then s
    else
      StepWellFormed(c, s, ops[0]);
      Run(c, Step(c, s, ops[0]).state, ops[1..])
  }

  /** What each operation of a run returns. */
  ghost function Outputs(c: Config, s: State, ops: seq<Op>): seq<Option<int>>
    requires WellFormed(s)
    decreases |ops|
  {
    if ops == [] then []
    else
      StepWellFormed(c, s, ops[0]);
      [Step(c, s, ops[0]).output] + Outputs(c, Step(c, s, ops[0]).state, ops[1..])
  }

  ghost function MachineRun(c: Config, s: State, ops: seq<Op>): (r: State)
    requires WellFormed(s)
    ensures WellFormed(r)
    decreases |ops|
  {
    if ops == [] then s
    else
      StepWellFormed(c, s, ops[0]);
      MachineRun(c, MachineStep(c, s, ops[0]).state, ops[1..])
  }

  ghost function MachineOutputs(c: Config, s: State, ops: seq<Op>): seq<Option<int>>
    requires WellFormed(s)
    decreases |ops|
  {
    if ops == [] then []
    else
      StepWellFormed(c, s, ops[0]);
      [MachineStep(c, s, ops[0]).output] + MachineOutputs(c, MachineStep(c, s, ops[0]).state, ops[1..])
  }

  // ---- The integrator over a run ------------------------------------------------------

  /** A map on the integral: the identity, or a shift followed by a saturation. */
  datatype IntegralMap = Same | Saturate(shift: int, lo: int, hi: int)
  {
    function Apply(x: int): int {
      match this
      case Same => x
      case Saturate(shift, lo, hi) => Clamp(x + shift, lo, hi)
    }
  }

  /** One operation seen as a map on the integral. It looks at the settings and the input only. */
  ghost function StepMap(c: Config, s: State, op: Op): IntegralMap
    requires WellFormed(s)
  {
    match op
    case UpdateOp(setpoint, measured, dtMs) =>
      var d := Increment(Error(s, setpoint, measured), Elapsed(s, dtMs), Base(s));
      Saturate(d, Min(c.integrMin, c.integrMax), c.integrMax)
    case ResetOp => Saturate(0, 0, 0)
    case _ => Same
  }

  /** `first`, then `then`, as one map. */
  function Compose(first: IntegralMap, next: IntegralMap): IntegralMap {
    if first.Same? then next
    else if next.Same? then first
    else Saturate(first.shift + next.shift, next.Apply(first.lo), next.Apply(first.hi))
  }

  /** The single map that a whole run amounts to. */
  ghost function Collapse(c: Config, s: State, ops: seq<Op>): IntegralMap
    requires WellFormed(s)
    decreases |ops|
  {
    if ops == [] then Same
    else
      StepWellFormed(c, s, ops[0]);
      Compose(StepMap(c, s, ops[0]), Collapse(c, Step(c, s, ops[0]).state, ops[1..]))
  }

  ghost predicate Ordered(m: IntegralMap) { m.Saturate? ==> m.lo <= m.hi }

  lemma LemmaCompose(first: IntegralMap, next: IntegralMap, x: int)
    requires Ordered(first) && Ordered(next)
    ensures Ordered(Compose(first, next))
    ensures Compose(first, next).Apply(x) == next.Apply(first.Apply(x))
  {
  }

  lemma LemmaStepMap(c: Config, s: State, op: Op)
    requires WellFormed(s)
    ensures Ordered(StepMap(c, s, op))
    ensures Step(c, s, op).state.integral == StepMap(c, s, op).Apply(s.integral)
  {
  }

  /** States that differ in nothing an increment depends on. */
  ghost predicate SameSettings(s: State, t: State) {
    s.sampleTimeMs == t.sampleTimeMs && s.deadband == t.deadband
  }

  lemma {:induction false} LemmaCollapseInputsOnly(c: Config, s: State, t: State, ops: seq<Op>)
    requires WellFormed(s) && WellFormed(t) && SameSettings(s, t)
    ensures Collapse(c, s, ops) == Collapse(c, t, ops)
    decreases |ops|
  {
    if ops != [] {
      LemmaCollapseInputsOnly(c, Step(c, s, ops[0]).state, Step(c, t, ops[0]).state, ops[1..]);
    }
  }

  /** Integrator collapse: a run of any length acts on the integral as one shift and one
      saturation, fixed by the settings and the inputs alone, with its bounds inside the
      configured ones once the run has an update and no reset. */
  lemma {:induction false} IntegratorCollapses(c: Config, s: State, ops: seq<Op>)
    requires WellFormed(s)
    ensures Ordered(Collapse(c, s, ops))
    ensures Run(c, s, ops).integral == Collapse(c, s, ops).Apply(s.integral)
    ensures forall t: State | WellFormed(t) && SameSettings(s, t) :: Collapse(c, t, ops) == Collapse(c, s, ops)
    ensures ResetOp !in ops ==> Inside(c, Collapse(c, s, ops))
    ensures forall i | 0 <= i < |ops| && ops[i].UpdateOp? :: Collapse(c, s, ops).Saturate?
  {
    forall t: State | WellFormed(t) && SameSettings(s, t) ensures Collapse(c, t, ops) == Collapse(c, s, ops) {
      LemmaCollapseInputsOnly(c, s, t, ops);
    }
    LemmaCollapse(c, s, ops);
    if ResetOp !in ops {
      LemmaCollapseInside(c, s, ops);
    }
    forall i | 0 <= i < |ops| && ops[i].UpdateOp? ensures Collapse(c, s, ops).Saturate? {
      LemmaUpdateSaturates(c, s, ops, i);
    }
  }

  lemma {:induction false} LemmaCollapse(c: Config, s: State, ops: seq<Op>)
    requires WellFormed(s)
    ensures Ordered(Collapse(c, s, ops))
    ensures Run(c, s, ops).integral == Collapse(c, s, ops).Apply(s.integral)
    decreases |ops|
  {
    if ops != [] {
      var s' := Step(c, s, ops[0]).state;
      LemmaCollapse(c, s', ops[1..]);
      LemmaStepMap(c, s, ops[0]);
      LemmaCompose(StepMap(c, s, ops[0]), Collapse(c, s', ops[1..]), s.integral);
    }
  }

  ghost predicate Inside(c: Config, m: IntegralMap) {
    m.Saturate? && c.integrMin <= c.integrMax ==> c.integrMin <= m.lo && m.hi <= c.integrMax
  }

  lemma {:induction false} LemmaCollapseInside(c: Config, s: State, ops: seq<Op>)
    requires WellFormed(s) && ResetOp !in ops
    ensures Inside(c, Collapse(c, s, ops))
    decreases |ops|
  {
    if ops != [] {
      var s' := Step(c, s, ops[0]).state;
      assert ops[0] in ops;
      LemmaCollapseInside(c, s', ops[1..]);
      LemmaCollapse(c, s', ops[1..]);
      LemmaStepMap(c, s, ops[0]);
      LemmaInsideCompose(c, StepMap(c, s, ops[0]), Collapse(c, s', ops[1..]));
    }
  }

  lemma {:induction false} LemmaUpdateSaturates(c: Config, s: State, ops: seq<Op>, i: nat)
    requires WellFormed(s) && i < |ops| && ops[i].UpdateOp?
    ensures Collapse(c, s, ops).Saturate?
    decreases |ops|
  {
    if i > 0 {
      LemmaUpdateSaturates(c, Step(c, s, ops[0]).state, ops[1..], i - 1);
    }
  }

  lemma LemmaInsideCompose(c: Config, first: IntegralMap, next: IntegralMap)
    requires Ordered(first) && Ordered(next) && Inside(c, next)
    requires next.Same? ==> Inside(c, first)
    ensures Inside(c, Compose(first, next))
  {
  }

  /** Two controllers with the same settings and inputs never move apart in integral;
      in particular, once equal they stay equal. */
  lemma IntegralsNeverMoveApart(c: Config, s: State, t: State, ops: seq<Op>)
    requires WellFormed(s) && WellFormed(t) && SameSettings(s, t)
    ensures Abs(Run(c, s, ops).integral - Run(c, t, ops).integral) <= Abs(s.integral - t.integral)
    ensures s.integral <= t.integral ==> Run(c, s, ops).integral <= Run(c, t, ops).integral
  {
    IntegratorCollapses(c, s, ops);
    IntegratorCollapses(c, t, ops);
    LemmaNonExpansive(Collapse(c, s, ops), s.integral, t.integral);
  }

  lemma LemmaNonExpansive(m: IntegralMap, x: int, y: int)
    ensures Abs(m.Apply(x) - m.Apply(y)) <= Abs(x - y)
    ensures x <= y ==> m.Apply(x) <= m.Apply(y)
  {
  }

  /** The integral of every reachable state lies between the limits exactly when zero,
      where the constructor and `reset` put it, does. */
  lemma IntegralInRangeExactly(c: Config, ms: uint32, deadband: int32)
    ensures (forall ops: seq<Op> :: c.integrMin <= Run(c, Initial(ms, deadband), ops).integral <= c.integrMax)
            <==> c.integrMin <= 0 <= c.integrMax
  {
    if c.integrMin <= 0 <= c.integrMax {
      forall ops: seq<Op> ensures c.integrMin <= Run(c, Initial(ms, deadband), ops).integral <= c.integrMax {
        LemmaStaysInRange(c, Initial(ms, deadband), ops);
      }
    } else {
      assert Run(c, Initial(ms, deadband), []).integral == 0;
    }
  }

  lemma {:induction false} LemmaStaysInRange(c: Config, s: State, ops: seq<Op>)
    requires WellFormed(s) && c.integrMin <= 0 <= c.integrMax && c.integrMin <= s.integral <= c.integrMax
    ensures c.integrMin <= Run(c, s, ops).integral <= c.integrMax
    decreases |ops|
  {
    if ops != [] {
      LemmaStaysInRange(c, Step(c, s, ops[0]).state, ops[1..]);
    }
  }

  // ---- Anti-windup --------------------------------------------------------------------

  /** An update at the nominal rate whose error is at most `-e`, outside the deadband. */
  ghost predicate PullsDown(s: State, op: Op, e: int) {
    && op.UpdateOp?
    && (op.dtMs == 0 || op.dtMs == s.sampleTimeMs)
    && op.setpoint - op.measured <= -e
    && s.deadband < e
  }

  lemma LemmaPull(c: Config, s: State, op: Op, e: int)
    requires WellFormed(s) && PullsDown(s, op, e)
    ensures Step(c, s, op).state.integral <= Max(c.integrMin, s.integral - e)
    ensures SameSettings(s, Step(c, s, op).state)
  {
    TruncDivExact(op.setpoint - op.measured, s.sampleTimeMs);
  }

  lemma {:induction false} LemmaPulls(c: Config, s: State, ops: seq<Op>, e: int)
    requires WellFormed(s) && forall i | 0 <= i < |ops| :: PullsDown(s, ops[i], e)
    ensures Run(c, s, ops).integral <= Max(c.integrMin, s.integral - |ops| * e)
    decreases |ops|
  {
    if ops != [] {
      var s' := Step(c, s, ops[0]).state;
      LemmaPull(c, s, ops[0], e);
      forall i | 0 <= i < |ops[1..]| ensures PullsDown(s', ops[1..][i], e) {
        assert PullsDown(s, ops[i + 1], e);
      }
      LemmaPulls(c, s', ops[1..], e);
      LemmaDriftStep(0, 0, e + 1, |ops|);
    }
  }

  /** What the limits say about every integral after the start: never above `integrMax` if that
      is not negative, never positive otherwise. */
  lemma {:induction false} LemmaStaysBelow(c: Config, s: State, ops: seq<Op>)
    requires WellFormed(s) && s.integral <= Max(c.integrMax, 0)
    ensures Run(c, s, ops).integral <= Max(c.integrMax, 0)
    decreases |ops|
  {
    if ops != [] {
      LemmaStaysBelow(c, Step(c, s, ops[0]).state, ops[1..]);
    }
  }

  /** Anti-windup recovery: whatever happened before, `k` nominal updates with error at
      most `-e` bring the integral down by `k * e` from the upper limit, or to the lower one. */
  lemma AntiWindupRecovery(c: Config, ms: uint32, deadband: int32, history: seq<Op>, ops: seq<Op>, e: int)
    requires Max(c.integrMin, c.integrMax) >= 0
    requires forall i | 0 <= i < |ops| :: PullsDown(Run(c, Initial(ms, deadband), history), ops[i], e)
    ensures Recovers(c, Run(c, Initial(ms, deadband), history), ops, e)
  {
    var s := Run(c, Initial(ms, deadband), history);
    LemmaStaysBelow(c, Initial(ms, deadband), history);
    LemmaStaysBelow(c, s, ops);
    LemmaPulls(c, s, ops, e);
  }

  ghost predicate Recovers(c: Config, s: State, ops: seq<Op>, e: int)
    requires WellFormed(s)
  {
    Run(c, s, ops).integral <= Max(c.integrMin, c.integrMax - |ops| * e)
  }

  /** It holds exactly for controllers with a limit that is not negative: the integral starts at
      zero, and no update brings it back before the first. */
  lemma AntiWindupExactly(c: Config, ms: uint32, deadband: int32)
    ensures (forall history: seq<Op>, ops: seq<Op>, e: int
               | forall i | 0 <= i < |ops| :: PullsDown(Run(c, Initial(ms, deadband), history), ops[i], e)
               :: Recovers(c, Run(c, Initial(ms, deadband), history), ops, e))
            <==> Max(c.integrMin, c.integrMax) >= 0
  {
    if Max(c.integrMin, c.integrMax) >= 0 {
      forall history: seq<Op>, ops: seq<Op>, e: int
        | forall i | 0 <= i < |ops| :: PullsDown(Run(c, Initial(ms, deadband), history), ops[i], e)
        ensures Recovers(c, Run(c, Initial(ms, deadband), history), ops, e)
      {
        AntiWindupRecovery(c, ms, deadband, history, ops, e);
      }
    } else {
      assert Run(c, Initial(ms, deadband), []) == Initial(ms, deadband);
      assert !Recovers(c, Run(c, Initial(ms, deadband), []), [], 0);
    }
  }

  // The same from below.

  ghost predicate PushesUp(s: State, op: Op, e: int) {
    && op.UpdateOp?
    && (op.dtMs == 0 || op.dtMs == s.sampleTimeMs)
    && op.setpoint - op.measured >= e
    && s.deadband < e
  }

  lemma LemmaPush(c: Config, s: State, op: Op, e: int)
    requires WellFormed(s) && PushesUp(s, op, e)
    ensures Step(c, s, op).state.integral >= Min(c.integrMax, s.integral + e)
    ensures SameSettings(s, Step(c, s, op).state)
  {
    TruncDivExact(op.setpoint - op.measured, s.sampleTimeMs);
  }

  lemma {:induction false} LemmaPushes(c: Config, s: State, ops: seq<Op>, e: int)
    requires WellFormed(s) && forall i | 0 <= i < |ops| :: PushesUp(s, ops[i], e)
    ensures Run(c, s, ops).integral >= Min(c.integrMax, s.integral + |ops| * e)
    decreases |ops|
  {
    if ops != [] {
      var s' := Step(c, s, ops[0]).state;
      LemmaPush(c, s, ops[0], e);
      forall i | 0 <= i < |ops[1..]| ensures PushesUp(s', ops[1..][i], e) {
        assert PushesUp(s, ops[i + 1], e);
      }
      LemmaPushes(c, s', ops[1..], e);
      LemmaDriftStep(0, 0, e + 1, |ops|);
    }
  }

  lemma {:induction false} LemmaStaysAbove(c: Config, s: State, ops: seq<Op>)
    requires WellFormed(s) && s.integral >= Min(0, Min(c.integrMin, c.integrMax))
    ensures Run(c, s, ops).integral >= Min(0, Min(c.integrMin, c.integrMax))
    decreases |ops|
  {
    if ops != [] {
      LemmaStaysAbove(c, Step(c, s, ops[0]).state, ops[1..]);
    }
  }

  lemma AntiWindupRecoveryUp(c: Config, ms: uint32, deadband: int32, history: seq<Op>, ops: seq<Op>, e: int)
    requires Min(c.integrMin, c.integrMax) <= 0
    requires forall i | 0 <= i < |ops| :: PushesUp(Run(c, Initial(ms, deadband), history), ops[i], e)
    ensures RecoversUp(c, Run(c, Initial(ms, deadband), history), ops, e)
  {
    var s := Run(c, Initial(ms, deadband), history);
    LemmaStaysAbove(c, Initial(ms, deadband), history);
    LemmaStaysAbove(c, s, ops);
    LemmaPushes(c, s, ops, e);
  }

  ghost predicate RecoversUp(c: Config, s: State, ops: seq<Op>, e: int)
    requires WellFormed(s)
  {
    Run(c, s, ops).integral >= Min(c.integrMax, c.integrMin + |ops| * e)
  }

  /** Recovery from the lower limit holds exactly for controllers with a limit that is not positive. */
  lemma AntiWindupUpExactly(c: Config, ms: uint32, deadband: int32)
    ensures (forall history: seq<Op>, ops: seq<Op>, e: int
               | forall i | 0 <= i < |ops| :: PushesUp(Run(c, Initial(ms, deadband), history), ops[i], e)
               :: RecoversUp(c, Run(c, Initial(ms, deadband), history), ops, e))
            <==> Min(c.integrMin, c.integrMax) <= 0
  {
    if Min(c.integrMin, c.integrMax) <= 0 {
      forall history: seq<Op>, ops: seq<Op>, e: int
        | forall i | 0 <= i < |ops| :: PushesUp(Run(c, Initial(ms, deadband), history), ops[i], e)
        ensures RecoversUp(c, Run(c, Initial(ms, deadband), history), ops, e)
      {
        AntiWindupRecoveryUp(c, ms, deadband, history, ops, e);
      }
    } else {
      assert Run(c, Initial(ms, deadband), []) == Initial(ms, deadband);
      assert !RecoversUp(c, Run(c, Initial(ms, deadband), []), [], 0);
    }
  }

  // ---- Odd symmetry -------------------------------------------------------------------

  function NegateLimits(c: Config): Config {
    c.(outMin := -c.outMax, outMax := -c.outMin, integrMin := -c.integrMax, integrMax := -c.integrMin)
  }

  function MirrorState(s: State): State { s.(integral := -s.integral, prevError := -s.prevError) }

  function MirrorOp(op: Op): Op {
    if op.UpdateOp? then UpdateOp(-op.setpoint, -op.measured, op.dtMs) else op
  }

  function MirrorOutput(o: Option<int>): Option<int> { if o.Some? then Some(-o.value) else None }

  function MirrorOutcome(o: Outcome): Outcome { Outcome(MirrorState(o.state), MirrorOutput(o.output)) }

  /** Mirroring settings, state and input mirrors the step. */
  ghost predicate StepIsOdd(c: Config, s: State, op: Op)
    requires WellFormed(s)
  {
    Step(NegateLimits(c), MirrorState(s), MirrorOp(op)) == MirrorOutcome(Step(c, s, op))
  }

  ghost predicate LimitsOrdered(c: Config) { c.outMin <= c.outMax && c.integrMin <= c.integrMax }

  lemma LemmaStepIsOdd(c: Config, s: State, op: Op)
    requires WellFormed(s) && LimitsOrdered(c)
    ensures StepIsOdd(c, s, op)
  {
    if op.UpdateOp? {
      var error, elapsed, base := Error(s, op.setpoint, op.measured), Elapsed(s, op.dtMs), Base(s);
      var integral := Step(c, s, op).state.integral;
      assert Error(MirrorState(s), -op.setpoint, -op.measured) == -error;
      LemmaQuotientOdd(error, elapsed, base);
      LemmaQuotientOdd(error - s.prevError, base, elapsed);
      LemmaOutputOdd(c, error, integral, Derivative(s, error, elapsed, base));
    }
  }

  lemma LemmaQuotientOdd(x: int, y: int, d: int)
    requires d > 0
    ensures TruncDiv(-x * y, d) == -TruncDiv(x * y, d)
  {
    LemmaNegProduct(x, y);
    TruncDivOdd(x * y, d);
  }

  lemma LemmaNegProduct(x: int, y: int)
    ensures -x * y == -(x * y) && x * -y == -(x * y)
  {
  }

  lemma LemmaOutputOdd(c: Config, error: int, integral: int, derivative: int)
    requires LimitsOrdered(c)
    ensures Output(NegateLimits(c), -error, -integral, -derivative) == -Output(c, error, integral, derivative)
  {
    LemmaNegProduct(c.kp, error);
    LemmaNegProduct(c.ki, integral);
    LemmaNegProduct(c.kd, derivative);
    TruncDivOdd(c.kp * error + c.ki * integral + c.kd * derivative, SCALE);
  }

  /** The controller is odd exactly when both pairs of limits are in order: otherwise the
      clamp returns the upper limit, and its mirror image returns the other one. */
  lemma OddExactly(c: Config)
    ensures (forall s: State, op: Op | WellFormed(s) :: StepIsOdd(c, s, op)) <==> LimitsOrdered(c)
  {
    if LimitsOrdered(c) {
      forall s: State, op: Op | WellFormed(s) ensures StepIsOdd(c, s, op) {
        LemmaStepIsOdd(c, s, op);
      }
    } else {
      var s, op := Initial(1, 0), UpdateOp(0, 0, 1);
      assert WellFormed(s);
      assert Step(c, s, op).state.integral == Clamp(0 + Increment(0, 1, 1), c.integrMin, c.integrMax);
      assert !StepIsOdd(c, s, op);
    }
  }

  /** Over a whole run: every output, integral and previous error is negated. */
  lemma {:induction false} OddRuns(c: Config, s: State, ops: seq<Op>)
    requires WellFormed(s) && LimitsOrdered(c)
    ensures var mirrored := seq(|ops|, i requires 0 <= i < |ops| => MirrorOp(ops[i]));
            && Run(NegateLimits(c), MirrorState(s), mirrored) == MirrorState(Run(c, s, ops))
            && |Outputs(NegateLimits(c), MirrorState(s), mirrored)| == |Outputs(c, s, ops)| == |ops|
            && forall i | 0 <= i < |ops| ::
                 Outputs(NegateLimits(c), MirrorState(s), mirrored)[i] == MirrorOutput(Outputs(c, s, ops)[i])
    decreases |ops|
  {
    var mirrored := seq(|ops|, i requires 0 <= i < |ops| => MirrorOp(ops[i]));
    if ops != [] {
      var rest := ops[1..];
      LemmaStepIsOdd(c, s, ops[0]);
      OddRuns(c, Step(c, s, ops[0]).state, rest);
      assert mirrored[1..] == seq(|rest|, i requires 0 <= i < |rest| => MirrorOp(rest[i]));
    }
  }

  // ---- One step in its inputs ------------------------------------------------------------

  /** With non-negative gains, a higher setpoint or a lower measurement never lowers the output. */
  lemma OutputMonotone(c: Config, s: State, op: Op, op': Op)
    requires WellFormed(s) && c.kp >= 0 && c.ki >= 0 && c.kd >= 0
    requires op.UpdateOp? && op'.UpdateOp? && op.dtMs == op'.dtMs
    requires op.setpoint <= op'.setpoint && op'.measured <= op.measured
    ensures Step(c, s, op).output.value <= Step(c, s, op').output.value
    ensures Step(c, s, op).state.integral <= Step(c, s, op').state.integral
  {
    var error, error' := Error(s, op.setpoint, op.measured), Error(s, op'.setpoint, op'.measured);
    var elapsed, base := Elapsed(s, op.dtMs), Base(s);
    assert error <= error';
    LemmaQuotientOrder(error, error', elapsed, base);
    LemmaQuotientOrder(error - s.prevError, error' - s.prevError, base, elapsed);
    var integral, integral' := Step(c, s, op).state.integral, Step(c, s, op').state.integral;
    LemmaOutputOrder(c, error, integral, Derivative(s, error, elapsed, base),
                     error', integral', Derivative(s, error', elapsed, base));
  }

  lemma LemmaQuotientOrder(x: int, x': int, y: int, d: int)
    requires x <= x' && y > 0 && d > 0
    ensures TruncDiv(x * y, d) <= TruncDiv(x' * y, d)
  {
    LemmaMulMono(x, x', y);
    TruncDivMono(x * y, x' * y, d);
  }

  lemma LemmaOutputOrder(c: Config, e: int, i: int, d: int, e': int, i': int, d': int)
    requires c.kp >= 0 && c.ki >= 0 && c.kd >= 0 && e <= e' && i <= i' && d <= d'
    ensures Output(c, e, i, d) <= Output(c, e', i', d')
  {
    LemmaMulMono(e, e', c.kp);
    LemmaMulMono(i, i', c.ki);
    LemmaMulMono(d, d', c.kd);
    TruncDivMono(c.kp * e + c.ki * i + c.kd * d, c.kp * e' + c.ki * i' + c.kd * d', SCALE);
  }

  // ---- Rounding drift ----------------------------------------------------------------------

  /** Every operation is an update that the limits of the integrator do not touch. */
  ghost predicate Unsaturated(c: Config, s: State, ops: seq<Op>)
    requires WellFormed(s)
    decreases |ops|
  {
    ops != [] ==>
      && ops[0].UpdateOp?
      && (var v := s.integral + Increment(Error(s, ops[0].setpoint, ops[0].measured), Elapsed(s, ops[0].dtMs), Base(s));
          c.integrMin <= v <= c.integrMax)
      && Unsaturated(c, Step(c, s, ops[0]).state, ops[1..])
  }

  /** The sum of error times elapsed time over a run of updates. */
  ghost function ErrorTime(s: State, ops: seq<Op>): int {
    if ops == [] || !ops[0].UpdateOp? then 0
    else Error(s, ops[0].setpoint, ops[0].measured) * Elapsed(s, ops[0].dtMs) + ErrorTime(s, ops[1..])
  }

  /** Over `n` unsaturated updates, dividing at every step loses less than one unit of the
      integral per step against dividing the exact sum once. */
  lemma {:induction false} DriftBound(c: Config, s: State, ops: seq<Op>)
    requires WellFormed(s) && Unsaturated(c, s, ops)
    ensures var drift := (Run(c, s, ops).integral - s.integral) * s.sampleTimeMs - ErrorTime(s, ops);
            -(|ops| * (s.sampleTimeMs - 1)) <= drift <= |ops| * (s.sampleTimeMs - 1)
    decreases |ops|
  {
    if ops != [] {
      var s' := Step(c, s, ops[0]).state;
      var error, elapsed := Error(s, ops[0].setpoint, ops[0].measured), Elapsed(s, ops[0].dtMs);
      TruncDivRemainder(error * elapsed, s.sampleTimeMs);
      DriftBound(c, s', ops[1..]);
      LemmaErrorTimeSettings(s, s', ops[1..]);
      LemmaDriftStep(Run(c, s, ops).integral - s'.integral, s'.integral - s.integral, s.sampleTimeMs, |ops|);
    } else {
      LemmaMulZero(s.sampleTimeMs);
    }
  }

  lemma LemmaMulZero(x: int)
    ensures 0 * x == 0
  {
  }

  lemma LemmaDriftStep(a: int, b: int, m: int, n: int)
    ensures (a + b) * m == a * m + b * m
    ensures n * (m - 1) == (n - 1) * (m - 1) + (m - 1)
  {
  }

  lemma {:induction false} LemmaErrorTimeSettings(s: State, t: State, ops: seq<Op>)
    requires SameSettings(s, t)
    ensures ErrorTime(s, ops) == ErrorTime(t, ops)
    decreases |ops|
  {
    if ops != [] {
      LemmaErrorTimeSettings(s, t, ops[1..]);
    }
  }

  // ---- The control law at the nominal rate ---------------------------------------------------

  /** An update at the nominal rate. */
  ghost predicate Nominal(s: State, op: Op) { op.UpdateOp? && (op.dtMs == 0 || op.dtMs == s.sampleTimeMs) }

  /** A difference that counts as zero up to `deadband`. */
  function Deadbanded(difference: int, deadband: int): int {
    if Abs(difference) <= deadband then 0 else difference
  }

  /** `q` is `x / d` rounded toward zero. */
  ghost predicate RoundedToZero(q: int, x: int, d: int) { Abs(q * d) <= Abs(x) < Abs(q * d) + d && q * x >= 0 }

  /** The textbook law: a nominal update adds the error, zero inside the deadband, to the integral (saturated), takes the
      difference to the previous error as derivative, none on the first update, and returns
      (kp * e + ki * I + kd * D) / 1000 rounded toward zero and limited. */
  lemma NominalUpdate(c: Config, s: State, op: Op)
    requires WellFormed(s) && Nominal(s, op)
    ensures var e := Deadbanded(op.setpoint - op.measured, s.deadband);
            var d := if s.hasPrev then e - s.prevError else 0;
            var s', output := Step(c, s, op).state, Step(c, s, op).output.value;
            && s' == State(Clamp(s.integral + e, c.integrMin, c.integrMax), e, true, s.sampleTimeMs, s.deadband)
            && exists q :: RoundedToZero(q, c.kp * e + c.ki * s'.integral + c.kd * d, 1000)
                           && output == Clamp(q, c.outMin, c.outMax)
  {
    var e := Deadbanded(op.setpoint - op.measured, s.deadband);
    var d := if s.hasPrev then e - s.prevError else 0;
    assert Error(s, op.setpoint, op.measured) == e && Elapsed(s, op.dtMs) == s.sampleTimeMs == Base(s);
    TruncDivExact(e, s.sampleTimeMs);
    TruncDivExact(e - s.prevError, s.sampleTimeMs);
    assert Derivative(s, e, s.sampleTimeMs, s.sampleTimeMs) == d;
    LemmaRounded(c.kp * e + c.ki * Step(c, s, op).state.integral + c.kd * d);
  }

  lemma LemmaRounded(x: int)
    ensures RoundedToZero(TruncDiv(x, SCALE), x, 1000)
  {
    if x >= 0 {
      LemmaMulSign(x / 1000, x);
    } else {
      LemmaMulSign(-x / 1000, -x);
    }
  }

  lemma LemmaMulSign(a: int, b: int)
    requires a >= 0 && b >= 0
    ensures a * b >= 0 && -a * -b >= 0
  {
  }

  // ---- The law of one update, for every elapsed time -----------------------------------------

  /** The nearest value within the limits, the upper limit if they are out of order. */
  function Saturated(v: int, lo: int, hi: int): int {
    if lo > hi || v > hi then hi else if v < lo then lo else v
  }

  /** `q` is `x / d` rounded toward zero, for a divisor of either sign. */
  ghost predicate Quotient(q: int, x: int, d: int) {
    if d > 0 then RoundedToZero(q, x, d) else RoundedToZero(-q, x, -d)
  }

  lemma LemmaDivision(x: int, d: int)
    requires d != 0
    ensures Quotient(TruncDiv(x, d), x, d)
  {
    if d > 0 {
      LemmaRoundedBy(x, d);
    } else {
      LemmaRoundedBy(x, -d);
      TruncDivOdd(x, -d);
    }
  }

  lemma LemmaRoundedBy(x: int, d: int)
    requires d > 0
    ensures RoundedToZero(TruncDiv(x, d), x, d)
  {
    var m := Abs(x) / d;
    LemmaQuotient(Abs(x), d);
    LemmaMulSign(m, Abs(x));
    LemmaNegProduct(m, d);
    assert TruncDiv(x, d) == if x >= 0 then m else -m;
  }

  /** The law of an update after any time: the integral moves by error times time per sample
      time, the derivative is the change of the error per time times the sample time, each
      rounded toward zero, and a time of 0 stands for the sample time. */
  lemma UpdateLaw(c: Config, s: State, op: Op) returns (q: int, d: int, out: int)
    requires WellFormed(s) && op.UpdateOp?
    ensures var e := Deadbanded(op.setpoint - op.measured, s.deadband);
            var dt := if op.dtMs == 0 then s.sampleTimeMs else op.dtMs;
            var integral := Saturated(s.integral + q, c.integrMin, c.integrMax);
            && RoundedToZero(q, e * dt, s.sampleTimeMs)
            && (if s.hasPrev then RoundedToZero(d, (e - s.prevError) * s.sampleTimeMs, dt) else d == 0)
            && RoundedToZero(out, c.kp * e + c.ki * integral + c.kd * d, 1000)
            && Step(c, s, op).state == State(integral, e, true, s.sampleTimeMs, s.deadband)
            && Step(c, s, op).output == Some(Saturated(out, c.outMin, c.outMax))
  {
    hide RoundedToZero;
    var e := Deadbanded(op.setpoint - op.measured, s.deadband);
    var dt := if op.dtMs == 0 then s.sampleTimeMs else op.dtMs;
    q := TruncDiv(e * dt, s.sampleTimeMs);
    d := if s.hasPrev then TruncDiv((e - s.prevError) * s.sampleTimeMs, dt) else 0;
    var integral := Saturated(s.integral + q, c.integrMin, c.integrMax);
    out := TruncDiv(c.kp * e + c.ki * integral + c.kd * d, SCALE);
    LemmaRoundedBy(e * dt, s.sampleTimeMs);
    LemmaRoundedBy((e - s.prevError) * s.sampleTimeMs, dt);
    LemmaRoundedBy(c.kp * e + c.ki * integral + c.kd * d, SCALE);
    assert Error(s, op.setpoint, op.measured) == e;
    assert Increment(e, dt, s.sampleTimeMs) == q && Derivative(s, e, dt, s.sampleTimeMs) == d;
  }

  // ---- What a run remembers --------------------------------------------------------------------

  /** The sample time in force after a run: the last one set, 1 for 0. */
  function SampleTimeSet(ms: uint32, ops: seq<Op>): int
    decreases |ops|
  {
    if ops == [] then Max(ms, 1)
    else
      match ops[|ops| - 1]
      case SampleTimeOp(latest) => Max(latest, 1)
      case _ => SampleTimeSet(ms, ops[..|ops| - 1])
  }

  /** The deadband in force after a run: the last one set, 0 for a negative one. */
  function DeadbandSet(deadband: int32, ops: seq<Op>): int
    decreases |ops|
  {
    if ops == [] then Max(deadband, 0)
    else
      match ops[|ops| - 1]
      case DeadbandOp(latest) => Max(latest, 0)
      case _ => DeadbandSet(deadband, ops[..|ops| - 1])
  }

  /** The error of the last update of a run, if there is one since the last reset. */
  function LastError(deadband: int32, ops: seq<Op>): Option<int>
    decreases |ops|
  {
    if ops == [] then None
    else
      match ops[|ops| - 1]
      case ResetOp => None
      case UpdateOp(setpoint, measured, _) =>
        Some(Deadbanded(setpoint - measured, DeadbandSet(deadband, ops[..|ops| - 1])))
      case _ => LastError(deadband, ops[..|ops| - 1])
  }

  lemma {:induction false} LemmaRunLast(c: Config, s: State, ops: seq<Op>)
    requires WellFormed(s) && ops != []
    ensures Run(c, s, ops) == Step(c, Run(c, s, ops[..|ops| - 1]), ops[|ops| - 1]).state
    decreases |ops|
  {
    hide Step;
    StepWellFormed(c, s, ops[0]);
    if |ops| > 1 {
      assert ops[..|ops| - 1][1..] == ops[1..][..|ops[1..]| - 1];
      LemmaRunLast(c, Step(c, s, ops[0]).state, ops[1..]);
    }
  }

  lemma {:induction false} LemmaMachineRunLast(c: Config, s: State, ops: seq<Op>)
    requires WellFormed(s) && ops != []
    ensures MachineRun(c, s, ops) == MachineStep(c, MachineRun(c, s, ops[..|ops| - 1]), ops[|ops| - 1]).state
    decreases |ops|
  {
    hide MachineStep;
    StepWellFormed(c, s, ops[0]);
    if |ops| > 1 {
      assert ops[..|ops| - 1][1..] == ops[1..][..|ops[1..]| - 1];
      LemmaMachineRunLast(c, MachineStep(c, s, ops[0]).state, ops[1..]);
    }
  }

  /** The settings in force, the error remembered and the start from zero are those of the
      history; `UpdateLaw` then gives every update of every run. */
  lemma {:induction false} StateMeansHistory(c: Config, ms: uint32, deadband: int32, ops: seq<Op>)
    ensures var s := Run(c, Initial(ms, deadband), ops);
            && s.sampleTimeMs == SampleTimeSet(ms, ops)
            && s.deadband == DeadbandSet(deadband, ops)
            && (if s.hasPrev then LastError(deadband, ops) == Some(s.prevError) else LastError(deadband, ops) == None)
            && (LastError(deadband, ops) == None ==> s.integral == 0)
    decreases |ops|
  {
    hide Increment, Derivative, Output;
    if ops != [] {
      StateMeansHistory(c, ms, deadband, ops[..|ops| - 1]);
      LemmaRunLast(c, Initial(ms, deadband), ops);
    }
  }

  /** The error of the fixed-width controller: the wrapped difference, zero within the deadband.
      The one int32 without an absolute value counts as within. */
  function WrappedError(difference: int, deadband: int): int {
    var e := I32(difference);
    if deadband > 0 && (Abs(e) <= deadband || e == -H32) then 0 else e
  }

  /** All values that the class keeps in an int32. */
  ghost predicate Int32s(c: Config, s: State) {
    && -H32 <= c.kp < H32 && -H32 <= c.ki < H32 && -H32 <= c.kd < H32
    && -H32 <= c.outMin < H32 && -H32 <= c.outMax < H32
    && -H32 <= c.integrMin < H32 && -H32 <= c.integrMax < H32
    && s.deadband < H32
  }

  /** The same law for the fixed-width controller, with no bound on times and errors: the
      divisions are exact, and what wraps is the difference, the sum of integral and increment,
      the derivative and the weighted sum. */
  lemma MachineUpdateLaw(c: Config, s: State, op: Op) returns (q: int, d: int, out: int)
    requires WellFormed(s) && Int32s(c, s) && op.UpdateOp?
    ensures var e := WrappedError(op.setpoint - op.measured, s.deadband);
            var dt := if op.dtMs == 0 then s.sampleTimeMs else op.dtMs;
            var base := if s.sampleTimeMs < H32 then s.sampleTimeMs else s.sampleTimeMs - W32;
            var integral := Saturated(I32(s.integral + q), c.integrMin, c.integrMax);
            var derivative := I32(d);
            && Quotient(q, e * dt, base)
            && (if s.hasPrev then Quotient(d, I32(e - s.prevError) * base, dt) else d == 0)
            && RoundedToZero(out, I64(c.kp * e + c.ki * integral + c.kd * derivative), 1000)
            && MachineStep(c, s, op).state == State(integral, e, true, s.sampleTimeMs, s.deadband)
            && MachineStep(c, s, op).output == Some(Saturated(out, c.outMin, c.outMax))
  {
    hide Quotient, RoundedToZero, MachineStep, MachineIncrement, MachineDerivative, MachineOutput, TruncDiv, I32, I64;
    var e := WrappedError(op.setpoint - op.measured, s.deadband);
    var dt := if op.dtMs == 0 then s.sampleTimeMs else op.dtMs;
    var base := if s.sampleTimeMs < H32 then s.sampleTimeMs else s.sampleTimeMs - W32;
    LemmaBase(s, base);
    LemmaWrappedError(s, op.setpoint, op.measured);
    q := LemmaMachineIncrement(s.integral, e, dt, base);
    d := LemmaMachineDerivative(s, e, dt, base);
    var integral := Saturated(I32(s.integral + q), c.integrMin, c.integrMax);
    out := LemmaMachineOutput(c, s, e, integral, I32(d));
    LemmaFits(0);
    assert Elapsed(s, op.dtMs) == dt;
    MachineStepParts(c, s, op.setpoint, op.measured, op.dtMs, e, integral, I32(d));
  }

  lemma LemmaBase(s: State, base: int)
    requires WellFormed(s) && base == if s.sampleTimeMs < H32 then s.sampleTimeMs else s.sampleTimeMs - W32
    ensures I32(Base(s)) == base != 0
  {
  }

  lemma LemmaWrappedError(s: State, setpoint: int, measured: int)
    requires 0 <= s.deadband < H32
    ensures MachineError(s, setpoint, measured) == WrappedError(setpoint - measured, s.deadband)
  {
    var e: int := I32(setpoint - measured);
    LemmaFits(-e);
  }

  lemma LemmaMachineIncrement(x: int, e: int32, dt: uint32, base: int) returns (q: int)
    requires base != 0
    ensures Quotient(q, e * dt, base) && I32(x + MachineIncrement(e, dt, base)) == I32(x + q)
  {
    hide I32, I64, TruncDiv, Quotient;
    var p := e * dt;
    LemmaMulBound(e, dt, H32, W32 - 1);
    q := LemmaCastQuotient(x, p, base);
    assert MachineIncrement(e, dt, base) == I32(TruncDiv(I64(p), base));
  }

  lemma LemmaCastQuotient(x: int, p: int, base: int) returns (q: int)
    requires base != 0 && -H64 <= p < H64
    ensures Quotient(q, p, base) && I32(x + I32(TruncDiv(I64(p), base))) == I32(x + q)
  {
    hide Quotient;
    LemmaFits(p);
    q := TruncDiv(p, base);
    LemmaDivision(p, base);
    LemmaCastSum(x, q);
  }

  lemma LemmaMachineDerivative(s: State, e: int32, dt: uint32, base: int32) returns (d: int)
    requires dt > 0
    ensures if s.hasPrev then Quotient(d, I32(e - s.prevError) * base, dt) else d == 0
    ensures MachineDerivative(s, e, dt, base) == I32(d)
  {
    hide Quotient;
    var x := I32(e - s.prevError) * base;
    d := if s.hasPrev then TruncDiv(x, dt) else 0;
    LemmaMulBound(I32(e - s.prevError), base, H32, H32);
    LemmaFits(x);
    LemmaDivision(x, dt);
  }

  lemma LemmaMachineOutput(c: Config, s: State, e: int32, integral: int32, derivative: int32) returns (out: int)
    requires Int32s(c, s)
    ensures RoundedToZero(out, I64(c.kp * e + c.ki * integral + c.kd * derivative), 1000)
    ensures MachineOutput(c, e, integral, derivative) == Saturated(out, c.outMin, c.outMax)
  {
    hide I32, I64, TruncDiv, Clamp, Saturated, RoundedToZero;
    var p, i, d := c.kp * e, c.ki * integral, c.kd * derivative;
    LemmaMulBound(c.kp, e, H32, H32);
    LemmaMulBound(c.ki, integral, H32, H32);
    LemmaMulBound(c.kd, derivative, H32, H32);
    out := LemmaWrappedOutput(c, s, p, i, d);
  }

  lemma LemmaWrappedOutput(c: Config, s: State, p: int, i: int, d: int) returns (out: int)
    requires Int32s(c, s) && Within(p, H32 * H32) && Within(i, H32 * H32) && Within(d, H32 * H32)
    ensures RoundedToZero(out, I64(p + i + d), 1000)
    ensures I32(Clamp(TruncDiv(I64(I64(I64(p) + I64(i)) + I64(d)), SCALE), c.outMin, c.outMax))
         == Saturated(out, c.outMin, c.outMax)
  {
    hide RoundedToZero, TruncDiv, I32, I64;
    var sum := I64(p + i + d);
    LemmaWrappedSum(p, i, d);
    out := TruncDiv(sum, SCALE);
    LemmaRoundedBy(sum, SCALE);
    LemmaFits(Saturated(out, c.outMin, c.outMax));
  }

  lemma LemmaWrappedSum(p: int, i: int, d: int)
    requires Within(p, H32 * H32) && Within(i, H32 * H32) && Within(d, H32 * H32)
    ensures I64(I64(I64(p) + I64(i)) + I64(d)) == I64(p + i + d)
  {
    LemmaFits(p);
    LemmaFits(i);
    LemmaFits(d);
    LemmaCastSum64(p + i, d);
  }

  lemma LemmaCastSum64(x: int, y: int)
    ensures I64(I64(x) + y) == I64(x + y)
  {
  }

  /** The derivative is a rate: an error that moves by `r` per ms gives `r` per sample time,
      whatever time has passed. */
  lemma RampDerivative(s: State, error: int, elapsed: int, base: int, r: int)
    requires s.hasPrev && elapsed > 0 && error - s.prevError == r * elapsed
    ensures Derivative(s, error, elapsed, base) == r * base
  {
    LemmaSwapFactors(r, elapsed, base);
    TruncDivExact(r * base, elapsed);
  }

  lemma LemmaSwapFactors(x: int, y: int, z: int)
    ensures x * y * z == x * z * y
  {
  }

  /** The sum of the errors of a run of updates. */
  ghost function ErrorSum(ops: seq<Op>, deadband: int): int {
    if ops == [] || !ops[0].UpdateOp? then 0
    else Deadbanded(ops[0].setpoint - ops[0].measured, deadband) + ErrorSum(ops[1..], deadband)
  }

  /** Over nominal, unsaturated updates the integral is the exact sum of the errors. */
  lemma {:induction false} NominalRunSums(c: Config, s: State, ops: seq<Op>)
    requires WellFormed(s) && Unsaturated(c, s, ops) && forall i | 0 <= i < |ops| :: Nominal(s, ops[i])
    ensures Run(c, s, ops).integral == s.integral + ErrorSum(ops, s.deadband)
    decreases |ops|
  {
    if ops != [] {
      var s' := Step(c, s, ops[0]).state;
      NominalUpdate(c, s, ops[0]);
      forall i | 0 <= i < |ops[1..]| ensures Nominal(s', ops[1..][i]) {
        assert Nominal(s, ops[i + 1]);
      }
      TruncDivExact(Error(s, ops[0].setpoint, ops[0].measured), s.sampleTimeMs);
      NominalRunSums(c, s', ops[1..]);
    }
  }

  // ---- The fixed-width controller ------------------------------------------------------------

  const LIMIT: int := 0x4000_0000   // 2^30

  /** Any int32 gains and output limits, integrator limits within 2^30. */
  ghost predicate SafeConfig(c: Config) {
    && -H32 <= c.kp < H32 && -H32 <= c.ki < H32 && -H32 <= c.kd < H32
    && -H32 <= c.outMin < H32 && -H32 <= c.outMax < H32
    && -LIMIT <= c.integrMin <= LIMIT && -LIMIT <= c.integrMax <= LIMIT
  }

  predicate Within(x: int, e: int) { -e <= x <= e }

  /** What a caller has to respect at one operation, `e` bounding every error:
      2 * e * sampleTime below 2^31, and e * dt at most (2^30 - 1) * sampleTime. */
  ghost predicate SafeOp(e: int, s: State, op: Op)
    requires WellFormed(s)
  {
    op.UpdateOp? ==>
      && Within(op.setpoint - op.measured, e)
      && Base(s) < H32
      && 2 * e * Base(s) < H32
      && e * Elapsed(s, op.dtMs) <= (LIMIT - 1) * Base(s)
  }

  ghost predicate SafeRun(e: int, s: State, ops: seq<Op>)
    requires WellFormed(s)
    decreases |ops|
  {
    ops != [] ==> SafeOp(e, s, ops[0]) && SafeRun(e, Settings(s, ops[0]), ops[1..])
  }

  ghost predicate SafeState(e: int, s: State) {
    && WellFormed(s) && s.deadband < H32
    && 0 <= e && Within(s.integral, LIMIT) && Within(s.prevError, e)
  }

  lemma LemmaErrorFits(e: int, s: State, op: Op)
    requires SafeState(e, s) && op.UpdateOp? && SafeOp(e, s, op)
    ensures e < LIMIT
    ensures MachineError(s, op.setpoint, op.measured) == Error(s, op.setpoint, op.measured)
    ensures Within(Error(s, op.setpoint, op.measured), e)
    ensures I32(Base(s)) == Base(s)
  {
    LemmaMulMono(1, Base(s), 2 * e);
    var error := op.setpoint - op.measured;
    LemmaFits(error);
    LemmaFits(-error);
    LemmaFits(Base(s));
  }

  lemma LemmaIncrementFits(e: int, error: int, elapsed: int, base: int)
    requires Within(error, e) && e < LIMIT && 0 < elapsed < W32 && base > 0
    requires e * elapsed <= (LIMIT - 1) * base
    ensures MachineIncrement(error, elapsed, base) == Increment(error, elapsed, base)
    ensures Within(Increment(error, elapsed, base), LIMIT - 1)
  {
    LemmaMulBound(error, elapsed, e, elapsed);
    LemmaMulBound(error, elapsed, LIMIT, W32);
    LemmaFits(error * elapsed);
    TruncDivBound(error * elapsed, base, LIMIT - 1);
    LemmaFits(TruncDiv(error * elapsed, base));
  }

  lemma LemmaIntegralFits(x: int, increment: int)
    requires Within(x, LIMIT) && Within(increment, LIMIT - 1)
    ensures I32(x + increment) == x + increment
  {
    LemmaFits(x + increment);
  }

  lemma LemmaDerivativeFits(e: int, s: State, error: int, elapsed: int, base: int)
    requires Within(error, e) && Within(s.prevError, e) && elapsed > 0 && base > 0 && 2 * e * base < H32
    ensures MachineDerivative(s, error, elapsed, base) == Derivative(s, error, elapsed, base)
    ensures -H32 < Derivative(s, error, elapsed, base) < H32
  {
    var delta := error - s.prevError;
    LemmaMulMono(1, base, 2 * e);
    LemmaMulBound(delta, base, 2 * e, base);
    LemmaFits(delta);
    LemmaFits(delta * base);
    LemmaMulMono(1, elapsed, H32 - 1);
    TruncDivBound(delta * base, elapsed, H32 - 1);
    LemmaFits(TruncDiv(delta * base, elapsed));
  }

  lemma LemmaOutputFits(c: Config, error: int, integral: int, derivative: int)
    requires SafeConfig(c)
    requires -LIMIT < error < LIMIT && -LIMIT <= integral <= LIMIT && -H32 < derivative < H32
    ensures MachineOutput(c, error, integral, derivative) == Output(c, error, integral, derivative)
  {
    LemmaMulBound(c.kp, error, H32, LIMIT - 1);
    LemmaMulBound(c.ki, integral, H32, LIMIT);
    LemmaMulBound(c.kd, derivative, H32, H32 - 1);
    LemmaWeightedSum(c, c.kp * error, c.ki * integral, c.kd * derivative);
  }

  lemma LemmaWeightedSum(c: Config, p: int, i: int, d: int)
    requires SafeConfig(c)
    requires Within(p, H32 * (LIMIT - 1)) && Within(i, H32 * LIMIT) && Within(d, H32 * (H32 - 1))
    ensures I32(Clamp(TruncDiv(I64(I64(I64(p) + I64(i)) + I64(d)), SCALE), c.outMin, c.outMax))
         == Clamp(TruncDiv(p + i + d, SCALE), c.outMin, c.outMax)
  {
    LemmaSumFits(p, i, d);
    LemmaFits(Clamp(TruncDiv(p + i + d, SCALE), c.outMin, c.outMax));
  }

  lemma LemmaSumFits(p: int, i: int, d: int)
    requires Within(p, H32 * (LIMIT - 1)) && Within(i, H32 * LIMIT) && Within(d, H32 * (H32 - 1))
    ensures I64(I64(I64(p) + I64(i)) + I64(d)) == p + i + d
  {
    LemmaFits(p);
    LemmaFits(i);
    LemmaFits(d);
    LemmaFits(p + i);
    LemmaFits(p + i + d);
  }

  lemma LemmaStepRefines(c: Config, e: int, s: State, op: Op)
    requires SafeConfig(c) && SafeState(e, s) && SafeOp(e, s, op)
    ensures MachineStep(c, s, op) == Step(c, s, op)
    ensures SafeState(e, Step(c, s, op).state)
    ensures SameSettings(Step(c, s, op).state, Settings(s, op))
  {
    if op.UpdateOp? {
      LemmaUpdateRefines(c, e, s, op);
    }
  }

  lemma LemmaUpdateRefines(c: Config, e: int, s: State, op: Op)
    requires SafeConfig(c) && SafeState(e, s) && op.UpdateOp? && SafeOp(e, s, op)
    ensures MachineStep(c, s, op) == Step(c, s, op)
    ensures SafeState(e, Step(c, s, op).state)
  {
    var error, elapsed, base := Error(s, op.setpoint, op.measured), Elapsed(s, op.dtMs), Base(s);
    LemmaErrorFits(e, s, op);
    var increment, derivative := Increment(error, elapsed, base), Derivative(s, error, elapsed, base);
    LemmaIncrementFits(e, error, elapsed, base);
    LemmaDerivativeFits(e, s, error, elapsed, base);
    LemmaIntegralFits(s.integral, increment);
    var integral := Clamp(s.integral + increment, c.integrMin, c.integrMax);
    LemmaOutputFits(c, error, integral, derivative);
    LemmaPartsAgree(c, s, op, error, increment, derivative);
  }

  lemma LemmaPartsAgree(c: Config, s: State, op: Op, error: int, increment: int, derivative: int)
    requires WellFormed(s) && op.UpdateOp? && I32(Base(s)) == Base(s)
    requires error == Error(s, op.setpoint, op.measured) == MachineError(s, op.setpoint, op.measured)
    requires increment == Increment(error, Elapsed(s, op.dtMs), Base(s))
                       == MachineIncrement(error, Elapsed(s, op.dtMs), Base(s))
    requires derivative == Derivative(s, error, Elapsed(s, op.dtMs), Base(s))
                        == MachineDerivative(s, error, Elapsed(s, op.dtMs), Base(s))
    requires I32(s.integral + increment) == s.integral + increment
    requires var integral := Clamp(s.integral + increment, c.integrMin, c.integrMax);
             MachineOutput(c, error, integral, derivative) == Output(c, error, integral, derivative)
    ensures MachineStep(c, s, op) == Step(c, s, op)
  {
    var integral := Clamp(s.integral + increment, c.integrMin, c.integrMax);
    MachineStepParts(c, s, op.setpoint, op.measured, op.dtMs, error, integral, derivative);
  }

  lemma {:induction false} LemmaSafeRunSettings(e: int, s: State, t: State, ops: seq<Op>)
    requires WellFormed(s) && WellFormed(t) && SameSettings(s, t)
    ensures SafeRun(e, s, ops) == SafeRun(e, t, ops)
    decreases |ops|
  {
    if ops != [] {
      LemmaSafeRunSettings(e, Settings(s, ops[0]), Settings(t, ops[0]), ops[1..]);
    }
  }

  /** Fixed-width refinement: within the bounds no operation of any run overflows or
      truncates, so states and outputs are those of the unbounded controller. */
  lemma {:induction false} MachineRefinesIdeal(c: Config, e: int, s: State, ops: seq<Op>)
    requires SafeConfig(c) && SafeState(e, s) && SafeRun(e, s, ops)
    ensures MachineRun(c, s, ops) == Run(c, s, ops)
    ensures MachineOutputs(c, s, ops) == Outputs(c, s, ops)
    decreases |ops|
  {
    if ops != [] {
      LemmaStepRefines(c, e, s, ops[0]);
      LemmaSafeRunSettings(e, Settings(s, ops[0]), Step(c, s, ops[0]).state, ops[1..]);
      MachineRefinesIdeal(c, e, Step(c, s, ops[0]).state, ops[1..]);
    }
  }

  /** The controller as the thermostat configures it (temperatures in tenths of a degree). */
  const THERMOSTAT: Config := Config(40000, 500, 300, 0, 1000, -2000, 2000)
  const SAMPLE_PERIOD_MS: uint32 := 1000
  const DEADBAND: int32 := 1

  ghost predicate ThermostatOp(op: Op) {
    match op
    case UpdateOp(setpoint, measured, dtMs) =>
      -95 <= setpoint <= 995 && -9000 <= measured <= 9000 && dtMs <= 100_000_000
    case ResetOp => true
    case _ => false
  }

  /** In the thermostat, with updates at most 10^8 ms (27 hours) apart, nothing overflows. */
  lemma ThermostatNeverOverflows(ops: seq<Op>)
    requires forall op <- ops :: ThermostatOp(op)
    ensures MachineRun(THERMOSTAT, Initial(SAMPLE_PERIOD_MS, DEADBAND), ops)
         == Run(THERMOSTAT, Initial(SAMPLE_PERIOD_MS, DEADBAND), ops)
    ensures MachineOutputs(THERMOSTAT, Initial(SAMPLE_PERIOD_MS, DEADBAND), ops)
         == Outputs(THERMOSTAT, Initial(SAMPLE_PERIOD_MS, DEADBAND), ops)
  {
    LemmaThermostatSafe(Initial(SAMPLE_PERIOD_MS, DEADBAND), ops);
    MachineRefinesIdeal(THERMOSTAT, 10_000, Initial(SAMPLE_PERIOD_MS, DEADBAND), ops);
  }

  lemma {:induction false} LemmaThermostatSafe(s: State, ops: seq<Op>)
    requires WellFormed(s) && s.sampleTimeMs == SAMPLE_PERIOD_MS && forall op <- ops :: ThermostatOp(op)
    ensures SafeRun(10_000, s, ops)
    decreases |ops|
  {
    if ops != [] {
      assert ThermostatOp(ops[0]);
      LemmaThermostatSafe(Settings(s, ops[0]), ops[1..]);
    }
  }

  /** The cast of the increment to int32 is exact precisely for these errors and times. */
  lemma IncrementCastExactly(error: int32, elapsed: uint32, base: int)
    requires base > 0
    ensures MachineIncrement(error, elapsed, base) == Increment(error, elapsed, base)
            <==> -(H32 + 1) * base < error * elapsed < H32 * base
  {
    LemmaMulBound(error, elapsed, H32, W32 - 1);
    LemmaFits(error * elapsed);
    var x := error * elapsed;
    LemmaQuotient(Abs(x), base);
    if x >= 0 {
      LemmaQuotientBelow(x, base, H32);
      LemmaNegProduct(H32 + 1, base);
    } else {
      LemmaQuotientBelow(-x, base, H32 + 1);
      LemmaNegProduct(H32 + 1, base);
    }
    LemmaCastFits(Increment(error, elapsed, base));
  }

  /** The sum of the integral and the cast increment is exact precisely for these errors and
      times. A cast that wraps is undone by a sum that wraps back. */
  lemma AccumulationExactly(x: int32, error: int32, elapsed: uint32, base: int)
    requires base > 0
    ensures I32(x + MachineIncrement(error, elapsed, base)) == x + Increment(error, elapsed, base)
            <==> SumFits(x, error, elapsed, base)
    ensures SumFits(x, error, elapsed, base) <==> -H32 <= x + Increment(error, elapsed, base) < H32
    ensures I32(x + MachineIncrement(error, elapsed, base)) == I32(x + Increment(error, elapsed, base))
    ensures error * elapsed >= (H32 - x) * base <==> x + Increment(error, elapsed, base) >= H32
  {
    LemmaMulBound(error, elapsed, H32, W32 - 1);
    LemmaFits(error * elapsed);
    var p := error * elapsed;
    LemmaTruncBelow(p, base, H32 - x);
    LemmaTruncBelow(-p, base, H32 + 1 + x);
    TruncDivOdd(p, base);
    LemmaNegProduct(H32 + 1 + x, base);
    LemmaCastSum(x, Increment(error, elapsed, base));
    LemmaCastFits(x + Increment(error, elapsed, base));
  }

  /** The bound a caller can check: the error times the elapsed time against the room that the
      integral leaves. */
  ghost predicate SumFits(x: int, error: int, elapsed: int, base: int) {
    -(H32 + 1 + x) * base < error * elapsed < (H32 - x) * base
  }

  lemma LemmaTruncBelow(a: int, b: int, q: int)
    requires b > 0 && q > 0
    ensures TruncDiv(a, b) < q <==> a < q * b
  {
    LemmaMulMono(1, q, b);
    if a >= 0 {
      LemmaQuotientBelow(a, b, q);
    } else {
      LemmaQuotient(-a, b);
    }
  }

  lemma LemmaCastSum(x: int, y: int)
    ensures I32(x + I32(y)) == I32(x + y)
  {
  }

  /** The integral that an update stores is the one of the controller on unbounded integers
      exactly if the sum fits, or wraps to a value that the limits send to the same place:
      beyond the limit that it had passed, or anywhere if the limits leave only one value. */
  lemma StoredIntegralExactly(c: Config, s: State, op: Op)
    requires WellFormed(s) && s.sampleTimeMs < H32 && -H32 <= s.integral < H32
    requires -H32 <= c.integrMin < H32 && -H32 <= c.integrMax < H32
    requires op.UpdateOp? && MachineError(s, op.setpoint, op.measured) == Error(s, op.setpoint, op.measured)
    ensures var error, elapsed := Error(s, op.setpoint, op.measured), Elapsed(s, op.dtMs);
            var wrapped := I32(s.integral + Increment(error, elapsed, s.sampleTimeMs));
            MachineStep(c, s, op).state.integral == Step(c, s, op).state.integral
            <==> || SumFits(s.integral, error, elapsed, s.sampleTimeMs)
                 || c.integrMin >= c.integrMax
                 || (if error > 0 then wrapped >= c.integrMax else wrapped <= c.integrMin)
  {
    hide Increment, MachineIncrement, SumFits, MachineDerivative, MachineOutput, Derivative, Output;
    var error, elapsed, base := Error(s, op.setpoint, op.measured), Elapsed(s, op.dtMs), s.sampleTimeMs;
    LemmaFits(base);
    AccumulationExactly(s.integral, error, elapsed, base);
    LemmaIncrementSign(error, elapsed, base);
    LemmaClampAgrees(s.integral + Increment(error, elapsed, base), c.integrMin, c.integrMax);
  }

  lemma LemmaClampAgrees(v: int, lo: int32, hi: int32)
    ensures Clamp(I32(v), lo, hi) == Clamp(v, lo, hi)
            <==> || -H32 <= v < H32 || lo >= hi
                 || (if v > 0 then I32(v) >= hi else I32(v) <= lo)
  {
    LemmaFits(v);
  }

  lemma LemmaIncrementSign(error: int, elapsed: nat, base: int)
    requires base > 0
    ensures error > 0 ==> Increment(error, elapsed, base) >= 0
    ensures error <= 0 ==> Increment(error, elapsed, base) <= 0
  {
    LemmaMulMono(if error > 0 then 0 else error, if error > 0 then error else 0, elapsed);
    TruncDivMono(if error > 0 then 0 else error * elapsed, if error > 0 then error * elapsed else 0, base);
  }

  /** The error is exact precisely if the difference fits and is not the int32 whose absolute
      value does not. */
  lemma ErrorExactly(s: State, setpoint: int32, measured: int32)
    requires 0 <= s.deadband < H32
    ensures MachineError(s, setpoint, measured) == Error(s, setpoint, measured)
            <==> -H32 < setpoint - measured < H32 || (setpoint - measured == -H32 && s.deadband == 0)
  {
    LemmaFits(setpoint - measured);
    LemmaFits(measured - setpoint);
  }

  lemma LemmaCastFits(x: int)
    ensures I32(x) == x <==> -H32 <= x < H32
  {
  }

  lemma LemmaQuotientBelow(a: nat, b: nat, q: nat)
    requires b > 0 && q > 0
    ensures a / b < q <==> a < q * b
  {
    LemmaQuotient(a, b);
    if a / b < q {
      LemmaMulMono(a / b + 1, q, b);
    } else {
      LemmaMulMono(q, a / b, b);
    }
  }

  /** The bound on the gap is needed: after 2^32 - 1 ms the increment, 2^32 - 1 for an error
      of 100 degrees, is cast to -1 and the integral moves the wrong way. */
  lemma LongGapTurnsTheIntegralAround()
    ensures var s, op := Initial(SAMPLE_PERIOD_MS, DEADBAND), UpdateOp(995, -5, 0xFFFF_FFFF);
            && MachineStep(THERMOSTAT, s, op).state.integral == -1
            && Step(THERMOSTAT, s, op).state.integral == 2000
  {
    var s, op := Initial(SAMPLE_PERIOD_MS, DEADBAND), UpdateOp(995, -5, 0xFFFF_FFFF);
    LemmaLongGapIncrement();
    assert Step(THERMOSTAT, s, op).state.integral == Clamp(0 + Increment(1000, 0xFFFF_FFFF, 1000), -2000, 2000);
    MachineStepParts(THERMOSTAT, s, 995, -5, 0xFFFF_FFFF, 1000, -1, 0);
  }

  /** The cast alone is not enough: after two gaps of 2^31 - 1 ms every cast is exact, but the
      second sum wraps and the integral goes from its upper limit to its lower one. */
  lemma SecondLongGapTurnsTheIntegralAround()
    ensures var s, op := Initial(SAMPLE_PERIOD_MS, DEADBAND), UpdateOp(995, -5, 0x7FFF_FFFF);
            && MachineIncrement(1000, 0x7FFF_FFFF, 1000) == Increment(1000, 0x7FFF_FFFF, 1000)
            && MachineRun(THERMOSTAT, s, [op]).integral == Run(THERMOSTAT, s, [op]).integral == 2000
            && MachineRun(THERMOSTAT, s, [op, op]).integral == -2000
            && Run(THERMOSTAT, s, [op, op]).integral == 2000
  {
    var s, op := Initial(SAMPLE_PERIOD_MS, DEADBAND), UpdateOp(995, -5, 0x7FFF_FFFF);
    IncrementCastExactly(1000, 0x7FFF_FFFF, 1000);
    TruncDivExact(0x7FFF_FFFF, 1000);
    LemmaTwoUpdates(s, op, 0x7FFF_FFFF);
  }

  lemma LemmaTwoUpdates(s: State, op: Op, increment: int)
    requires s == Initial(SAMPLE_PERIOD_MS, DEADBAND) && op == UpdateOp(995, -5, 0x7FFF_FFFF)
    requires increment == 0x7FFF_FFFF == MachineIncrement(1000, 0x7FFF_FFFF, 1000) == Increment(1000, 0x7FFF_FFFF, 1000)
    ensures MachineRun(THERMOSTAT, s, [op]).integral == Run(THERMOSTAT, s, [op]).integral == 2000
    ensures MachineRun(THERMOSTAT, s, [op, op]).integral == -2000
    ensures Run(THERMOSTAT, s, [op, op]).integral == 2000
  {
    hide Increment, MachineIncrement, MachineDerivative, MachineOutput, Derivative, Output;
    assert [op, op][1..] == [op] && [op][1..] == [];
    var s1, m1 := Step(THERMOSTAT, s, op).state, MachineStep(THERMOSTAT, s, op).state;
    assert s1.integral == m1.integral == 2000;
    assert I32(2000 + increment) < -2000;
    assert MachineStep(THERMOSTAT, m1, op).state.integral == -2000;
    StepWellFormed(THERMOSTAT, s, op);
    assert MachineRun(THERMOSTAT, s, [op, op]) == MachineRun(THERMOSTAT, m1, [op]);
  }

  lemma LemmaLongGapIncrement()
    ensures Increment(1000, 0xFFFF_FFFF, 1000) == 0xFFFF_FFFF
    ensures MachineIncrement(1000, 0xFFFF_FFFF, 1000) == -1
  {
    TruncDivExact(0xFFFF_FFFF, 1000);
  }
}
