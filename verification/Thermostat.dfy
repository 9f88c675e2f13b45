/** The thermostat: a table-driven state machine that turns temperature samples and button
    events into a heater power, with the PID controller inside. */
module Thermostat {
  import opened Arith
  import opened Events
  import opened Options
  import opened Words
  import Pid
  import PidRuns

  const SETPOINT_MIN: int := -95
  const SETPOINT_MAX: int := 995
  const SETPOINT_STEP: int := 5
  const ERROR_DELTA: int := 30
  const DISPLAY_MS: int := 3000
  const MAX_POWER: int := 1000

  // ---- The transition table -----------------------------------------------------------

  /** `AnyMode` is the table's wildcard for source modes. */
  datatype Mode = Idle | Heating | Error | AnyMode

  datatype Guard = NoGuard | IsHeld | ClickS1 | ClickS2

  datatype Action = PidTick | TemperatureSample | DecreaseSetpoint | IncreaseSetpoint | Beep

  /** The next mode: what the action computes, or a fixed one. */
  datatype Target = Compute | Fixed(mode: Mode)

  datatype Transition = Transition(signal: EventType, source: Mode, guard: Guard, action: Action, target: Target)

  const TABLE: seq<Transition> := [
    Transition(Tick100ms, Idle, NoGuard, PidTick, Fixed(Idle)),
    Transition(Tick100ms, Heating, NoGuard, PidTick, Fixed(Heating)),
    Transition(TemperatureReady, AnyMode, NoGuard, TemperatureSample, Compute),
    Transition(ButtonS1, AnyMode, ClickS1, DecreaseSetpoint, Compute),
    Transition(ButtonS1, AnyMode, IsHeld, DecreaseSetpoint, Compute),
    Transition(ButtonS2, AnyMode, ClickS2, IncreaseSetpoint, Compute),
    Transition(ButtonS2, AnyMode, IsHeld, IncreaseSetpoint, Compute),
    Transition(ButtonS1, AnyMode, NoGuard, Beep, Fixed(AnyMode)),
    Transition(ButtonS2, AnyMode, NoGuard, Beep, Fixed(AnyMode)),
    Transition(ButtonS3, AnyMode, NoGuard, Beep, Fixed(AnyMode)),
    Transition(ButtonS4, AnyMode, NoGuard, Beep, Fixed(AnyMode))
  ]

  // ---- The state and what changes it ----------------------------------------------------

  datatype State = State(setpoint: int32, current: int32, mode: Mode, showingSetpoint: bool, displayDeadline: uint32,
                         heaterPower: int32, lastPid: uint32, s1Held: bool, s2Held: bool, pid: Pid.State, pwm: int)

  /** The real times of the readings of the millisecond counter during a call. */
  datatype Clock = Clock(first: nat, second: nat, third: nat)

  datatype Call = Process(event: Event, clock: Clock) | Poll(clock: Clock)

  const INITIAL: State :=
    State(400, 0, Idle, false, 0, 0, 0, false, false, Pid.Initial(PidRuns.SAMPLE_PERIOD_MS, PidRuns.DEADBAND), 0)

  function Evaluate(setpoint: int, current: int): Mode {
    if current > setpoint + ERROR_DELTA then Error else if current < setpoint then Heating else Idle
  }

  function Limited(power: int): int { Min(Max(power, 0), MAX_POWER) }

  /** `updateOutputsFor`. */
  function UpdateOutputs(s: State, mode: Mode): State {
    s.(pwm := Limited(if mode == Error then 0 else s.heaterPower))
  }

  function ResetPid(s: State): State { s.(pid := Pid.Settings(s.pid, Pid.ResetOp)) }

  /** `applyState`. */
  function ApplyMode(s: State, mode: Mode, now: uint32): State {
    var s' := if mode == Error then ResetPid(s.(mode := mode, heaterPower := 0))
              else if s.mode == Error then s.(mode := mode, lastPid := now)
              else s.(mode := mode);
    UpdateOutputs(s', mode)
  }

  /** `m_pid.update`: with the C++ widths, or on unbounded integers if `ideal`. */
  function PidStep(ideal: bool, pid: Pid.State, setpoint: int, measured: int, dtMs: uint32): Pid.Outcome
    requires 0 < pid.sampleTimeMs < W32
  {
    var op := Pid.UpdateOp(setpoint, measured, dtMs);
    if ideal then Pid.Step(PidRuns.THERMOSTAT, pid, op) else Pid.MachineStep(PidRuns.THERMOSTAT, pid, op)
  }

  lemma LemmaPower(ideal: bool, pid: Pid.State, setpoint: int, measured: int, dtMs: uint32)
    requires 0 < pid.sampleTimeMs < W32
    ensures var o := PidStep(ideal, pid, setpoint, measured, dtMs);
            && o.output.Some? && 0 <= o.output.value <= MAX_POWER
            && o.state.sampleTimeMs == pid.sampleTimeMs && o.state.deadband == pid.deadband
  {
    hide Pid.Increment, Pid.MachineIncrement, Pid.Derivative, Pid.MachineDerivative;
    LemmaOutputRange(0, 0, 0);
    forall e, i, d
      ensures 0 <= Pid.MachineOutput(PidRuns.THERMOSTAT, e, i, d) <= MAX_POWER
      ensures 0 <= Pid.Output(PidRuns.THERMOSTAT, e, i, d) <= MAX_POWER
    {
      LemmaOutputRange(e, i, d);
    }
  }

  lemma LemmaOutputRange(e: int, i: int, d: int)
    ensures 0 <= Pid.Output(PidRuns.THERMOSTAT, e, i, d) <= MAX_POWER
    ensures 0 <= Pid.MachineOutput(PidRuns.THERMOSTAT, e, i, d) <= MAX_POWER
  {
    var sum := I64(I64(I64(PidRuns.THERMOSTAT.kp * e) + I64(PidRuns.THERMOSTAT.ki * i)) + I64(PidRuns.THERMOSTAT.kd * d));
    LemmaFits(Pid.Clamp(TruncDiv(sum, Pid.SCALE), 0, 1000));
  }

  /** `actionTemperatureSample`, up to the mode it returns. */
  function Sample(ideal: bool, s: State, value: int32, now: uint32): State
    requires 0 < s.pid.sampleTimeMs < W32
  {
    var s0 := s.(current := value);
    if Evaluate(s.setpoint, value) == Error then s0.(heaterPower := 0)
    else
      var s1 := if s.mode == Error then ResetPid(s0.(heaterPower := 0, lastPid := now)) else s0;
      var dt := U32(now - s1.lastPid);
      var o := PidStep(ideal, s1.pid, s1.setpoint, value, if dt == 0 then 1 else dt);
      LemmaPower(ideal, s1.pid, s1.setpoint, value, if dt == 0 then 1 else dt);
      s1.(lastPid := now, pid := o.state, heaterPower := o.output.value)
  }

  /** `actionDecreaseSetpoint` and `actionIncreaseSetpoint`, up to the mode they return. */
  function MoveSetpoint(s: State, step: int, clock: Clock): State
    requires -5 <= step <= 5 && SETPOINT_MIN <= s.setpoint <= SETPOINT_MAX
  {
    ResetPid(s.(setpoint := if step < 0 then Max(s.setpoint + step, SETPOINT_MIN) else Min(s.setpoint + step, SETPOINT_MAX),
                showingSetpoint := true, displayDeadline := U32(U32(clock.first) + DISPLAY_MS),
                heaterPower := 0, lastPid := U32(clock.second)))
  }

  /** What every reachable state satisfies. */
  ghost predicate Good(s: State) {
    && SETPOINT_MIN <= s.setpoint <= SETPOINT_MAX
    && 0 <= s.heaterPower <= MAX_POWER && s.pwm == s.heaterPower
    && (s.heaterPower != 0 ==> s.current <= s.setpoint + ERROR_DELTA)
    && s.pid.sampleTimeMs == PidRuns.SAMPLE_PERIOD_MS && s.pid.deadband == PidRuns.DEADBAND
    && (s.mode == Error ==> s.heaterPower == 0 && Fresh(s.pid))
  }

  predicate Fresh(pid: Pid.State) { pid == Pid.Initial(PidRuns.SAMPLE_PERIOD_MS, PidRuns.DEADBAND) }

  predicate GuardHolds(s: State, guard: Guard, e: Event) {
    match guard
    case NoGuard => true
    case IsHeld => e.value == 1
    case ClickS1 => e.value == 2 && !s.s1Held
    case ClickS2 => e.value == 2 && !s.s2Held
  }

  predicate Matches(s: State, row: Transition, e: Event) {
    && (row.signal == e.kind || row.signal == Any)
    && (row.source == s.mode || row.source == AnyMode)
    && GuardHolds(s, row.guard, e)
  }

  /** The first row from index `i` on that matches, or the length of the table. */
  function FirstMatch(s: State, e: Event, i: nat): (k: nat)
    requires i <= |TABLE|
    ensures i <= k <= |TABLE|
    decreases |TABLE| - i
  {
    if i == |TABLE| || Matches(s, TABLE[i], e) then i else FirstMatch(s, e, i + 1)
  }

  lemma LemmaRemember(s: State, e: Event)
    ensures var s0 := Remember(s, e);
            s0.pid == s.pid && s0.setpoint == s.setpoint && s0.mode == s.mode
  {
  }

  /** The flags that remember a held button. */
  function Remember(s: State, e: Event): State {
    if e.kind == ButtonS1 && (e.value == 0 || e.value == 1) then s.(s1Held := e.value == 1)
    else if e.kind == ButtonS2 && (e.value == 0 || e.value == 1) then s.(s2Held := e.value == 1)
    else s
  }

  function Act(ideal: bool, s: State, action: Action, e: Event, clock: Clock): State
    requires 0 < s.pid.sampleTimeMs < W32 && SETPOINT_MIN <= s.setpoint <= SETPOINT_MAX
  {
    match action
    case PidTick => UpdateOutputs(s, s.mode)
    case TemperatureSample => Sample(ideal, s, e.value, U32(clock.first))
    case DecreaseSetpoint => MoveSetpoint(s, -SETPOINT_STEP, clock)
    case IncreaseSetpoint => MoveSetpoint(s, SETPOINT_STEP, clock)
    case Beep => s
  }

  function ProcessEvent(ideal: bool, s: State, e: Event, clock: Clock): State
    requires 0 < s.pid.sampleTimeMs < W32 && SETPOINT_MIN <= s.setpoint <= SETPOINT_MAX
  {
    var s0 := Remember(s, e);
    var k := FirstMatch(s0, e, 0);
    if k == |TABLE| then s0
    else
      var s1 := Act(ideal, s0, TABLE[k].action, e, clock);
      var next := if TABLE[k].target == Compute then Evaluate(s1.setpoint, s1.current) else TABLE[k].target.mode;
      ApplyMode(s1, next, U32(clock.third))
  }

  /** `poll`: the display of the setpoint times out. */
  function PollDisplay(s: State, clock: Clock): State {
    if s.showingSetpoint && I32(U32(U32(clock.first) - s.displayDeadline)) >= 0 then
      ApplyMode(s.(showingSetpoint := false), Evaluate(s.setpoint, s.current), U32(clock.third))
    else s
  }

  function Step(ideal: bool, s: State, call: Call): State
    requires 0 < s.pid.sampleTimeMs < W32 && SETPOINT_MIN <= s.setpoint <= SETPOINT_MAX
  {
    match call
    case Process(e, clock) => ProcessEvent(ideal, s, e, clock)
    case Poll(clock) => PollDisplay(s, clock)
  }

  // ---- What the table decides ----------------------------------------------------------------

  /** The step of the setpoint that an event asks for, given the held flags before it: one step
      for a Held, one for a release without a Held before it. */
  function Nudge(s: State, e: Event): int {
    if e.kind == ButtonS1 && (e.value == 1 || (e.value == 2 && !s.s1Held)) then -SETPOINT_STEP
    else if e.kind == ButtonS2 && (e.value == 1 || (e.value == 2 && !s.s2Held)) then SETPOINT_STEP
    else 0
  }

  /** The reaction to an event, without the table. */
  function Reaction(ideal: bool, s: State, e: Event, clock: Clock): State
    requires 0 < s.pid.sampleTimeMs < W32 && SETPOINT_MIN <= s.setpoint <= SETPOINT_MAX
  {
    var s0 := Remember(s, e);
    if e.kind == TemperatureReady then
      var s1 := Sample(ideal, s0, e.value, U32(clock.first));
      ApplyMode(s1, Evaluate(s1.setpoint, s1.current), U32(clock.third))
    else if Nudge(s, e) != 0 then
      var s1 := MoveSetpoint(s0, Nudge(s, e), clock);
      ApplyMode(s1, Evaluate(s1.setpoint, s1.current), U32(clock.third))
    else if IsButton(e.kind) then ApplyMode(s0, AnyMode, U32(clock.third))
    else if e.kind == Tick100ms && (s.mode == Idle || s.mode == Heating) then
      ApplyMode(UpdateOutputs(s0, s.mode), s.mode, U32(clock.third))
    else s0
  }

  lemma {:induction false} LemmaFirstMatch(s: State, e: Event, i: nat, k: nat)
    requires i <= k <= |TABLE|
    requires forall j | i <= j < k :: !Matches(s, TABLE[j], e)
    requires k < |TABLE| ==> Matches(s, TABLE[k], e)
    ensures FirstMatch(s, e, i) == k
    decreases k - i
  {
    if i < k {
      LemmaFirstMatch(s, e, i + 1, k);
    }
  }

  /** The row that decides about an event. */
  function Row(s: State, e: Event): nat {
    match e.kind
    case Tick100ms => if s.mode == Idle then 0 else if s.mode == Heating then 1 else 11
    case TemperatureReady => 2
    case ButtonS1 => if e.value == 2 && !s.s1Held then 3 else if e.value == 1 then 4 else 7
    case ButtonS2 => if e.value == 2 && !s.s2Held then 5 else if e.value == 1 then 6 else 8
    case ButtonS3 => 9
    case ButtonS4 => 10
    case _ => 11
  }

  lemma LemmaRow(s: State, e: Event)
    ensures FirstMatch(s, e, 0) == Row(s, e) <= |TABLE|
  {
    var k := Row(s, e);
    forall j | 0 <= j < k ensures !Matches(s, TABLE[j], e) {
      LemmaNoEarlierRow(s, e, j);
    }
    LemmaFirstMatch(s, e, 0, k);
  }

  lemma LemmaNoEarlierRow(s: State, e: Event, j: nat)
    requires j < Row(s, e)
    ensures !Matches(s, TABLE[j], e)
  {
  }

  /** The order of the table's rows is right: the first match is the reaction above. */
  lemma TableMeansReaction(ideal: bool, s: State, e: Event, clock: Clock)
    requires Good(s)
    ensures ProcessEvent(ideal, s, e, clock) == Reaction(ideal, s, e, clock)
  {
    hide Sample, MoveSetpoint, ApplyMode;
    LemmaRow(Remember(s, e), e);
  }

  // ---- Safety ---------------------------------------------------------------------------------

  lemma LemmaSampleGood(ideal: bool, s: State, value: int32, now: uint32, third: uint32)
    requires Good(s)
    ensures var s1 := Sample(ideal, s, value, now);
            && Good(ApplyMode(s1, Evaluate(s1.setpoint, s1.current), third))
            && s1.setpoint == s.setpoint && s1.current == value
  {
    hide PidStep;
    var s1 := Sample(ideal, s, value, now);
    var dt := U32(now - (if s.mode == Error then now else s.lastPid));
    var pid := if s.mode == Error then ResetPid(s).pid else s.pid;
    LemmaPower(ideal, pid, s.setpoint, value, if dt == 0 then 1 else dt);
    LemmaApplyGood(s1, Evaluate(s1.setpoint, s1.current), third);
  }

  /** `applyState` restores the invariant from all of it but the output. */
  lemma LemmaApplyGood(s: State, mode: Mode, now: uint32)
    requires SETPOINT_MIN <= s.setpoint <= SETPOINT_MAX && 0 <= s.heaterPower <= MAX_POWER
    requires s.heaterPower != 0 ==> s.current <= s.setpoint + ERROR_DELTA
    requires s.pid.sampleTimeMs == PidRuns.SAMPLE_PERIOD_MS && s.pid.deadband == PidRuns.DEADBAND
    ensures Good(ApplyMode(s, mode, now))
    ensures var s' := ApplyMode(s, mode, now); s'.setpoint == s.setpoint && s'.current == s.current && s'.mode == mode
    ensures ApplyMode(s, mode, now).heaterPower == if mode == Error then 0 else s.heaterPower
  {
  }

  lemma LemmaReactionGood(ideal: bool, s: State, e: Event, clock: Clock)
    requires Good(s)
    ensures Good(Reaction(ideal, s, e, clock))
  {
    hide Sample, PidStep;
    var s0 := Remember(s, e);
    if e.kind == TemperatureReady {
      LemmaSampleGood(ideal, s0, e.value, U32(clock.first), U32(clock.third));
    } else if Nudge(s, e) != 0 {
      var s1 := MoveSetpoint(s0, Nudge(s, e), clock);
      LemmaApplyGood(s1, Evaluate(s1.setpoint, s1.current), U32(clock.third));
    } else if IsButton(e.kind) {
      LemmaApplyGood(s0, AnyMode, U32(clock.third));
    } else if e.kind == Tick100ms && (s.mode == Idle || s.mode == Heating) {
      LemmaApplyGood(UpdateOutputs(s0, s.mode), s.mode, U32(clock.third));
    }
  }

  lemma StepKeepsGood(ideal: bool, s: State, call: Call)
    requires Good(s)
    ensures Good(Step(ideal, s, call))
  {
    hide Sample, Reaction, MoveSetpoint, ApplyMode;
    match call
    case Process(e, clock) =>
      TableMeansReaction(ideal, s, e, clock);
      LemmaReactionGood(ideal, s, e, clock);
    case Poll(clock) =>
      LemmaApplyGood(s.(showingSetpoint := false), Evaluate(s.setpoint, s.current), U32(clock.third));
  }

  /** The state after the first `n` calls. */
  ghost function Run(ideal: bool, calls: seq<Call>, n: nat): (s: State)
    requires n <= |calls|
    ensures Good(s)
  {
    if n == 0 then INITIAL
    else
      StepKeepsGood(ideal, Run(ideal, calls, n - 1), calls[n - 1]);
      Step(ideal, Run(ideal, calls, n - 1), calls[n - 1])
  }

  /** Safety in every reachable state: the heater runs only while the last temperature is at
      most 3.0 degrees above the setpoint, within its power range, and the setpoint is valid. */
  lemma NeverHeatsWhenOverheated(calls: seq<Call>, n: nat)
    requires n <= |calls|
    ensures var s := Run(false, calls, n);
            && 0 <= s.pwm <= MAX_POWER
            && (s.pwm > 0 ==> s.current <= s.setpoint + ERROR_DELTA)
            && SETPOINT_MIN <= s.setpoint <= SETPOINT_MAX
  {
  }

  /** The power changes with samples and moves of the setpoint only, and a move switches it off. */
  lemma PowerChangesExactly(s: State, call: Call)
    requires Good(s)
    requires !(call.Process? && call.event.kind == TemperatureReady)
    ensures var s' := Step(false, s, call);
            && s'.pwm == (if call.Process? && Nudge(s, call.event) != 0 then 0 else s.pwm)
            && s'.current == s.current
            && (!(call.Process? && Nudge(s, call.event) != 0) ==> s'.setpoint == s.setpoint)
  {
    hide Sample, PidStep, ProcessEvent, ApplyMode;
    match call
    case Process(e, clock) =>
      var s0 := Remember(s, e);
      TableMeansReaction(false, s, e, clock);
      if Nudge(s, e) != 0 {
        var s1 := MoveSetpoint(s0, Nudge(s, e), clock);
        LemmaApplyGood(s1, Evaluate(s1.setpoint, s1.current), U32(clock.third));
      } else if IsButton(e.kind) {
        LemmaApplyGood(s0, AnyMode, U32(clock.third));
      } else if e.kind == Tick100ms && (s.mode == Idle || s.mode == Heating) {
        LemmaApplyGood(UpdateOutputs(s0, s.mode), s.mode, U32(clock.third));
      }
    case Poll(clock) =>
      LemmaApplyGood(s.(showingSetpoint := false), Evaluate(s.setpoint, s.current), U32(clock.third));
  }

  /** A tick of the 100 ms timer changes nothing at all. */
  lemma TickChangesNothing(s: State, value: int32, clock: Clock)
    requires Good(s)
    ensures Step(false, s, Process(Event(Tick100ms, value), clock)) == s
  {
    hide Sample, PidStep, MoveSetpoint, ProcessEvent;
    TableMeansReaction(false, s, Event(Tick100ms, value), clock);
  }

  /** More than 3.0 degrees above the setpoint. */
  predicate Overheated(setpoint: int, temperature: int) { temperature - setpoint > 30 }

  /** The mode that a temperature calls for. */
  predicate Suits(mode: Mode, setpoint: int, temperature: int) {
    match mode
    case Error => Overheated(setpoint, temperature)
    case Heating => temperature < setpoint
    case Idle => setpoint <= temperature && !Overheated(setpoint, temperature)
    case AnyMode => false
  }

  /** The mode after an event. It is the wildcard of the table, which is no mode of its own,
      exactly after a button event that moves no setpoint, or if nothing changed it since. */
  lemma ModeExactly(s: State, e: Event, clock: Clock)
    requires Good(s)
    ensures var s' := Step(false, s, Process(e, clock));
            if e.kind == TemperatureReady || Nudge(s, e) != 0 then Suits(s'.mode, s'.setpoint, s'.current)
            else s'.mode == if IsButton(e.kind) then AnyMode else s.mode
  {
    hide Sample, PidStep, ProcessEvent;
    TableMeansReaction(false, s, e, clock);
    if e.kind == TemperatureReady {
      LemmaSampleGood(false, Remember(s, e), e.value, U32(clock.first), U32(clock.third));
    }
  }

  // ---- The setpoint, from the history of the buttons -----------------------------------------------

  /** Whether the last press or Held of a button among the first `n` calls is a Held. */
  predicate HeldSince(calls: seq<Call>, kind: EventType, n: nat)
    requires n <= |calls|
  {
    if n == 0 then false
    else
      var call := calls[n - 1];
      if call.Process? && call.event.kind == kind && (call.event.value == 0 || call.event.value == 1)
      then call.event.value == 1
      else HeldSince(calls, kind, n - 1)
  }

  /** The step that call `n` asks for, from the history alone. */
  function Asked(calls: seq<Call>, n: nat): int
    requires n < |calls|
  {
    if !calls[n].Process? then 0
    else
      var e := calls[n].event;
      if e.value == 1 || (e.value == 2 && !HeldSince(calls, e.kind, n)) then
        if e.kind == ButtonS1 then -5 else if e.kind == ButtonS2 then 5 else 0
      else 0
  }

  lemma {:induction false} LemmaFlags(ideal: bool, calls: seq<Call>, n: nat)
    requires n <= |calls|
    ensures Run(ideal, calls, n).s1Held == HeldSince(calls, ButtonS1, n)
    ensures Run(ideal, calls, n).s2Held == HeldSince(calls, ButtonS2, n)
  {
    hide Step, Good;
    if n > 0 {
      LemmaFlags(ideal, calls, n - 1);
      LemmaFlagsStep(ideal, Run(ideal, calls, n - 1), calls[n - 1]);
    }
  }

  lemma LemmaFlagsStep(ideal: bool, s: State, call: Call)
    requires Good(s)
    ensures Step(ideal, s, call).s1Held == if call.Process? then Remember(s, call.event).s1Held else s.s1Held
    ensures Step(ideal, s, call).s2Held == if call.Process? then Remember(s, call.event).s2Held else s.s2Held
    ensures Step(ideal, s, call).setpoint
         == Max(SETPOINT_MIN, Min(SETPOINT_MAX, s.setpoint + if call.Process? then Nudge(s, call.event) else 0))
  {
    hide ProcessEvent, Reaction, Remember;
    if call.Process? {
      TableMeansReaction(ideal, s, call.event, call.clock);
      LemmaReactionFlags(ideal, s, call.event, call.clock);
    }
  }

  lemma LemmaReactionFlags(ideal: bool, s: State, e: Event, clock: Clock)
    requires Good(s)
    ensures var s' := Reaction(ideal, s, e, clock);
            && s'.s1Held == Remember(s, e).s1Held && s'.s2Held == Remember(s, e).s2Held
            && s'.setpoint == Max(SETPOINT_MIN, Min(SETPOINT_MAX, s.setpoint + Nudge(s, e)))
  {
    hide PidStep, Sample, ApplyMode;
    var s0 := Remember(s, e);
    if e.kind == TemperatureReady {
      LemmaSampleKeeps(ideal, s0, e.value, U32(clock.first));
      var s1 := Sample(ideal, s0, e.value, U32(clock.first));
      LemmaApplyKeeps(s1, Evaluate(s1.setpoint, s1.current), U32(clock.third));
    } else if Nudge(s, e) != 0 {
      var s1 := MoveSetpoint(s0, Nudge(s, e), clock);
      LemmaApplyKeeps(s1, Evaluate(s1.setpoint, s1.current), U32(clock.third));
    } else if IsButton(e.kind) {
      LemmaApplyKeeps(s0, AnyMode, U32(clock.third));
    } else if e.kind == Tick100ms && (s.mode == Idle || s.mode == Heating) {
      LemmaApplyKeeps(UpdateOutputs(s0, s.mode), s.mode, U32(clock.third));
    }
  }

  lemma LemmaApplyKeeps(s: State, mode: Mode, now: uint32)
    ensures var s' := ApplyMode(s, mode, now);
            s'.s1Held == s.s1Held && s'.s2Held == s.s2Held && s'.setpoint == s.setpoint
  {
  }

  lemma LemmaSampleKeeps(ideal: bool, s: State, value: int32, now: uint32)
    requires Good(s)
    ensures var s' := Sample(ideal, s, value, now);
            s'.s1Held == s.s1Held && s'.s2Held == s.s2Held && s'.setpoint == s.setpoint
  {
    hide PidStep;
  }

  /** Over every run each call moves the setpoint by what the history of the buttons asks for,
      within its limits. */
  lemma SetpointFollowsButtons(calls: seq<Call>, n: nat)
    requires n < |calls|
    ensures Run(false, calls, n + 1).setpoint
         == Max(SETPOINT_MIN, Min(SETPOINT_MAX, Run(false, calls, n).setpoint + Asked(calls, n)))
  {
    hide Step, Good;
    LemmaFlags(false, calls, n);
    LemmaFlagsStep(false, Run(false, calls, n), calls[n]);
  }

  /** Safety, from the history: a powered heater goes back to a temperature sample at most 3.0
      degrees above the setpoint, with no other sample and no move of the setpoint since. */
  lemma {:induction false} HeatsOnlyOnAGoodSample(calls: seq<Call>, n: nat) returns (i: nat)
    requires n <= |calls| && Run(false, calls, n).pwm > 0
    ensures i < n && IsSample(calls[i])
    ensures calls[i].event.value == Run(false, calls, n).current <= Run(false, calls, n).setpoint + ERROR_DELTA
    ensures forall j | i < j < n :: !IsSample(calls[j]) && Asked(calls, j) == 0
  {
    hide Step, PidStep;
    var s, call := Run(false, calls, n - 1), calls[n - 1];
    if IsSample(call) {
      LemmaSampleStep(s, call.event, call.clock);
      i := n - 1;
    } else {
      PowerChangesExactly(s, call);
      LemmaFlags(false, calls, n - 1);
      i := HeatsOnlyOnAGoodSample(calls, n - 1);
    }
  }

  lemma LemmaSampleStep(s: State, e: Event, clock: Clock)
    requires Good(s) && e.kind == TemperatureReady
    ensures Step(false, s, Process(e, clock)).current == e.value
  {
    hide PidStep, Sample, ApplyMode, ProcessEvent;
    TableMeansReaction(false, s, e, clock);
    LemmaSampleGood(false, Remember(s, e), e.value, U32(clock.first), U32(clock.third));
    var s1 := Sample(false, Remember(s, e), e.value, U32(clock.first));
    LemmaApplyCurrent(s1, Evaluate(s1.setpoint, s1.current), U32(clock.third));
  }

  lemma LemmaApplyCurrent(s: State, mode: Mode, now: uint32)
    ensures ApplyMode(s, mode, now).current == s.current
  {
  }

  predicate IsEventOf(call: Call, kind: EventType) { call.Process? && call.event.kind == kind }

  function Other(kind: EventType): EventType { if kind == ButtonS1 then ButtonS2 else ButtonS1 }

  /** A press of `kind` at call `i` and its release at call `m`. In between there may be Held
      events of it, polls, samples, ticks and events of any other button, as long as the one of
      S1 and S2 that is not `kind` is neither held nor released. */
  predicate PressCycle(calls: seq<Call>, kind: EventType, i: nat, m: nat) {
    && i < m < |calls|
    && IsEventOf(calls[i], kind) && calls[i].event.value == 0
    && IsEventOf(calls[m], kind) && calls[m].event.value == 2
    && forall j | i < j < m ::
         && (IsEventOf(calls[j], kind) ==> calls[j].event.value != 0 && calls[j].event.value != 2)
         && (IsEventOf(calls[j], Other(kind)) ==> calls[j].event.value != 1 && calls[j].event.value != 2)
  }

  /** The Held events of `kind` among calls `i` to `j - 1`. */
  function Helds(calls: seq<Call>, kind: EventType, i: nat, j: nat): nat
    requires i <= j <= |calls|
  {
    if i == j then 0
    else Helds(calls, kind, i, j - 1)
         + if IsEventOf(calls[j - 1], kind) && calls[j - 1].event.value == 1 then 1 else 0
  }

  /** `n` steps of the setpoint with S1 or S2, within its limits. */
  function Stepped(kind: EventType, setpoint: int, n: nat): int {
    if kind == ButtonS1 then Max(SETPOINT_MIN, setpoint - n * SETPOINT_STEP)
    else Min(SETPOINT_MAX, setpoint + n * SETPOINT_STEP)
  }

  lemma {:induction false} LemmaHolds(calls: seq<Call>, kind: EventType, i: nat, m: nat, j: nat)
    requires (kind == ButtonS1 || kind == ButtonS2) && PressCycle(calls, kind, i, m) && i < j <= m
    ensures HeldSince(calls, kind, j) == (Helds(calls, kind, i, j) > 0)
    ensures Run(false, calls, j).setpoint == Stepped(kind, Run(false, calls, i).setpoint, Helds(calls, kind, i, j))
    decreases j
  {
    hide Run, Good;
    NeverHeatsWhenOverheated(calls, i);
    SetpointFollowsButtons(calls, j - 1);
    if i + 1 < j {
      LemmaHolds(calls, kind, i, m, j - 1);
    }
  }

  /** Pressing S1 or S2, holding it for `k` Held events and releasing it lowers or raises the
      setpoint by `k` steps, or by one if it was not held, but not beyond its limit; whatever
      polls, samples, ticks and other events the run has in between. */
  lemma PressHoldRelease(calls: seq<Call>, kind: EventType, i: nat, m: nat)
    requires (kind == ButtonS1 || kind == ButtonS2) && PressCycle(calls, kind, i, m)
    ensures Run(false, calls, m + 1).setpoint
         == Stepped(kind, Run(false, calls, i).setpoint, Max(Helds(calls, kind, i, m), 1))
  {
    hide Run, Good;
    NeverHeatsWhenOverheated(calls, i);
    LemmaHolds(calls, kind, i, m, m);
    SetpointFollowsButtons(calls, m);
  }

  // ---- No overflow anywhere in the thermostat ----------------------------------------------------------

  /** The longest gap between temperature samples, in ms: 27 hours. */
  const MAX_GAP_MS: nat := 100_000_000
  const MAX_ERROR: int := 10_000

  predicate IsSample(call: Call) { call.Process? && call.event.kind == TemperatureReady }

  /** The real time of the last sample among the first `n` calls, or of start-up. */
  function LastSample(calls: seq<Call>, n: nat): nat
    requires n <= |calls|
  {
    if n == 0 then 0 else if IsSample(calls[n - 1]) then calls[n - 1].clock.first else LastSample(calls, n - 1)
  }

  ghost predicate InOrder(clock: Clock) { clock.first <= clock.second <= clock.third }

  /** Time goes forward, samples are within 900 degrees of zero and at most `MAX_GAP_MS` apart. */
  ghost predicate Regular(calls: seq<Call>) {
    && (forall i | 0 <= i < |calls| :: InOrder(calls[i].clock))
    && (forall i | 0 < i < |calls| :: calls[i - 1].clock.third <= calls[i].clock.first)
    && forall i | 0 <= i < |calls| && IsSample(calls[i]) ::
         -9000 <= calls[i].event.value <= 9000 && calls[i].clock.first <= LastSample(calls, i) + MAX_GAP_MS
  }

  /** `last` is the real time behind the stored PID time stamp: not before the last sample,
      unless the state machine is in its error mode and will set it anew. */
  ghost predicate StampMeans(s: State, last: nat, sample: nat) {
    s.lastPid == U32(last) && (s.mode != Error ==> sample <= last)
  }

  ghost predicate Exact(s: State) { Good(s) && PidRuns.SafeState(MAX_ERROR, s.pid) }

  lemma LemmaPidExact(pid: Pid.State, setpoint: int, measured: int, dtMs: uint32)
    requires PidRuns.SafeState(MAX_ERROR, pid) && pid.sampleTimeMs == 1000
    requires SETPOINT_MIN <= setpoint <= SETPOINT_MAX && -9000 <= measured <= 9000 && 0 < dtMs <= MAX_GAP_MS
    ensures PidStep(true, pid, setpoint, measured, dtMs) == PidStep(false, pid, setpoint, measured, dtMs)
    ensures PidRuns.SafeState(MAX_ERROR, PidStep(false, pid, setpoint, measured, dtMs).state)
  {
    hide Pid.Step, Pid.MachineStep;
    PidRuns.LemmaStepRefines(PidRuns.THERMOSTAT, MAX_ERROR, pid, Pid.UpdateOp(setpoint, measured, dtMs));
  }

  lemma LemmaElapsed(now: nat, last: nat)
    requires last <= now < last + W32
    ensures U32(U32(now) - U32(last)) == now - last
  {
  }

  lemma LemmaSampleExact(s: State, value: int32, now: nat, last: nat, sample: nat)
    requires Exact(s) && StampMeans(s, last, sample) && last <= now
    requires now <= sample + MAX_GAP_MS && -9000 <= value <= 9000
    ensures Sample(true, s, value, U32(now)) == Sample(false, s, value, U32(now))
    ensures var s' := Sample(false, s, value, U32(now));
            && PidRuns.SafeState(MAX_ERROR, s'.pid) && s'.mode == s.mode
            && (Evaluate(s'.setpoint, value) != Error ==> s'.lastPid == U32(now))
            && (Evaluate(s'.setpoint, value) == Error ==> s'.lastPid == s.lastPid)
  {
    hide PidStep, Pid.Settings;
    if s.mode == Error {
      LemmaElapsed(now, now);
      LemmaFreshSafe(s.pid);
      LemmaPidExact(ResetPid(s).pid, s.setpoint, value, 1);
    } else {
      LemmaElapsed(now, last);
      LemmaPidExact(s.pid, s.setpoint, value, if now == last then 1 else now - last);
    }
  }

  lemma LemmaFreshSafe(pid: Pid.State)
    requires PidRuns.SafeState(MAX_ERROR, pid)
    ensures PidRuns.SafeState(MAX_ERROR, Pid.Settings(pid, Pid.ResetOp))
    ensures Pid.Settings(pid, Pid.ResetOp).sampleTimeMs == pid.sampleTimeMs
  {
  }

  /** `applyState` keeps the PID safe, and takes a new time stamp when it leaves the error mode. */
  lemma LemmaApplyExact(s: State, mode: Mode, now: nat)
    requires PidRuns.SafeState(MAX_ERROR, s.pid)
    ensures PidRuns.SafeState(MAX_ERROR, ApplyMode(s, mode, U32(now)).pid)
    ensures ApplyMode(s, mode, U32(now)).mode == mode
    ensures ApplyMode(s, mode, U32(now)).lastPid == if mode != Error && s.mode == Error then U32(now) else s.lastPid
  {
    LemmaFreshSafe(s.pid);
  }

  lemma LemmaReactionExact(s: State, e: Event, clock: Clock, last: nat, sample: nat) returns (last': nat)
    requires Exact(s) && StampMeans(s, last, sample) && last <= clock.first && sample <= clock.first && InOrder(clock)
    requires e.kind == TemperatureReady ==> clock.first <= sample + MAX_GAP_MS && -9000 <= e.value <= 9000
    ensures Reaction(true, s, e, clock) == Reaction(false, s, e, clock)
    ensures var s' := Reaction(false, s, e, clock);
            && PidRuns.SafeState(MAX_ERROR, s'.pid) && last' <= clock.third
            && StampMeans(s', last', if e.kind == TemperatureReady then clock.first else sample)
  {
    hide PidStep, Sample, ApplyMode, PidRuns.SafeState;
    var s0 := Remember(s, e);
    last' := last;
    if e.kind == TemperatureReady {
      LemmaSampleExact(s0, e.value, clock.first, last, sample);
      var s1 := Sample(false, s0, e.value, U32(clock.first));
      LemmaSampleGood(false, s0, e.value, U32(clock.first), U32(clock.third));
      var mode := Evaluate(s1.setpoint, s1.current);
      LemmaApplyExact(s1, mode, clock.third);
      last' := if mode == Error then last else if s.mode == Error then clock.third else clock.first;
    } else if Nudge(s, e) != 0 {
      var s1 := MoveSetpoint(s0, Nudge(s, e), clock);
      LemmaFreshSafe(s0.pid);
      LemmaApplyExact(s1, Evaluate(s1.setpoint, s1.current), clock.third);
      last' := if Evaluate(s1.setpoint, s1.current) != Error && s.mode == Error then clock.third else clock.second;
    } else if IsButton(e.kind) {
      LemmaApplyExact(s0, AnyMode, clock.third);
      last' := if s.mode == Error then clock.third else last;
    } else if e.kind == Tick100ms && (s.mode == Idle || s.mode == Heating) {
      LemmaApplyExact(UpdateOutputs(s0, s.mode), s.mode, clock.third);
    }
  }

  lemma LemmaStepExact(s: State, call: Call, last: nat, sample: nat) returns (last': nat)
    requires Exact(s) && StampMeans(s, last, sample)
    requires last <= call.clock.first && sample <= call.clock.first && InOrder(call.clock)
    requires IsSample(call) ==> call.clock.first <= sample + MAX_GAP_MS && -9000 <= call.event.value <= 9000
    ensures Step(true, s, call) == Step(false, s, call)
    ensures Exact(Step(false, s, call)) && last' <= call.clock.third
    ensures StampMeans(Step(false, s, call), last', if IsSample(call) then call.clock.first else sample)
  {
    hide ProcessEvent, Reaction, ApplyMode, PidRuns.SafeState;
    StepKeepsGood(false, s, call);
    match call
    case Process(e, clock) =>
      TableMeansReaction(true, s, e, clock);
      TableMeansReaction(false, s, e, clock);
      last' := LemmaReactionExact(s, e, clock, last, sample);
    case Poll(clock) =>
      var mode := Evaluate(s.setpoint, s.current);
      LemmaApplyExact(s.(showingSetpoint := false), mode, clock.third);
      last' := if PollDisplay(s, clock) != s && mode != Error && s.mode == Error then clock.third else last;
  }

  /** End to end: in a thermostat that samples at least every 27 hours, no PID computation of
      any run overflows; its whole behaviour is that of a thermostat with an unbounded PID. */
  lemma {:induction false} ThermostatIsExact(calls: seq<Call>, n: nat) returns (last: nat)
    requires Regular(calls) && n <= |calls|
    ensures Run(true, calls, n) == Run(false, calls, n)
    ensures Exact(Run(false, calls, n)) && StampMeans(Run(false, calls, n), last, LastSample(calls, n))
    ensures n > 0 ==> last <= calls[n - 1].clock.third && LastSample(calls, n) <= calls[n - 1].clock.third
    ensures n == 0 ==> last == 0
  {
    hide Step, Good;
    last := 0;
    if n == 0 {
      LemmaInitialExact();
    } else {
      var before := ThermostatIsExact(calls, n - 1);
      assert InOrder(calls[n - 1].clock);
      last := LemmaStepExact(Run(false, calls, n - 1), calls[n - 1], before, LastSample(calls, n - 1));
    }
  }

  lemma LemmaInitialExact()
    ensures Exact(INITIAL) && StampMeans(INITIAL, 0, 0)
  {
  }

  // ---- The class --------------------------------------------------------------------------------------

  class Controller {
    const pid: Pid.PidInt
    var setpoint: int32
    var current: int32
    var mode: Mode
    var showingSetpoint: bool
    var displayDeadline: uint32
    var heaterPower: int32
    var lastPid: uint32
    var s1Held: bool
    var s2Held: bool
    /** The power last commanded to the heater. */
    var pwm: int

    ghost function Value(): State
      reads this, pid
    {
      State(setpoint, current, mode, showingSetpoint, displayDeadline, heaterPower, lastPid, s1Held, s2Held,
            pid.Value(), pwm)
    }

    ghost predicate Configured() { pid.Parameters() == PidRuns.THERMOSTAT }

    constructor ()
      ensures fresh(pid) && Configured() && Value() == INITIAL && Good(Value())
    {
      pid := new Pid.PidInt(40000, 500, 300, 0, 1000, -2000, 2000, PidRuns.SAMPLE_PERIOD_MS, PidRuns.DEADBAND);
      setpoint, current, mode := 400, 0, Idle;
      showingSetpoint, displayDeadline := false, 0;
      heaterPower, lastPid, s1Held, s2Held, pwm := 0, 0, false, false, 0;
    }

    /** `processEvent`: the first row of the table that matches decides. */
    method ProcessOne(e: Event, clock: Clock)
      requires Configured() && Good(Value())
      modifies this, pid
      ensures Value() == ProcessEvent(false, old(Value()), e, clock) && Good(Value())
    {
      hide Act, ApplyMode, Matches, Remember, Pid.MachineStep;
      StepKeepsGood(false, Value(), Process(e, clock));
      LemmaRemember(Value(), e);
      RememberButton(e);
      ghost var s0 := Value();
      for i := 0 to |TABLE|
        invariant Value() == s0 && FirstMatch(s0, e, 0) == FirstMatch(s0, e, i)
      {
        var row := TABLE[i];
        var matches := RowMatches(row, e);
        if !matches {
          continue;
        }
        var next := Perform(row.action, e, clock);
        if row.target != Compute {
          next := row.target.mode;
        }
        ApplyState(next, U32(clock.third));
        return;
      }
    }

    method RememberButton(e: Event)
      modifies this`s1Held, this`s2Held
      ensures Value() == Remember(old(Value()), e)
    {
      if e.kind == ButtonS1 {
        if e.value == 0 { s1Held := false; } else if e.value == 1 { s1Held := true; }
      }
      if e.kind == ButtonS2 {
        if e.value == 0 { s2Held := false; } else if e.value == 1 { s2Held := true; }
      }
    }

    method RowMatches(row: Transition, e: Event) returns (r: bool)
      ensures r == Matches(Value(), row, e)
    {
      if row.signal != e.kind && row.signal != Any {
        return false;
      }
      if row.source != mode && row.source != AnyMode {
        return false;
      }
      match row.guard
      case NoGuard => r := true;
      case IsHeld => r := e.value == 1;
      case ClickS1 => r := e.value == 2 && !s1Held;
      case ClickS2 => r := e.value == 2 && !s2Held;
    }

    /** The action of a row, and the mode it returns. */
    method Perform(action: Action, e: Event, clock: Clock) returns (next: Mode)
      requires Configured() && 0 < pid.sampleTimeMs && SETPOINT_MIN <= setpoint <= SETPOINT_MAX
      modifies this, pid
      ensures Value() == Act(false, old(Value()), action, e, clock)
      ensures next == if action == PidTick || action == Beep then old(mode) else Evaluate(setpoint, current)
    {
      match action
      case PidTick =>
        DriveOutputs(mode);
        next := mode;
      case TemperatureSample =>
        TakeSample(e.value, U32(clock.first));
        next := Evaluate(setpoint, current);
      case DecreaseSetpoint =>
        ChangeSetpoint(-SETPOINT_STEP, clock);
        next := Evaluate(setpoint, current);
      case IncreaseSetpoint =>
        ChangeSetpoint(SETPOINT_STEP, clock);
        next := Evaluate(setpoint, current);
      case Beep =>
        next := mode;
    }

    method TakeSample(value: int32, now: uint32)
      requires Configured() && 0 < pid.sampleTimeMs
      modifies this, pid
      ensures Value() == Sample(false, old(Value()), value, now)
    {
      current := value;
      if Evaluate(setpoint, current) != Error {
        if mode == Error {
          pid.Reset();
          heaterPower := 0;
          lastPid := now;
        }
        var dt := U32(now - lastPid);
        if dt == 0 {
          dt := 1;
        }
        lastPid := now;
        heaterPower := pid.Update(setpoint, current, dt);
      } else {
        heaterPower := 0;
      }
    }

    method ChangeSetpoint(step: int, clock: Clock)
      requires -5 <= step <= 5 && SETPOINT_MIN <= setpoint <= SETPOINT_MAX
      modifies this, pid
      ensures Value() == MoveSetpoint(old(Value()), step, clock)
    {
      setpoint := setpoint + step;
      if step < 0 {
        if setpoint < SETPOINT_MIN { setpoint := SETPOINT_MIN; }
      } else {
        if setpoint > SETPOINT_MAX { setpoint := SETPOINT_MAX; }
      }
      showingSetpoint := true;
      displayDeadline := U32(U32(clock.first) + DISPLAY_MS);
      pid.Reset();
      heaterPower := 0;
      lastPid := U32(clock.second);
    }

    method ApplyState(newMode: Mode, now: uint32)
      modifies this, pid
      ensures Value() == ApplyMode(old(Value()), newMode, now)
    {
      var previous := mode;
      mode := newMode;
      if newMode == Error {
        heaterPower := 0;
        pid.Reset();
      } else if previous == Error {
        lastPid := now;
      }
      DriveOutputs(newMode);
    }

    method DriveOutputs(m: Mode)
      modifies this`pwm
      ensures Value() == UpdateOutputs(old(Value()), m)
    {
      var power: int := if m == Error then 0 else heaterPower;
      if power < 0 { power := 0; }
      if power > 1000 { power := 1000; }
      pwm := power;
    }

    /** `poll`. */
    method PollOnce(clock: Clock)
      requires Configured() && Good(Value())
      modifies this, pid
      ensures Value() == PollDisplay(old(Value()), clock) && Good(Value())
    {
      StepKeepsGood(false, Value(), Poll(clock));
      if !showingSetpoint {
        return;
      }
      if I32(U32(U32(clock.first) - displayDeadline)) >= 0 {
        showingSetpoint := false;
        ApplyState(Evaluate(setpoint, current), U32(clock.third));
      }
    }
  }
}
