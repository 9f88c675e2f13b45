/** Whole runs of the thermostat, from the calls alone: what every field of the controller is
    after any run, in terms of real times, samples and button events, and what that means for
    the heater and the display. */
module ThermostatRuns {
  import opened Arith
  import opened Events
  import opened Options
  import opened Words
  import opened Thermostat
  import Pid
  import PidRuns

  /** The controller's PID state when it starts afresh. */
  const FRESH: Pid.State := Pid.State(0, 0, false, 1000, 1)

  // ---- One call ---------------------------------------------------------------------------

  /** The PID update that a sample makes: setpoint, measurement and the time since the stamp,
      at least 1 ms; none has passed when the error mode is left. */
  function SampleUpdate(s: State, value: int32, now: nat): Pid.Op {
    var gap := if s.mode == Error then 0 else U32(now - s.lastPid);
    Pid.UpdateOp(s.setpoint, value, if gap == 0 then 1 else gap)
  }

  lemma LemmaGap(now: nat, last: uint32)
    ensures U32(U32(now) - last) == U32(now - last)
  {
  }

  lemma LemmaSampleReaction(s: State, value: int32, clock: Clock)
    requires Good(s)
    ensures var s1 := Sample(false, s, value, U32(clock.first));
            Step(false, s, Process(Event(TemperatureReady, value), clock))
            == ApplyMode(s1, Evaluate(s1.setpoint, s1.current), U32(clock.third))
  {
    hide Sample, ApplyMode, MoveSetpoint, ProcessEvent;
    TableMeansReaction(false, s, Event(TemperatureReady, value), clock);
  }

  lemma LemmaMoveReaction(s: State, e: Event, clock: Clock)
    requires Good(s) && Nudge(s, e) != 0
    ensures var s1 := MoveSetpoint(Remember(s, e), Nudge(s, e), clock);
            Step(false, s, Process(e, clock))
            == ApplyMode(s1, Evaluate(s1.setpoint, s1.current), U32(clock.third))
  {
    hide Sample, ApplyMode, MoveSetpoint, ProcessEvent;
    TableMeansReaction(false, s, e, clock);
  }

  /** A sample that is not overheated: the power and the PID state are those of one update of the
      fixed-width PID controller, a fresh one after the error mode. An overheated sample switches
      the heater off and starts the PID controller afresh. */
  lemma SampleLaw(s: State, value: int32, clock: Clock)
    requires Good(s)
    ensures var s' := Step(false, s, Process(Event(TemperatureReady, value), clock));
            && s'.current == value && s'.setpoint == s.setpoint && Suits(s'.mode, s.setpoint, value)
            && s'.showingSetpoint == s.showingSetpoint && s'.displayDeadline == s.displayDeadline
            && if Overheated(s.setpoint, value) then
                 s'.pwm == 0 && s'.pid == FRESH && s'.lastPid == s.lastPid
               else
                 var pid := if s.mode == Error then FRESH else s.pid;
                 Some(s'.pwm) == Pid.MachineStep(PidRuns.THERMOSTAT, pid, SampleUpdate(s, value, clock.first)).output
                 && s'.pid == Pid.MachineStep(PidRuns.THERMOSTAT, pid, SampleUpdate(s, value, clock.first)).state
                 && s'.lastPid == if s.mode == Error then U32(clock.third) else U32(clock.first)
  {
    hide Step, Pid.MachineStep, Pid.Step;
    LemmaSampleReaction(s, value, clock);
    LemmaGap(clock.first, s.lastPid);
    LemmaGap(clock.first, U32(clock.first));
    if !Overheated(s.setpoint, value) {
      var pid := if s.mode == Error then FRESH else s.pid;
      var op := SampleUpdate(s, value, clock.first);
      LemmaPower(false, pid, s.setpoint, value, op.dtMs);
    }
  }

  /** A press cycle's step of the setpoint: the heater is off and the PID controller fresh until
      the next sample, and the setpoint is shown. */
  lemma MoveLaw(s: State, e: Event, clock: Clock)
    requires Good(s) && Nudge(s, e) != 0
    ensures var s' := Step(false, s, Process(e, clock));
            && s'.pwm == 0 && s'.pid == FRESH && s'.current == s.current
            && s'.setpoint == Max(SETPOINT_MIN, Min(SETPOINT_MAX, s.setpoint + Nudge(s, e)))
            && Suits(s'.mode, s'.setpoint, s.current)
            && s'.showingSetpoint && s'.displayDeadline == U32(clock.first + 3000)
            && s'.lastPid == if s.mode == Error && s'.mode != Error then U32(clock.third) else U32(clock.second)
  {
    hide Step;
    LemmaMoveReaction(s, e, clock);
  }

  /** All other events: a button event sets the wildcard mode, with a new stamp if that leaves the
      error mode; nothing else changes anything but the held flags. */
  lemma OtherEventLaw(s: State, e: Event, clock: Clock)
    requires Good(s) && Nudge(s, e) == 0 && e.kind != TemperatureReady
    ensures Step(false, s, Process(e, clock))
         == if IsButton(e.kind) then
              Remember(s, e).(mode := AnyMode, lastPid := if s.mode == Error then U32(clock.third) else s.lastPid)
            else s
  {
    hide Sample, PidStep, MoveSetpoint, ProcessEvent;
    TableMeansReaction(false, s, e, clock);
  }

  /** A poll ends the display of the setpoint at its deadline and re-evaluates the mode. */
  lemma PollLaw(s: State, clock: Clock)
    requires Good(s)
    ensures var s' := Step(false, s, Poll(clock));
            if s.showingSetpoint && U32(clock.first - s.displayDeadline) < H32 then
              && !s'.showingSetpoint && Suits(s'.mode, s.setpoint, s.current)
              && s' == s.(showingSetpoint := false, mode := s'.mode,
                          pid := if s'.mode == Error then FRESH else s.pid,
                          lastPid := if s.mode == Error && s'.mode != Error then U32(clock.third) else s.lastPid)
            else s' == s
  {
    LemmaGap(clock.first, s.displayDeadline);
    LemmaSign(U32(clock.first - s.displayDeadline));
  }

  lemma LemmaSign(x: uint32)
    ensures I32(x) >= 0 <==> x < H32
  {
  }

  // ---- The history ----------------------------------------------------------------------------

  /** The setpoint after the first `n` calls, from the button events. */
  function SetpointSet(calls: seq<Call>, n: nat): int
    requires n <= |calls|
  {
    if n == 0 then 400 else Max(-95, Min(995, SetpointSet(calls, n - 1) + Asked(calls, n - 1)))
  }

  /** The last temperature sampled, or 0. */
  function Temperature(calls: seq<Call>, n: nat): int
    requires n <= |calls|
  {
    if n == 0 then 0 else if IsSample(calls[n - 1]) then calls[n - 1].event.value else Temperature(calls, n - 1)
  }

  /** The real time of the last move of the setpoint, while the setpoint is shown: until the first
      poll at least 3000 ms later, as far as a 32-bit comparison can tell. */
  function ShownSince(calls: seq<Call>, n: nat): Option<nat>
    requires n <= |calls|
    decreases n, 0
  {
    if n == 0 then None
    else if Asked(calls, n - 1) != 0 then Some(calls[n - 1].clock.first)
    else if EndsDisplay(calls, n - 1) then None
    else ShownSince(calls, n - 1)
  }

  predicate EndsDisplay(calls: seq<Call>, n: nat)
    requires n < |calls|
    decreases n, 1
  {
    && calls[n].Poll? && ShownSince(calls, n).Some?
    && U32(calls[n].clock.first - (ShownSince(calls, n).value + 3000)) < H32
  }

  predicate IsButtonEvent(call: Call) { call.Process? && IsButton(call.event.kind) }

  /** Whether call `n` compares temperature and setpoint. */
  predicate Evaluates(calls: seq<Call>, n: nat)
    requires n < |calls|
  {
    IsSample(calls[n]) || Asked(calls, n) != 0 || EndsDisplay(calls, n)
  }

  function Judged(setpoint: int, temperature: int): Mode {
    if Overheated(setpoint, temperature) then Error else if temperature < setpoint then Heating else Idle
  }

  /** The mode after the first `n` calls. */
  function ModeSet(calls: seq<Call>, n: nat): Mode
    requires n <= |calls|
  {
    if n == 0 then Idle
    else if Evaluates(calls, n - 1) then Judged(SetpointSet(calls, n), Temperature(calls, n))
    else if IsButtonEvent(calls[n - 1]) then AnyMode
    else ModeSet(calls, n - 1)
  }

  /** The real time from which the PID controller counts: that of the last sample that was not
      overheated or of the last move, or of the moment at which the error mode was left. */
  function Stamp(calls: seq<Call>, n: nat): nat
    requires n <= |calls|
  {
    if n == 0 then 0
    else
      var clock := calls[n - 1].clock;
      if ModeSet(calls, n - 1) == Error && ModeSet(calls, n) != Error then clock.third
      else if Asked(calls, n - 1) != 0 then clock.second
      else if IsSample(calls[n - 1]) && ModeSet(calls, n) != Error then clock.first
      else Stamp(calls, n - 1)
  }

  /** The PID update of sample `n`. */
  function UpdateFor(calls: seq<Call>, n: nat): Pid.Op
    requires n < |calls| && IsSample(calls[n])
  {
    var gap := if ModeSet(calls, n) == Error then 0 else U32(calls[n].clock.first - Stamp(calls, n));
    Pid.UpdateOp(SetpointSet(calls, n), calls[n].event.value, if gap == 0 then 1 else gap)
  }

  /** The updates since the PID controller last started afresh: at an overheated sample, a move of
      the setpoint, or the end of its display while overheated. */
  function Updates(calls: seq<Call>, n: nat): seq<Pid.Op>
    requires n <= |calls|
  {
    if n == 0 || Asked(calls, n - 1) != 0 then []
    else if Evaluates(calls, n - 1) && ModeSet(calls, n) == Error then []
    else if IsSample(calls[n - 1]) then Updates(calls, n - 1) + [UpdateFor(calls, n - 1)]
    else Updates(calls, n - 1)
  }

  /** The heater power after the first `n` calls: the PID controller's answer to the last sample,
      none if that was overheated or the setpoint has moved since. */
  ghost function PowerSet(calls: seq<Call>, n: nat): int
    requires n <= |calls|
  {
    if n == 0 || Asked(calls, n - 1) != 0 then 0
    else if IsSample(calls[n - 1]) then
      if ModeSet(calls, n) == Error then 0 else LastOutput(Updates(calls, n))
    else PowerSet(calls, n - 1)
  }

  /** What the thermostat's PID controller, started afresh, returns for the last of `ops`. */
  ghost function LastOutput(ops: seq<Pid.Op>): int {
    if ops == [] then 0
    else
      var o := Pid.MachineStep(PidRuns.THERMOSTAT, PidAfter(ops[..|ops| - 1]), ops[|ops| - 1]).output;
      if o.Some? then o.value else 0
  }

  ghost function PidAfter(ops: seq<Pid.Op>): Pid.State { PidRuns.MachineRun(PidRuns.THERMOSTAT, FRESH, ops) }

  // ---- Every run ------------------------------------------------------------------------------

  /** Every field of the controller as the history gives it. */
  ghost predicate Remembers(calls: seq<Call>, n: nat, s: State)
    requires n <= |calls|
  {
    && s.setpoint == SetpointSet(calls, n)
    && s.current == Temperature(calls, n)
    && s.mode == ModeSet(calls, n)
    && (match ShownSince(calls, n)
        case None => !s.showingSetpoint
        case Some(t) => s.showingSetpoint && s.displayDeadline == U32(t + 3000))
    && s.lastPid == U32(Stamp(calls, n))
    && s.pid == PidAfter(Updates(calls, n))
    && (s.mode == Error ==> Updates(calls, n) == [])
    && s.pwm == PowerSet(calls, n)
    && s.s1Held == HeldSince(calls, ButtonS1, n)
    && s.s2Held == HeldSince(calls, ButtonS2, n)
  }

  lemma LemmaRealGap(now: nat, last: nat)
    ensures U32(now - U32(last)) == U32(now - last)
  {
  }

  lemma LemmaJudged(mode: Mode, setpoint: int, temperature: int)
    requires Suits(mode, setpoint, temperature)
    ensures mode == Judged(setpoint, temperature)
  {
  }

  lemma LemmaPidAppend(ops: seq<Pid.Op>, op: Pid.Op)
    requires op.UpdateOp?
    ensures PidAfter(ops + [op]) == Pid.MachineStep(PidRuns.THERMOSTAT, PidAfter(ops), op).state
    ensures Some(LastOutput(ops + [op])) == Pid.MachineStep(PidRuns.THERMOSTAT, PidAfter(ops), op).output
  {
    hide PidRuns.MachineRun, Pid.MachineIncrement, Pid.MachineDerivative, Pid.MachineOutput;
    assert (ops + [op])[..|ops + [op]| - 1] == ops;
    PidRuns.LemmaMachineRunLast(PidRuns.THERMOSTAT, FRESH, ops + [op]);
  }

  lemma LemmaFlagsAgree(calls: seq<Call>, n: nat, s: State)
    requires n < |calls| && Good(s)
    requires s.s1Held == HeldSince(calls, ButtonS1, n) && s.s2Held == HeldSince(calls, ButtonS2, n)
    ensures Asked(calls, n) == if calls[n].Process? then Nudge(s, calls[n].event) else 0
    ensures var s' := Step(false, s, calls[n]);
            s'.s1Held == HeldSince(calls, ButtonS1, n + 1) && s'.s2Held == HeldSince(calls, ButtonS2, n + 1)
  {
    hide Step;
    LemmaFlagsStep(false, s, calls[n]);
  }

  lemma LemmaSample(calls: seq<Call>, n: nat, s: State)
    requires n < |calls| && Good(s) && Remembers(calls, n, s) && IsSample(calls[n])
    ensures Remembers(calls, n + 1, Step(false, s, calls[n]))
  {
    hide Step, Pid.MachineStep, PidAfter, LastOutput, HeldSince;
    LemmaFlagsAgree(calls, n, s);
    var value, clock := calls[n].event.value, calls[n].clock;
    SampleLaw(s, value, clock);
    LemmaJudged(Step(false, s, calls[n]).mode, s.setpoint, value);
    LemmaRealGap(clock.first, Stamp(calls, n));
    LemmaFreshPid();
    LemmaPidAppend(Updates(calls, n), UpdateFor(calls, n));
    var s' := Step(false, s, calls[n]);
    assert calls[n] == Process(Event(TemperatureReady, value), clock);
    assert SampleUpdate(s, value, clock.first) == UpdateFor(calls, n);
    assert s'.mode == ModeSet(calls, n + 1);
    assert ShownSince(calls, n + 1) == ShownSince(calls, n);
    assert s'.pid == PidAfter(Updates(calls, n + 1)) && s'.pwm == PowerSet(calls, n + 1);
  }

  lemma LemmaFreshPid()
    ensures PidAfter([]) == FRESH
  {
  }

  lemma LemmaMove(calls: seq<Call>, n: nat, s: State)
    requires n < |calls| && Good(s) && Remembers(calls, n, s) && Asked(calls, n) != 0
    ensures Remembers(calls, n + 1, Step(false, s, calls[n]))
  {
    hide Step, PidAfter, LastOutput, HeldSince;
    LemmaFlagsAgree(calls, n, s);
    MoveLaw(s, calls[n].event, calls[n].clock);
    LemmaJudged(Step(false, s, calls[n]).mode, SetpointSet(calls, n + 1), s.current);
    LemmaFreshPid();
  }

  lemma LemmaOtherEvent(calls: seq<Call>, n: nat, s: State)
    requires n < |calls| && Good(s) && Remembers(calls, n, s)
    requires calls[n].Process? && !IsSample(calls[n]) && Asked(calls, n) == 0
    ensures Remembers(calls, n + 1, Step(false, s, calls[n]))
  {
    hide Step, PidAfter, LastOutput, HeldSince;
    LemmaFlagsAgree(calls, n, s);
    OtherEventLaw(s, calls[n].event, calls[n].clock);
  }

  lemma LemmaPoll(calls: seq<Call>, n: nat, s: State)
    requires n < |calls| && Good(s) && Remembers(calls, n, s) && calls[n].Poll?
    ensures Remembers(calls, n + 1, Step(false, s, calls[n]))
  {
    hide Step, PidAfter, LastOutput, HeldSince;
    LemmaFlagsAgree(calls, n, s);
    PollLaw(s, calls[n].clock);
    LemmaFreshPid();
    if ShownSince(calls, n).Some? {
      LemmaRealGap(calls[n].clock.first, ShownSince(calls, n).value + 3000);
      if EndsDisplay(calls, n) {
        LemmaJudged(Step(false, s, calls[n]).mode, s.setpoint, s.current);
      }
    }
  }

  lemma LemmaStart(calls: seq<Call>)
    ensures Remembers(calls, 0, INITIAL)
  {
    LemmaFreshPid();
  }

  /** Every field of the controller after any run is the one that the calls alone determine. */
  lemma {:induction false} StateMeansHistory(calls: seq<Call>, n: nat)
    requires n <= |calls|
    ensures Remembers(calls, n, Run(false, calls, n))
  {
    hide Step, Good, Remembers;
    if n == 0 {
      LemmaStart(calls);
    } else {
      StateMeansHistory(calls, n - 1);
      var s := Run(false, calls, n - 1);
      if IsSample(calls[n - 1]) {
        LemmaSample(calls, n - 1, s);
      } else if Asked(calls, n - 1) != 0 {
        LemmaMove(calls, n - 1, s);
      } else if calls[n - 1].Process? {
        LemmaOtherEvent(calls, n - 1, s);
      } else {
        LemmaPoll(calls, n - 1, s);
      }
    }
  }

  // ---- What it means -----------------------------------------------------------------------------

  /** The calls after `i` and before `j` leave a setpoint moved at call `i` on the display: no other
      move, and every poll less than 3000 ms after it. */
  predicate Undisturbed(calls: seq<Call>, i: nat, j: nat)
    requires i < j <= |calls|
  {
    forall k | i < k < j ::
      && Asked(calls, k) == 0
      && (calls[k].Poll? ==> 0 <= calls[k].clock.first - calls[i].clock.first < 3000)
  }

  lemma {:induction false} LemmaShown(calls: seq<Call>, i: nat, j: nat)
    requires i < j <= |calls| && Asked(calls, i) != 0 && Undisturbed(calls, i, j)
    ensures ShownSince(calls, j) == Some(calls[i].clock.first)
    decreases j
  {
    hide HeldSince;
    if i + 1 < j {
      LemmaShown(calls, i, j - 1);
    }
  }

  /** A setpoint moved at real time `t` is shown until the first poll at a real time `u` with
      3000 <= u - t < 3000 + 2^31, which ends the display and sets the mode that the temperature
      calls for; a poll with u - t < 3000 changes nothing. */
  lemma DisplayEndsOnTime(calls: seq<Call>, i: nat, j: nat)
    requires i < j < |calls| && Asked(calls, i) != 0 && Undisturbed(calls, i, j) && calls[j].Poll?
    requires calls[i].clock.first <= calls[j].clock.first
    ensures var u, t := calls[j].clock.first, calls[i].clock.first;
            var s, s' := Run(false, calls, j), Run(false, calls, j + 1);
            && s.showingSetpoint
            && (u - t < 3000 ==> s' == s)
            && (3000 <= u - t < 3000 + H32 ==> !s'.showingSetpoint && Suits(s'.mode, s'.setpoint, s'.current))
  {
    hide Step, Good;
    var u: int, t: int := calls[j].clock.first, calls[i].clock.first;
    LemmaShown(calls, i, j);
    StateMeansHistory(calls, j);
    PollLaw(Run(false, calls, j), calls[j].clock);
    LemmaRealGap(u, t + 3000);
    LemmaFits(u - t - 3000);
    LemmaNegativeGap(u - t - 3000);
  }

  lemma LemmaNegativeGap(x: int)
    requires -3000 <= x
    ensures x < 0 ==> U32(x) >= H32
  {
  }

  /** The power after any sample of any run that is not overheated, in numbers: with `e` the error
      outside a deadband of 0.1 degrees and `dt` the real time since the stamp, the integral moves
      by e * dt / 1000 within 2000, and the power is (40000 e + 500 I + 300 D) / 1000 within 0 to 1000. */
  lemma SamplePower(calls: seq<Call>, n: nat) returns (q: int, d: int, out: int)
    requires n < |calls| && IsSample(calls[n]) && !Overheated(SetpointSet(calls, n), calls[n].event.value)
    ensures var pid, op := PidAfter(Updates(calls, n)), UpdateFor(calls, n);
            var e := PidRuns.WrappedError(op.setpoint - op.measured, 1);
            var integral := PidRuns.Saturated(I32(pid.integral + q), -2000, 2000);
            && PidRuns.RoundedToZero(q, e * op.dtMs, 1000)
            && (if pid.hasPrev then PidRuns.RoundedToZero(d, I32(e - pid.prevError) * 1000, op.dtMs) else d == 0)
            && PidRuns.RoundedToZero(out, I64(40000 * e + 500 * integral + 300 * I32(d)), 1000)
            && Run(false, calls, n + 1).pwm == PidRuns.Saturated(out, 0, 1000)
  {
    hide Step, Pid.MachineStep, PidRuns.RoundedToZero, PidAfter, I32, I64;
    StateMeansHistory(calls, n);
    var s, value, clock := Run(false, calls, n), calls[n].event.value, calls[n].clock;
    assert calls[n] == Process(Event(TemperatureReady, value), clock);
    SampleLaw(s, value, clock);
    LemmaFreshPid();
    LemmaRealGap(clock.first, Stamp(calls, n));
    assert SampleUpdate(s, value, clock.first) == UpdateFor(calls, n);
    q, d, out := PidRuns.MachineUpdateLaw(PidRuns.THERMOSTAT, s.pid, UpdateFor(calls, n));
  }

  /** The direction of control: the first sample after a fresh start gives full power 5.0 degrees
      or more below the setpoint, and no power at or above it, however late it comes. */
  lemma FirstSampleDirection(calls: seq<Call>, n: nat)
    requires n < |calls| && IsSample(calls[n]) && Updates(calls, n) == []
    ensures var gap := SetpointSet(calls, n) - calls[n].event.value;
            && (50 <= gap < H32 ==> Run(false, calls, n + 1).pwm == 1000)
            && (gap <= 0 ==> Run(false, calls, n + 1).pwm == 0)
  {
    hide Step, Good, Pid.MachineStep;
    StateMeansHistory(calls, n);
    var s, value, clock := Run(false, calls, n), calls[n].event.value, calls[n].clock;
    assert calls[n] == Process(Event(TemperatureReady, value), clock);
    SampleLaw(s, value, clock);
    LemmaFreshPid();
    LemmaFirstPower(SampleUpdate(s, value, clock.first));
  }

  lemma LemmaFirstPower(op: Pid.Op)
    requires op.UpdateOp? && op.dtMs > 0
    ensures var o := Pid.MachineStep(PidRuns.THERMOSTAT, FRESH, op).output;
            && (50 <= op.setpoint - op.measured < H32 ==> o == Some(1000))
            && (-30 <= op.setpoint - op.measured <= 0 ==> o == Some(0))
  {
    hide Pid.MachineStep;
    var q, d, out := PidRuns.MachineUpdateLaw(PidRuns.THERMOSTAT, FRESH, op);
    var e := op.setpoint - op.measured;
    if -30 <= e < H32 {
      var e' := if Abs(e) <= 1 then 0 else e;
      LemmaFits(e);
      LemmaMulBound(e', op.dtMs, if e > 0 then e else 30, W32);
      LemmaMulMono(if e > 0 then 0 else e', if e > 0 then e' else 0, op.dtMs);
      LemmaSignOfQuotient(q, e' * op.dtMs);
      var integral := PidRuns.Saturated(I32(q), -2000, 2000);
      LemmaFits(q);
      LemmaFits(40000 * e' + 500 * integral);
      LemmaSignOfQuotient(out, 40000 * e' + 500 * integral);
    }
  }

  lemma LemmaSignOfQuotient(q: int, x: int)
    requires PidRuns.RoundedToZero(q, x, 1000)
    ensures x <= 0 ==> q <= 0 && x <= 1000 * q
    ensures x >= 0 ==> q >= 0 && x < 1000 * q + 1000
  {
  }
}
