# Verified model of the stm32f0_basic firmware core

The firmware runs a thermostat on an STM32F0. This project models the parts of it, and of
the CMSIS headers it is built on, that carry state, loops or bit arithmetic, and proves what
they do over all inputs and whole runs.

| file | component |
|---|---|
| `Options.dfy`, `Arith.dfy`, `Words.dfy` | an optional value; truncating division; C's `&`, `\|`, `~`, `<<`, `>>` on 32-bit words, defined bit by bit, and their meaning |
| `Pid.dfy`, `PidRuns.dfy` | the fixed-point PID controller with the C++ widths, the same controller on unbounded integers, and runs of both |
| `Buttons.dfy` | the debounced button with hold detection, driven by a wrapping 32-bit millisecond counter |
| `BitOps.dfy` | bit reversal, leading zeros, rotation and saturation for cores without the instructions |
| `Nvic.dfy` | packing of interrupt priorities; word-packed and byte-array priority registers |
| `MpuV8.dfy`, `MpuV7.dfy` | loading a table of regions into a memory protection unit through alias windows |
| `Events.dfy`, `MainLoop.dfy`, `LoopRuns.dfy` | the bounded event queue, the main loop, and its runs from the inputs alone |
| `Thermostat.dfy`, `ThermostatRuns.dfy` | the table-driven thermostat with the PID controller inside, and its runs from the calls alone |

Objects the source updates in place are classes here (`PidInt`, `Button`, `WordNvic`,
`ByteNvic`, the two `Mpu`, `EventQueue`, `App`, `Controller`). Their methods follow the source statement by
statement and equal a function of the old state; the theorems are about that function and the
runs made of it. Where one C function is long, its stages are separate methods called in the
source's order: `Deviation`, `Integrate`, `Differentiate` and `Weigh` are the stages of `update`,
`LoadWindows`, `WindowOf` and `CopyRows` those of `ARM_MPU_LoadEx`, the five methods called by
`App.AppLoop` those of `app_loop`, and the methods called by `Controller.ProcessOne` those of
`processEvent` and its actions.

Times are real milliseconds in the theorems and their remainder modulo 2^32 in the code.
Signed overflow is undefined in C++; `Pid.PidInt` wraps in two's complement there, and
`PidRuns.MachineRefinesIdeal` says when no operation overflows at all.

Behaviour of the code that differs from what its comments suggest, each with its exact condition:

* The integral stays between its limits in every reachable state exactly when zero lies between
  them, because the constructor and `reset` set it to zero without clamping
  (`PidRuns.IntegralInRangeExactly`).
* The controller treats heating and cooling alike (it is an odd function) exactly when both pairs
  of limits are in order (`PidRuns.OddExactly`).
* A long gap between updates moves the integral against the error: one of 2^32 - 1 ms because the
  increment is cast to int32 (`PidRuns.LongGapTurnsTheIntegralAround`), a second one of 2^31 - 1 ms
  because the sum wraps though the cast is exact (`PidRuns.SecondLongGapTurnsTheIntegralAround`).
  The stored integral is right if and only if
  -(2^31 + 1 + integral) * sampleTime < error * dt < (2^31 - integral) * sampleTime, or the wrapped
  sum is beyond the limit that the exact one passes, or integrMin >= integrMax
  (`PidRuns.StoredIntegralExactly`). `PidRuns.ThermostatNeverOverflows` gives gaps for which it
  always is.
* Nominal updates recover the integral from its upper limit as promised exactly when one of its
  limits is not negative, and from its lower limit exactly when one is not positive
  (`PidRuns.AntiWindupExactly`, `PidRuns.AntiWindupUpExactly`).
* After a button event that moves no setpoint the thermostat's mode is the wildcard `Any`, which
  the table means for matching only; ticks are then ignored until the next sample, move of
  the setpoint or end of its display (`Thermostat.ModeExactly`). It does no harm, as a tick changes nothing in any
  mode (`Thermostat.TickChangesNothing`).
* A hold deadline that falls on 0 modulo 2^32 ends the Held events of that press
  (`Buttons.ZeroDeadlineSilencesHold`); every timing has such presses (`Buttons.SilentHoldIsReachable`).
* The release of a UART key comes at least 50 ms after the key exactly when the counter is not
  within 50 ms of its wrap at the key (`MainLoop.DelayKeptExactly`). A release that is due stops
  being due when the counter wraps before it is looked at, unless its deadline is 0
  (`MainLoop.DueAfterDelayExactly`).

## Model

| member | source | states |
|---|---|---|
| Pid.PidInt.constructor | Src/utils/PID.hpp:50-58 | a new controller has zero integral and previous error, no history, a sample time of at least 1 and a deadband of at least 0 |
| Pid.PidInt.Reset | Src/utils/PID.hpp:68-72 | afterwards the controller is as new with its current settings |
| Pid.PidInt.Update | Src/utils/PID.hpp:93-160 | one step of the fixed-width controller: new state and output, with every wrap and cast |
| Pid.PidInt.Deviation | Src/utils/PID.hpp:100-104 | the wrapped difference, zero inside the deadband |
| Pid.PidInt.Integrate | Src/utils/PID.hpp:106-111 | the integral after the scaled, truncated and cast increment and the clamp |
| Pid.PidInt.Differentiate | Src/utils/PID.hpp:114-121 | the derivative, 0 on the first step, and the remembered error |
| Pid.PidInt.Weigh | Src/utils/PID.hpp:124-135 | the weighted sum in int64, divided by 1000 and limited |
| Pid.PidInt.SetSampleTimeMs | Src/utils/PID.hpp:162-165 | sets the sample time, 1 for 0 |
| Pid.PidInt.SetDeadband | Src/utils/PID.hpp:167-170 | sets the deadband, 0 for a negative one |
| Pid.PidInt.ClampTo | Src/utils/PID.hpp:198-202 | lower limit first, then upper, for limits in any order |
| Pid.PidInt.Abs32 | Src/utils/PID.hpp:204-206 | the absolute value, with the wrap of the most negative int32 |
| PidRuns.NominalUpdate | Src/utils/PID.hpp:75-135 | at the nominal rate an update is the textbook PID law: integral plus error (zero up to the deadband), saturated; derivative the difference of errors, none on the first update; output (kp e + ki I + kd D) / 1000 toward zero, limited |
| PidRuns.RampDerivative | Src/utils/PID.hpp:114-118 | an error ramp of r per ms gives the derivative r * sampleTime whatever time has passed |
| PidRuns.UpdateLaw | Src/utils/PID.hpp:93-135 | an update after any time dt, the sample time for 0: integral plus e * dt / sampleTime, derivative (e - e') * sampleTime / dt, output (kp e + ki I + kd D) / 1000, each rounded toward zero and limited |
| PidRuns.MachineUpdateLaw | Src/utils/PID.hpp:93-160 | the same law for the fixed-width controller with any errors and times, naming each value that wraps |
| PidRuns.StateMeansHistory | Src/utils/PID.hpp:50-72 | after any run the sample time and deadband are the last ones set, and the previous error is that of the last update since the last reset; without one the integral is 0 |
| PidRuns.NominalRunSums | Src/utils/PID.hpp:106-111 | over nominal unsaturated updates the integral is the exact sum of the errors, those up to the deadband counting as zero |
| PidRuns.IntegratorCollapses | Src/utils/PID.hpp:106-111 | any run acts on the integral as one map x -> clamp(x + A, L, H), L <= H, that depends on settings and inputs only; with an update and no reset L and H lie within the limits |
| PidRuns.IntegralsNeverMoveApart | Src/utils/PID.hpp:106-111 | two controllers with the same settings and inputs never move apart in integral, and keep their order |
| PidRuns.IntegralInRangeExactly | Src/utils/PID.hpp:68-111 | the integral is within its limits in all reachable states if and only if integrMin <= 0 <= integrMax |
| PidRuns.AntiWindupRecovery | Src/utils/PID.hpp:100-111 | from any reachable state of a controller with a limit that is not negative, k nominal updates with error at most -e (e above the deadband) bring the integral to at most max(integrMin, integrMax - k e) |
| PidRuns.AntiWindupExactly | Src/utils/PID.hpp:68-111 | that holds for all histories, updates and e if and only if max(integrMin, integrMax) >= 0 |
| PidRuns.AntiWindupUpExactly | Src/utils/PID.hpp:68-111 | errors of at least e bring the integral to at least min(integrMax, integrMin + k e), for all histories, if and only if min(integrMin, integrMax) <= 0 |
| PidRuns.OddExactly | Src/utils/PID.hpp:198-202 | every step commutes with negation if and only if both pairs of limits are in order |
| PidRuns.OddRuns | Src/utils/PID.hpp:93-159 | negating inputs, state and limits negates all outputs, integrals and previous errors of a run |
| PidRuns.OutputMonotone | Src/utils/PID.hpp:100-135 | with non-negative gains the output never falls when the setpoint rises or the measurement falls |
| PidRuns.DriftBound | Src/utils/PID.hpp:106-110 | over n unsaturated updates, truncating each increment costs at most n (sampleTime - 1) against the exact sum of error times dt |
| PidRuns.MachineRefinesIdeal | Src/utils/PID.hpp:93-160 | within explicit bounds on errors, dt and sample time, for any int32 gains, states and outputs of every run are those of the controller on unbounded integers |
| PidRuns.ThermostatNeverOverflows | Src/config.h:117-134 | the bounds hold for the configured controller for updates up to 10^8 ms apart and any setpoint in range |
| PidRuns.IncrementCastExactly | Src/utils/PID.hpp:107-110 | the int32 cast of the increment is exact if and only if -(2^31 + 1) * sampleTime < error * dt < 2^31 * sampleTime |
| PidRuns.ErrorExactly | Src/utils/PID.hpp:100-104 | the fixed-width error is the exact one if and only if the difference is above -2^31 and below 2^31, or is -2^31 without a deadband |
| PidRuns.AccumulationExactly | Src/utils/PID.hpp:107-110 | the sum of integral and cast increment is the exact one if and only if -(2^31 + 1 + integral) * sampleTime < error * dt < (2^31 - integral) * sampleTime |
| PidRuns.StoredIntegralExactly | Src/utils/PID.hpp:106-111 | the integral an update stores is the unbounded controller's if and only if that sum fits, or wraps beyond the limit it had passed, or the limits leave one value |
| PidRuns.LongGapTurnsTheIntegralAround | Src/utils/PID.hpp:108-111 | a gap for which the cast of the increment turns the integral around |
| PidRuns.SecondLongGapTurnsTheIntegralAround | Src/utils/PID.hpp:110-111 | two gaps whose casts are exact, of which the second wraps the sum and takes the integral from its upper to its lower limit |
| Buttons.Button.constructor | Src/utils/Button.hpp:67-70 | a new button is up, with no change and no deadline |
| Buttons.Button.Tick | Src/utils/Button.hpp:27-56 | one tick: the four fields and the event |
| Buttons.Button.TickAt | Src/utils/Button.hpp:27-56 | every tick extends the history, and the fields and the event are those of the run of the history |
| Buttons.EventsExactly | Src/utils/Button.hpp:27-65 | for any gaps and any number of counter wraps, each event is the one defined from real times and past events alone |
| Buttons.DebounceSound | Src/utils/Button.hpp:31-48 | a newly reported level has been read at every tick for at least DebounceMs of real time |
| Buttons.DebounceComplete | Src/utils/Button.hpp:38-48 | a changed level read at every tick for DebounceMs, and for less than 2^32 ms, is reported |
| Buttons.EdgesApart | Src/utils/Button.hpp:31-48 | any two Pressed or Released events are at least DebounceMs apart |
| Buttons.EdgeRate | Src/utils/Button.hpp:31-48 | T ms hold at most T / DebounceMs + 1 such events |
| Buttons.EventGrammar | Src/utils/Button.hpp:38-53 | the events of a run form a prefix of (Pressed Held* Released)*, and the key is reported down exactly after Pressed or Held |
| Buttons.HeldSpacing | Src/utils/Button.hpp:49-53 | a Held comes at least HoldMs after the previous Pressed or Held |
| Buttons.HeldWhenDue | Src/utils/Button.hpp:49-61 | a pressed key less than 2^31 ms past a deadline other than 0 modulo 2^32 reports Held |
| Buttons.ZeroDeadlineSilencesHold | Src/utils/Button.hpp:42-51 | with a deadline of 0 modulo 2^32 no Held comes until the key is released |
| Buttons.SilentHoldIsReachable | Src/utils/Button.hpp:42-51 | for every timing, a key pressed at a certain moment reports Pressed and never Held, however long it is kept down |
| BitOps.RbitGcc | Libraries/CMSIS/Include/cmsis_gcc.h:981-1002 | the early-exit loop returns the 32 bits in reverse order |
| BitOps.RbitIar | Libraries/CMSIS/Include/cmsis_iccarm.h:511-522 | so does the loop with the 8-bit counter |
| BitOps.RbitMirrorsBits | Libraries/CMSIS/Include/cmsis_gcc.h:975-1002 | bit i of the result is bit 31 - i of the input |
| BitOps.RbitInvolution | Libraries/CMSIS/Include/cmsis_gcc.h:981-1002 | reversing twice is the identity |
| BitOps.Clz | Libraries/CMSIS/Include/cmsis_iccarm.h:496-509 | the count n has 2^(31-n) <= x < 2^(32-n), or is 32 for 0 |
| BitOps.LeadingZerosUnique | Libraries/CMSIS/Include/cmsis_iccarm.h:496-509 | only one count has that property |
| BitOps.ClzOfRbit | Libraries/CMSIS/Include/cmsis_iccarm.h:496-522 | the leading zeros of the reversed word are the trailing zeros of the word |
| BitOps.RorMovesBits | Libraries/CMSIS/Include/cmsis_gcc.h:954-962 | bit i of the rotated word is bit (i + op2) mod 32 |
| BitOps.SsatIsClosest | Libraries/CMSIS/Include/cmsis_gcc.h:1299-1315 | the closest value in sat signed bits; the value itself for sat outside 1 to 32 |
| BitOps.UsatIsClosest | Libraries/CMSIS/Include/cmsis_gcc.h:1324-1339 | the closest value in sat unsigned bits; the word itself for sat above 31 |
| Nvic.DecodePriority | Libraries/CMSIS/Include/core_cm0.h:806-817 | writes both fields of a packed priority |
| Nvic.WidthsSum | Libraries/CMSIS/Include/core_cm0.h:781-786 | the widths sum to the implemented bits, the sub-priority having group + bits - 7 of them or none |
| Nvic.DecodeEncode | Libraries/CMSIS/Include/core_cm0.h:779-817 | decoding an encoded pair returns it modulo the widths |
| Nvic.EncodeDecode | Libraries/CMSIS/Include/core_cm0.h:779-817 | encoding a decoded value returns it modulo the implemented bits |
| Nvic.PackedFields | Libraries/CMSIS/Include/core_cm0.h:779-817 | for any values, encode gives preempt mod its width above sub mod its width, and decode takes the same fields out |
| Nvic.EncodedOrder | Libraries/CMSIS/Include/core_cm0.h:779-792 | encoded values are ordered by preemption priority, then sub-priority |
| Nvic.LemmaIndices | Libraries/CMSIS/Include/core_armv8mbl.h:1239-1241 | the index macros give word irqn / 4 and byte irqn mod 4, counted from -8 for system handlers |
| Nvic.WordSetLanes | Libraries/CMSIS/Include/core_armv8mbl.h:1447-1459 | setting a priority writes its implemented bits to the top of one byte lane and no other interrupt's |
| Nvic.WordGetLane | Libraries/CMSIS/Include/core_armv8mbl.h:1471-1482 | reading a priority reads the top bits of that lane |
| Nvic.ByteSetLanes | Libraries/CMSIS/Include/core_armv8mml.h:2342-2352 | the byte array's set writes the same bits to one byte |
| Nvic.ByteGetLane | Libraries/CMSIS/Include/core_armv8mml.h:2364-2375 | the byte array's get reads the top bits of that byte, for all twelve system handlers |
| Nvic.WordsRefineBytes | Libraries/CMSIS/Include/core_armv8mbl.h:1447-1482 | after any sequence of sets both register files hold the same bytes, and both gets agree |
| Nvic.GetAfterRun | Libraries/CMSIS/Include/core_cm0.h:730-765 | after any sequence of sets, get returns the last priority set for that interrupt modulo 2^bits, or what it returned before |
| Nvic.PriorityRoundTrip | Libraries/CMSIS/Include/core_cm0.h:730-817 | encode, set, get, decode returns the pair modulo the widths |
| Nvic.WordNvic.SetPriority | Libraries/CMSIS/Include/core_cm0.h:730-742 | the read-modify-write of one register word |
| Nvic.WordNvic.GetPriority | Libraries/CMSIS/Include/core_cm0.h:754-765 | the priority read from the register word |
| Nvic.ByteNvic.SetPriority | Libraries/CMSIS/Include/core_armv8mml.h:2342-2352 | the store of one register byte |
| Nvic.ByteNvic.GetPriority | Libraries/CMSIS/Include/core_armv8mml.h:2364-2375 | the priority read from the register byte |
| MpuV8.Mpu.Store | Libraries/CMSIS/Include/core_armv8mml.h:1486-1507 | a store inside the alias windows reaches the region that its offset and RNR select |
| MpuV8.Mpu.OrderedCpy | Libraries/CMSIS/Include/mpu_armv8.h:270-277 | writes the words of the rows in order and stays inside the windows |
| MpuV8.Mpu.LoadEx | Libraries/CMSIS/Include/mpu_armv8.h:285-308 | for 1 and 4 aliases, any first region and any count, region first + i becomes row i and no other region changes; the words are written in ascending order, RBAR first; RNR ends at the window of the last region |
| MpuV8.Mpu.LoadWindows | Libraries/CMSIS/Include/mpu_armv8.h:291-307 | the window loop ends and writes exactly the words of the table |
| MpuV8.Mpu.CopyRows | Libraries/CMSIS/Include/mpu_armv8.h:298-299 | one window's share of the rows |
| MpuV8.Mpu.WindowOf | Libraries/CMSIS/Include/mpu_armv8.h:292-293 | base and offset of the aligned window of a region |
| MpuV8.EveryPrefixOfALoad | Libraries/CMSIS/Include/mpu_armv8.h:285-308 | the region file after every single word of a load: earlier rows complete, at most one half-written, everything else as before |
| MpuV8.SplicedIsSetEach | Libraries/CMSIS/Include/mpu_armv8.h:236-241 | the result of a load is that of setting one region after another |
| MpuV8.LoadsCompose | Libraries/CMSIS/Include/mpu_armv8.h:285-308 | loading two adjoining tables writes the same words in the same order as loading their concatenation, and leaves the same regions |
| MpuV8.Mpu.SetRegionEx | Libraries/CMSIS/Include/mpu_armv8.h:236-241 | sets one region, RBAR before RLAR |
| MpuV8.Mpu.ClrRegionEx | Libraries/CMSIS/Include/mpu_armv8.h:206-210 | zeroes the limit of one region and keeps its base |
| MpuV8.Mpu.SetMemAttrEx | Libraries/CMSIS/Include/mpu_armv8.h:169-180 | sets one of eight attributes and keeps the other seven; an invalid index changes nothing |
| MpuV7.Mpu.StoreRbar | Libraries/CMSIS/Include/mpu_armv7.h:223-227 | a valid RBAR selects its region, any other goes to the region in RNR |
| MpuV7.Mpu.StoreRasr | Libraries/CMSIS/Include/mpu_armv7.h:223-227 | RASR goes to the region in RNR |
| MpuV7.Mpu.SetRegionRow | Libraries/CMSIS/Include/mpu_armv7.h:223-227 | RBAR, then RASR |
| MpuV7.Mpu.ClrRegion | Libraries/CMSIS/Include/mpu_armv7.h:213-217 | zeroes the attributes of one region and keeps its base |
| MpuV7.Mpu.OrderedCpy | Libraries/CMSIS/Include/mpu_armv7.h:246-253 | copying the words of some rows sets their regions one after another |
| MpuV7.Mpu.Load | Libraries/CMSIS/Include/mpu_armv7.h:259-268 | for any number of aliases, a load is the left fold of setting regions over the table |
| MpuV7.LoadsCompose | Libraries/CMSIS/Include/mpu_armv7.h:259-268 | loading t1 + t2 is loading t1, then t2 |
| MpuV7.LastRowWins | Libraries/CMSIS/Include/mpu_armv7.h:259-268 | after a load every region holds the last row that goes to it, or is as before; a row without VALID goes where the one before it went |
| MpuV7.RbarFields | Libraries/CMSIS/Include/mpu_armv7.h:75-78 | the macro's value is valid, names region mod 16 and holds the address rounded down to 32 |
| Events.EventQueue.constructor | Src/app/Event.hpp:50-51 | a new queue is empty |
| Events.EventQueue.Push | Src/app/Event.hpp:33-39 | appends the event, or rejects it exactly when 16 wait |
| Events.EventQueue.Pop | Src/app/Event.hpp:41-48 | takes the oldest event, or none exactly when the queue is empty |
| MainLoop.App.AppLoop | Src/app/app_loop.cpp:10-87 | one iteration: state and everything that happened, in order |
| MainLoop.App.PollServices | Src/app/app_loop.cpp:11-15 | the services' events are offered in order |
| MainLoop.App.FinishRelease | Src/app/app_loop.cpp:24-28 | a due release is offered once and no longer pending |
| MainLoop.App.ReadKeys | Src/app/app_loop.cpp:30-66 | every key '1' to '4' up to a read error offers its press and schedules its release |
| MainLoop.App.CountTicks | Src/app/app_loop.cpp:69-78 | one interrupt is consumed if any waits; the hundredth offers a tick |
| MainLoop.App.DispatchOne | Src/app/app_loop.cpp:80-83 | the oldest event is dispatched |
| MainLoop.RunsBalance | Src/app/app_loop.cpp:20-83 | in every run accepted events are dispatched events plus queue, in order; presses are release attempts plus replaced plus pending releases; ticks are consumed interrupts / 100 |
| MainLoop.RunsAreLegal | Src/app/app_loop.cpp:20-83 | in every run an event is rejected exactly when 16 wait, dispatch is first in first out, a release is for the last pressed button, and a tick comes with each hundredth interrupt |
| MainLoop.IterationKeepsBalance | Src/app/app_loop.cpp:20-83 | an iteration keeps the balance, leaves at most 15 events and dispatches one unless none waits |
| MainLoop.DispatchedWithinSixteenPops | Src/app/app_loop.cpp:80-83 | what is accepted by the end of an iteration has been dispatched fifteen iterations later |
| MainLoop.PressesAreKeys | Src/app/app_loop.cpp:30-66 | the UART presses of a run are the keys '1' to '4' typed, in order |
| MainLoop.TypedExactly | Src/app/app_loop.cpp:31-33 | the keys read are the longest stretch without a negative byte |
| MainLoop.InterruptsLostInWholeWraps | Src/app/app_loop.cpp:69-71 | consumed and waiting interrupts are those that arrived, less whole wraps of the 16-bit counter |
| MainLoop.DelayKeptExactly | Src/app/app_loop.cpp:25-64 | no release is due within 50 ms of its key if and only if the counter is not within 50 ms of its wrap |
| MainLoop.DueAfterDelayExactly | Src/app/app_loop.cpp:25-64 | from 50 ms after the key until time t the release is due throughout if and only if the counter does not wrap in between or the deadline is 0 |
| LoopRuns.RunsFollowInputs | Src/app/app_loop.cpp:10-87 | in every run the events offered, their order, the pending release with its deadline, the interrupts left and the divider are those that the inputs alone determine |
| LoopRuns.IterationOffers | Src/app/app_loop.cpp:11-78 | an iteration offers a release exactly if the last key before it has had none and its counter is at or past the key's plus 50, and a tick exactly if it consumes an interrupt that makes a multiple of 100; it consumes one exactly if any waits |
| LoopRuns.OneDispatchEach | Src/app/app_loop.cpp:80-83 | an iteration dispatches exactly one event, none only if all accepted ones have been |
| LoopRuns.RunsAreTimely | Src/app/app_loop.cpp:20-67 | the release check of an iteration that offers a release comes at least 50 ms after the key, unless the key came within 50 ms of a wrap |
| Thermostat.Controller.constructor | Src/services/Controller/Controller.hpp:106-142 | a new controller: setpoint 40.0 degrees, idle, heater off, a new PID with the configured gains and limits |
| Thermostat.Controller.ProcessOne | Src/services/Controller/Controller.cpp:61-95 | one event: the first matching row of the table acts and sets the mode |
| Thermostat.Controller.RowMatches | Src/services/Controller/Controller.cpp:74-76 | signal, source mode and guard of a row, with both wildcards |
| Thermostat.Controller.RememberButton | Src/services/Controller/Controller.cpp:62-71 | the held flags of S1 and S2 |
| Thermostat.Controller.Perform | Src/services/Controller/Controller.cpp:78-90 | the action of a row and the mode it returns |
| Thermostat.Controller.TakeSample | Src/services/Controller/Controller.cpp:121-148 | a sample: power from the PID, or none if overheated; a fresh PID after the error mode |
| Thermostat.Controller.ChangeSetpoint | Src/services/Controller/Controller.cpp:151-178 | the setpoint one step further within its limit, PID reset, heater off |
| Thermostat.Controller.ApplyState | Src/services/Controller/Controller.cpp:213-225 | the new mode; heater off and PID reset in the error mode, new time stamp when leaving it |
| Thermostat.Controller.DriveOutputs | Src/services/Controller/Controller.cpp:239-251 | the commanded power, limited, none in the error mode |
| Thermostat.Controller.PollOnce | Src/services/Controller/Controller.cpp:304-311 | the display timeout re-evaluates the mode |
| Thermostat.TableMeansReaction | Src/services/Controller/Controller.cpp:24-95 | first match in the table is a plain case distinction on the event: no row hides another wrongly |
| Thermostat.StepKeepsGood | Src/services/Controller/Controller.cpp:61-251 | every event and poll keeps: valid setpoint; power in range and the one commanded; power only if not overheated; in the error mode no power and a fresh PID |
| Thermostat.NeverHeatsWhenOverheated | Src/services/Controller/Controller.cpp:121-251 | in every run the heater is off whenever the last temperature is more than 3.0 degrees above the setpoint |
| Thermostat.HeatsOnlyOnAGoodSample | Src/services/Controller/Controller.cpp:61-251 | in every run a powered heater goes back to a sample at most 3.0 degrees above the setpoint, with no other sample and no move of the setpoint since |
| Thermostat.PowerChangesExactly | Src/services/Controller/Controller.cpp:61-311 | anything but a sample leaves the power as it is, except that a move of the setpoint switches it off |
| Thermostat.TickChangesNothing | Src/services/Controller/Controller.cpp:26-27 | a 100 ms tick changes no part of any reachable state |
| Thermostat.ModeExactly | Src/services/Controller/Controller.cpp:24-95 | the mode after every event: by comparing temperature and setpoint after a sample or a move, the wildcard after other button events, unchanged otherwise |
| Thermostat.SetpointFollowsButtons | Src/services/Controller/Controller.cpp:61-178 | in every run each call moves the setpoint as the history of presses, Helds and releases asks for |
| Thermostat.PressHoldRelease | Src/services/Controller/Controller.cpp:61-178 | press, k Held, release lowers (S1) or raises (S2) the setpoint by max(k, 1) steps, not beyond its limit, whatever polls, samples, ticks and other events come in between |
| Thermostat.ThermostatIsExact | Src/services/Controller/Controller.cpp:121-327 | in every run with samples at most 27 hours apart no PID computation overflows: the thermostat behaves as one with an unbounded PID, across wraps of the time stamp |
| ThermostatRuns.SampleLaw | Src/services/Controller/Controller.cpp:121-148 | a sample that is not overheated gives the power and PID state of one fixed-width update with setpoint, measurement and the time since the stamp, at least 1, on a fresh PID after the error mode; an overheated one gives no power and a fresh PID |
| ThermostatRuns.MoveLaw | Src/services/Controller/Controller.cpp:151-178 | a move of the setpoint: no power, fresh PID, setpoint shown for 3000 ms, mode by comparison, new stamp |
| ThermostatRuns.OtherEventLaw | Src/services/Controller/Controller.cpp:61-95 | any other event changes at most the held flags, the mode to the wildcard, and the stamp on leaving the error mode |
| ThermostatRuns.PollLaw | Src/services/Controller/Controller.cpp:304-317 | a poll ends the display at or after its deadline and re-evaluates the mode, and changes nothing otherwise |
| ThermostatRuns.StateMeansHistory | Src/services/Controller/Controller.cpp:61-327 | in every run each field of the controller, its PID state and its power are those that samples, button events and real times determine |
| ThermostatRuns.DisplayEndsOnTime | Src/services/Controller/Controller.cpp:304-317 | a setpoint moved at t is shown until the first poll at u with 3000 <= u - t < 3000 + 2^31, which sets the mode by comparison; earlier polls change nothing |
| ThermostatRuns.SamplePower | Src/services/Controller/Controller.cpp:121-148 | the power after any sample of any run: (40000 e + 500 I + 300 D) / 1000 within 0 to 1000, with I and D over the real time since the stamp |
| ThermostatRuns.FirstSampleDirection | Src/services/Controller/Controller.cpp:134-139 | the first sample after a fresh start gives full power 5.0 degrees or more below the setpoint and none at or above it |

## Left out

- Button combinations (`ButtonsManager`) and `BeepManager`: the main loop sees them as pushes of arbitrary events.
- The thermostat's display text and beeps, and `Controller::init`, which nothing in the firmware calls.
- Drivers, start-up, interrupt handlers and peripherals: their times, levels, bytes and interrupt counts are inputs.
- The main loop assumes its pointers are set; an absent UART is one without bytes.
- Interrupts arrive between the stages of an iteration; a race between an interrupt and the decrement of its counter is not modelled.
- `etl::circular_buffer` is not part of this repository: the queue is modelled as an ordinary ring of 16 slots.
- PidRuns.MachineRefinesIdeal: gives sufficient bounds, not the exact set of overflowing inputs, because sums of wrapped terms can also come out right.
- Nvic.WordsRefineBytes: system handlers -12 to -9, which only the byte array has a register for, are not compared.
- MpuV8.Mpu.Store: reserved bits of RBAR and RLAR are stored as written.
- MpuV7.Mpu.StoreRbar: the address field is the architectural bits 31 to 5; cores that implement fewer bits are not distinguished.
- `ARM_MPU_RASR_EX` and `ARM_MPU_ACCESS_NORMAL`: their round trips do not hold, since the first drops two arguments and the second masks one away.
- Inline assembly, barriers, enabling of the MPU, SIMD intrinsics, and the copies of the NVIC code for other cores.
