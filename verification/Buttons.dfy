/** The debounced push button with hold detection, `Button<DebounceMs, HoldMs>`.

    The code sees a 32-bit millisecond counter that wraps every 49.7 days. The proofs
    see the real time of every tick and the samples read so far, and show which events
    the four fields of the button produce from them. */
module Buttons {
  import opened Arith
  import opened Words

  datatype Event = None | Pressed | Released | Held

  /** The template parameters. */
  datatype Timing = Timing(debounceMs: uint16, holdMs: uint16)

  datatype State = State(rawState: bool, stableState: bool, lastChange: uint32, holdDeadline: uint32)

  datatype Outcome = Outcome(state: State, event: Event)

  const INITIAL: State := State(false, false, 0, 0)

  predicate TimeReached(now: uint32, deadline: uint32) { I32(U32(now - deadline)) >= 0 }

  predicate HasElapsed(now: uint32, since: uint32, duration: uint32) { U32(now - since) >= duration }

  /** One call of `tick`, reading the counter as `now` and the level as `rawPressed`. */
  function Step(p: Timing, s: State, now: uint32, rawPressed: bool): Outcome {
    var lastChange := if rawPressed != s.rawState then now else s.lastChange;
    if rawPressed != s.stableState then
      if HasElapsed(now, lastChange, p.debounceMs) then
        Outcome(State(rawPressed, rawPressed, lastChange, if rawPressed then U32(now + p.holdMs) else 0),
                if rawPressed then Pressed else Released)
      else
        Outcome(State(rawPressed, s.stableState, lastChange, s.holdDeadline), None)
    else if s.stableState && p.holdMs > 0 && s.holdDeadline != 0 && TimeReached(now, s.holdDeadline) then
      Outcome(State(rawPressed, s.stableState, lastChange, U32(now + p.holdMs)), Held)
    else
      Outcome(State(rawPressed, s.stableState, lastChange, s.holdDeadline), None)
  }

  // ---- Runs ------------------------------------------------------------------------------

  /** A tick: the real time in ms since the counter started, and whether the key read as pressed. */
  datatype Sample = Sample(t: nat, pressed: bool)

  ghost predicate Chronological(tr: seq<Sample>) {
    forall i, j | 0 <= i <= j < |tr| :: tr[i].t <= tr[j].t
  }

  /** The fields after the first `n` ticks; the code sees each time modulo 2^32. */
  ghost function After(p: Timing, tr: seq<Sample>, n: nat): State
    requires n <= |tr|
  {
    if n == 0 then INITIAL
    else Step(p, After(p, tr, n - 1), U32(tr[n - 1].t), tr[n - 1].pressed).state
  }

  /** The event of every tick. */
  ghost function Events(p: Timing, tr: seq<Sample>): seq<Event> {
    seq(|tr|, i requires 0 <= i < |tr| => Step(p, After(p, tr, i), U32(tr[i].t), tr[i].pressed).event)
  }

  lemma {:induction false} LemmaAfterPrefix(p: Timing, tr: seq<Sample>, x: Sample, n: nat)
    requires n <= |tr|
    ensures After(p, tr + [x], n) == After(p, tr, n)
  {
    if n > 0 {
      LemmaAfterPrefix(p, tr, x, n - 1);
    }
  }

  // ---- Histories: samples and the events reported for them -----------------------------------

  predicate IsEdge(e: Event) { e == Pressed || e == Released }

  /** The last tick before `n` with an event, or -1. */
  function LastSignal(ev: seq<Event>, n: nat): (m: int)
    requires n <= |ev|
    ensures -1 <= m < n
    ensures m >= 0 ==> ev[m] != None
    ensures forall k | m < k < n :: ev[k] == None
  {
    if n == 0 then -1 else if ev[n - 1] != None then n - 1 else LastSignal(ev, n - 1)
  }

  /** The last tick before `n` with a Pressed or Released, or -1. */
  function LastEdge(ev: seq<Event>, n: nat): (m: int)
    requires n <= |ev|
    ensures -1 <= m < n
    ensures m >= 0 ==> IsEdge(ev[m])
    ensures forall k | m < k < n :: !IsEdge(ev[k])
  {
    if n == 0 then -1 else if IsEdge(ev[n - 1]) then n - 1 else LastEdge(ev, n - 1)
  }

  /** The debounced level before tick `n`, as the events have reported it. */
  predicate Down(ev: seq<Event>, n: nat)
    requires n <= |ev|
  {
    LastEdge(ev, n) >= 0 && ev[LastEdge(ev, n)] == Pressed
  }

  /** The first tick of the stretch of equal samples that ends at tick `i`. */
  function SteadyFrom(tr: seq<Sample>, i: nat): (j: nat)
    requires i < |tr|
    ensures j <= i
    ensures forall k | j <= k <= i :: tr[k].pressed == tr[i].pressed
    ensures j > 0 ==> tr[j - 1].pressed != tr[i].pressed
  {
    if i == 0 || tr[i - 1].pressed != tr[i].pressed then i else SteadyFrom(tr, i - 1)
  }

  /** For how long the level read at tick `i` has been read. */
  function SteadySpan(tr: seq<Sample>, i: nat): int
    requires i < |tr|
  {
    tr[i].t - tr[SteadyFrom(tr, i)].t
  }

  /** The real time of the next Held after the last event before tick `i`. */
  function Deadline(p: Timing, tr: seq<Sample>, ev: seq<Event>, i: nat): int
    requires i <= |ev| == |tr| && LastSignal(ev, i) >= 0
  {
    tr[LastSignal(ev, i)].t + p.holdMs
  }

  /** How far tick `i` is past that time. */
  function Lateness(p: Timing, tr: seq<Sample>, ev: seq<Event>, i: nat): int
    requires i < |ev| == |tr| && LastSignal(ev, i) >= 0
  {
    tr[i].t - Deadline(p, tr, ev, i)
  }

  /** What tick `i` should report, from real times and past events alone. */
  function Expected(p: Timing, tr: seq<Sample>, ev: seq<Event>, i: nat): Event
    requires i < |ev| == |tr|
  {
    if tr[i].pressed != Down(ev, i) then
      if U32(SteadySpan(tr, i)) >= p.debounceMs then (if tr[i].pressed then Pressed else Released) else None
    else if Down(ev, i) && LastSignal(ev, i) >= 0 then
      if p.holdMs > 0 && U32(Deadline(p, tr, ev, i)) != 0 && U32(Lateness(p, tr, ev, i)) < H32 then Held else None
    else None
  }

  /** `ev` is what the specification asks for on the samples `tr`. */
  ghost predicate Explained(p: Timing, tr: seq<Sample>, ev: seq<Event>) {
    && Chronological(tr)
    && |ev| == |tr|
    && forall i {:trigger Expected(p, tr, ev, i)} | 0 <= i < |ev| :: ev[i] == Expected(p, tr, ev, i)
  }

  // ---- The code refines the specification ------------------------------------------------------

  /** What the four fields hold before tick `n`, in terms of the history. */
  ghost predicate FieldsMeanHistory(p: Timing, tr: seq<Sample>, ev: seq<Event>, n: nat, s: State)
    requires n <= |ev| == |tr|
  {
    && s.rawState == (n > 0 && tr[n - 1].pressed)
    && s.stableState == Down(ev, n)
    && (s.rawState != s.stableState ==> n > 0 && s.lastChange == U32(tr[SteadyFrom(tr, n - 1)].t))
    && (s.stableState ==> LastSignal(ev, n) >= 0 && s.holdDeadline == U32(Deadline(p, tr, ev, n)))
  }

  // Differences and sums of counter values are those of the real times, modulo 2^32.

  lemma LemmaSubMod(a: int, b: int)
    ensures U32(U32(a) - U32(b)) == U32(a - b)
  {
  }

  lemma LemmaAddMod(a: int, b: int)
    ensures U32(U32(a) + b) == U32(a + b)
  {
  }

  lemma LemmaTimeReached(a: int, deadline: int)
    ensures TimeReached(U32(a), U32(deadline)) <==> U32(a - deadline) < H32
  {
    LemmaSubMod(a, deadline);
    LemmaSignBit(U32(a - deadline));
  }

  lemma LemmaSignBit(x: uint32)
    ensures I32(x) >= 0 <==> x < H32
  {
  }

  lemma LemmaChangeTime(p: Timing, tr: seq<Sample>, ev: seq<Event>, i: nat, s: State)
    requires i < |ev| == |tr| && FieldsMeanHistory(p, tr, ev, i, s)
    requires tr[i].pressed != s.stableState
    ensures (if tr[i].pressed != s.rawState then U32(tr[i].t) else s.lastChange) == U32(tr[SteadyFrom(tr, i)].t)
  {
  }

  lemma LemmaEventExpected(p: Timing, tr: seq<Sample>, ev: seq<Event>, i: nat, s: State)
    requires i < |ev| == |tr| && FieldsMeanHistory(p, tr, ev, i, s)
    ensures Step(p, s, U32(tr[i].t), tr[i].pressed).event == Expected(p, tr, ev, i)
  {
    if tr[i].pressed != s.stableState {
      LemmaChangeTime(p, tr, ev, i, s);
      LemmaSubMod(tr[i].t, tr[SteadyFrom(tr, i)].t);
    } else if s.stableState {
      LemmaTimeReached(tr[i].t, Deadline(p, tr, ev, i));
    }
  }

  lemma LemmaFieldsStep(p: Timing, tr: seq<Sample>, ev: seq<Event>, i: nat, s: State)
    requires i < |ev| == |tr| && FieldsMeanHistory(p, tr, ev, i, s)
    requires ev[i] == Step(p, s, U32(tr[i].t), tr[i].pressed).event
    ensures FieldsMeanHistory(p, tr, ev, i + 1, Step(p, s, U32(tr[i].t), tr[i].pressed).state)
  {
    LemmaAddMod(tr[i].t, p.holdMs);
    if tr[i].pressed != s.stableState {
      LemmaChangeTime(p, tr, ev, i, s);
    }
  }

  lemma {:induction false} LemmaFields(p: Timing, tr: seq<Sample>, n: nat)
    requires n <= |tr|
    ensures FieldsMeanHistory(p, tr, Events(p, tr), n, After(p, tr, n))
  {
    if n > 0 {
      LemmaFields(p, tr, n - 1);
      LemmaFieldsStep(p, tr, Events(p, tr), n - 1, After(p, tr, n - 1));
    }
  }

  /** Refinement: for any gaps between ticks, and across any number of wraps of the counter,
      the events of the code are exactly the expected ones. */
  lemma EventsExactly(p: Timing, tr: seq<Sample>)
    requires Chronological(tr)
    ensures Explained(p, tr, Events(p, tr))
  {
    forall i | 0 <= i < |tr| ensures Events(p, tr)[i] == Expected(p, tr, Events(p, tr), i) {
      LemmaFields(p, tr, i);
      LemmaEventExpected(p, tr, Events(p, tr), i, After(p, tr, i));
    }
  }

  // ---- Debouncing ----------------------------------------------------------------------------------

  lemma LemmaModSmall(x: int)
    requires 0 <= x
    ensures U32(x) <= x
    ensures x < W32 ==> U32(x) == x
  {
  }

  lemma LemmaEdgeExpected(p: Timing, tr: seq<Sample>, ev: seq<Event>, i: nat)
    requires Explained(p, tr, ev) && i < |ev|
    ensures IsEdge(ev[i]) <==> tr[i].pressed != Down(ev, i) && U32(SteadySpan(tr, i)) >= p.debounceMs
    ensures IsEdge(ev[i]) ==> ev[i] == if tr[i].pressed then Pressed else Released
  {
    assert ev[i] == Expected(p, tr, ev, i);
  }

  /** Debounce soundness: a newly reported level has been read at every tick for at least
      DebounceMs of real time. */
  lemma DebounceSound(p: Timing, tr: seq<Sample>, ev: seq<Event>, i: nat)
    requires Explained(p, tr, ev) && i < |ev| && IsEdge(ev[i])
    ensures exists j: nat ::
              && j <= i && tr[j].t + p.debounceMs <= tr[i].t
              && forall k | j <= k <= i :: tr[k].pressed == (ev[i] == Pressed)
    ensures (ev[i] == Pressed) != Down(ev, i)
  {
    LemmaEdgeExpected(p, tr, ev, i);
    var j := SteadyFrom(tr, i);
    LemmaModSmall(SteadySpan(tr, i));
    assert tr[j].t + p.debounceMs <= tr[i].t;
  }

  /** Debounce completeness: a level other than the reported one that has been read at every
      tick for DebounceMs or more is reported at once, if it appeared less than 2^32 ms ago. */
  lemma DebounceComplete(p: Timing, tr: seq<Sample>, ev: seq<Event>, i: nat)
    requires Explained(p, tr, ev) && i < |ev| && tr[i].pressed != Down(ev, i)
    requires p.debounceMs <= SteadySpan(tr, i) < W32
    ensures ev[i] == if tr[i].pressed then Pressed else Released
  {
    LemmaEdgeExpected(p, tr, ev, i);
    LemmaModSmall(SteadySpan(tr, i));
  }

  // ---- Rate of the edges ---------------------------------------------------------------------------

  /** Any two Pressed or Released events are at least DebounceMs of real time apart. */
  lemma EdgesApart(p: Timing, tr: seq<Sample>, ev: seq<Event>, i: nat, k: nat)
    requires Explained(p, tr, ev) && i < k < |ev|
    requires IsEdge(ev[i]) && IsEdge(ev[k])
    ensures tr[i].t + p.debounceMs <= tr[k].t
  {
    var m, j := LastEdge(ev, k), SteadyFrom(tr, k);
    assert i <= m;
    LemmaEdgeExpected(p, tr, ev, k);
    LemmaEdgeExpected(p, tr, ev, m);
    assert tr[m].pressed != tr[k].pressed;
    assert m < j;
    LemmaModSmall(SteadySpan(tr, k));
  }

  /** The number of Pressed and Released events at ticks `i` to `j - 1`. */
  function Edges(ev: seq<Event>, i: nat, j: nat): nat
    requires i <= j <= |ev|
  {
    if i == j then 0 else Edges(ev, i, j - 1) + if IsEdge(ev[j - 1]) then 1 else 0
  }

  lemma {:induction false} LemmaEdges(p: Timing, tr: seq<Sample>, ev: seq<Event>, i: nat, j: nat)
    requires Explained(p, tr, ev) && i <= j <= |ev|
    ensures Edges(ev, i, j) > 0 <==> LastEdge(ev, j) >= i
    ensures Edges(ev, i, j) > 0 ==>
              (Edges(ev, i, j) - 1) * p.debounceMs <= tr[LastEdge(ev, j)].t - tr[i].t
    decreases j - i
  {
    if i < j {
      LemmaEdges(p, tr, ev, i, j - 1);
      var n := Edges(ev, i, j - 1);
      if IsEdge(ev[j - 1]) && n > 0 {
        EdgesApart(p, tr, ev, LastEdge(ev, j - 1), j - 1);
        LemmaOneMore(n, p.debounceMs);
      } else if n == 0 {
        LemmaOneMore(1, p.debounceMs);
      }
    }
  }

  lemma LemmaOneMore(n: int, d: int)
    ensures n * d == (n - 1) * d + d && 0 * d == 0
  {
  }

  /** Rate bound: a window of T ms of ticks holds at most T / DebounceMs + 1 edges. */
  lemma EdgeRate(p: Timing, tr: seq<Sample>, ev: seq<Event>, i: nat, j: nat)
    requires Explained(p, tr, ev) && i < j <= |ev| && p.debounceMs > 0
    ensures Edges(ev, i, j) <= (tr[j - 1].t - tr[i].t) / p.debounceMs + 1
  {
    LemmaEdges(p, tr, ev, i, j);
    var n := Edges(ev, i, j);
    LemmaQuotient(tr[j - 1].t - tr[i].t, p.debounceMs);
    if n > (tr[j - 1].t - tr[i].t) / p.debounceMs + 1 {
      LemmaMulMono((tr[j - 1].t - tr[i].t) / p.debounceMs + 1, n - 1, p.debounceMs);
    }
  }

  // ---- Grammar of the events ------------------------------------------------------------------------

  /** The events of the first `n` ticks without the Nones. */
  function Signals(ev: seq<Event>, n: nat): seq<Event>
    requires n <= |ev|
  {
    if n == 0 then [] else Signals(ev, n - 1) + if ev[n - 1] == None then [] else [ev[n - 1]]
  }

  // Prefixes of (Pressed Held* Released)*, read from the key up and from the key down.

  predicate FromUp(es: seq<Event>) {
    es == [] || (es[0] == Pressed && FromDown(es[1..]))
  }

  predicate FromDown(es: seq<Event>) {
    es == [] || (es[0] == Held && FromDown(es[1..])) || (es[0] == Released && FromUp(es[1..]))
  }

  /** Whether the key is down after the events `es`. */
  predicate DownAfter(down: bool, es: seq<Event>) {
    if es == [] then down else es[|es| - 1] != Released
  }

  lemma {:induction false} LemmaAppend(down: bool, es: seq<Event>, e: Event)
    requires if down then FromDown(es) else FromUp(es)
    requires if DownAfter(down, es) then e == Held || e == Released else e == Pressed
    ensures if down then FromDown(es + [e]) else FromUp(es + [e])
    decreases |es|
  {
    if es == [] {
      assert (es + [e])[1..] == [];
    } else {
      assert (es + [e])[1..] == es[1..] + [e];
      LemmaAppend(es[0] != Released, es[1..], e);
    }
  }

  /** Event grammar: every run reports a prefix of (Pressed Held* Released)*, and the key is
      reported down exactly after a Pressed or Held. */
  lemma {:induction false} EventGrammar(p: Timing, tr: seq<Sample>, ev: seq<Event>, n: nat)
    requires Explained(p, tr, ev) && n <= |ev|
    ensures FromUp(Signals(ev, n))
    ensures Down(ev, n) == DownAfter(false, Signals(ev, n))
  {
    if n > 0 {
      EventGrammar(p, tr, ev, n - 1);
      LemmaEventFitsLevel(p, tr, ev, n - 1);
      LemmaDownStep(ev, n - 1);
      if ev[n - 1] != None {
        LemmaAppend(false, Signals(ev, n - 1), ev[n - 1]);
      } else {
        assert Signals(ev, n) == Signals(ev, n - 1);
      }
    }
  }

  lemma LemmaEventFitsLevel(p: Timing, tr: seq<Sample>, ev: seq<Event>, i: nat)
    requires Explained(p, tr, ev) && i < |ev|
    ensures ev[i] != None ==> (ev[i] == Pressed) != Down(ev, i)
  {
    assert ev[i] == Expected(p, tr, ev, i);
  }

  lemma LemmaDownStep(ev: seq<Event>, i: nat)
    requires i < |ev|
    ensures Down(ev, i + 1) == if IsEdge(ev[i]) then ev[i] == Pressed else Down(ev, i)
  {
  }

  // ---- Hold timing -----------------------------------------------------------------------------------

  lemma LemmaHeldExpected(p: Timing, tr: seq<Sample>, ev: seq<Event>, k: nat)
    requires Explained(p, tr, ev) && k < |ev|
    ensures ev[k] == Held <==>
              && tr[k].pressed && Down(ev, k) && LastSignal(ev, k) >= 0 && p.holdMs > 0
              && U32(Deadline(p, tr, ev, k)) != 0
              && U32(Lateness(p, tr, ev, k)) < H32
  {
    assert ev[k] == Expected(p, tr, ev, k);
  }

  lemma LemmaModNegative(x: int)
    requires -H32 <= x < 0
    ensures U32(x) >= H32
  {
  }

  /** While the key is down the last event is a Pressed or a Held. */
  lemma LemmaSignalWhileDown(ev: seq<Event>, k: nat)
    requires k <= |ev| && Down(ev, k)
    ensures LastSignal(ev, k) >= 0 && ev[LastSignal(ev, k)] != Released
  {
    assert ev[LastEdge(ev, k)] == Pressed;
    assert LastSignal(ev, k) >= LastEdge(ev, k);
  }

  /** Each Held comes at least HoldMs of real time after the previous Pressed or Held,
      whatever the gaps between ticks. */
  lemma HeldSpacing(p: Timing, tr: seq<Sample>, ev: seq<Event>, k: nat)
    requires Explained(p, tr, ev) && k < |ev| && ev[k] == Held
    ensures var m := LastSignal(ev, k);
            && m >= 0 && (ev[m] == Pressed || ev[m] == Held)
            && tr[m].t + p.holdMs <= tr[k].t
  {
    LemmaHeldExpected(p, tr, ev, k);
    LemmaSignalWhileDown(ev, k);
    var lateness := Lateness(p, tr, ev, k);
    if lateness < 0 {
      LemmaModNegative(lateness);
    }
  }

  /** The converse: with the key reported and read as down, a tick whose lateness past the
      deadline is below 2^31 ms reports Held, unless the deadline is 0 modulo 2^32. */
  lemma HeldWhenDue(p: Timing, tr: seq<Sample>, ev: seq<Event>, k: nat)
    requires Explained(p, tr, ev) && k < |ev| && p.holdMs > 0
    requires tr[k].pressed && Down(ev, k) && LastSignal(ev, k) >= 0
    requires U32(Deadline(p, tr, ev, k)) != 0 && 0 <= Lateness(p, tr, ev, k) < H32
    ensures ev[k] == Held
  {
    LemmaHeldExpected(p, tr, ev, k);
    LemmaModSmall(Lateness(p, tr, ev, k));
  }

  /** The exception: a deadline of 0 modulo 2^32 means "no hold", and the key then reports
      no Held at all until it is released. */
  lemma {:induction false} ZeroDeadlineSilencesHold(p: Timing, tr: seq<Sample>, ev: seq<Event>, i: nat, k: nat)
    requires Explained(p, tr, ev) && i <= k < |ev|
    requires Down(ev, i) && LastSignal(ev, i) >= 0 && U32(Deadline(p, tr, ev, i)) == 0
    requires forall j | i <= j < k :: ev[j] != Released
    ensures ev[k] != Held
    ensures Down(ev, k) && LastSignal(ev, k) == LastSignal(ev, i)
    decreases k
  {
    if i < k {
      ZeroDeadlineSilencesHold(p, tr, ev, i, k - 1);
      LemmaEdgeExpected(p, tr, ev, k - 1);
    }
    LemmaHeldExpected(p, tr, ev, k);
  }

  /** Two ticks that read a key as pressed and report Pressed just when its Held deadline
      becomes 0 modulo 2^32, and whatever comes after them. */
  function PressedBeforeWrap(p: Timing, rest: seq<Sample>): seq<Sample> {
    [Sample(W32 - p.holdMs - p.debounceMs, true), Sample(W32 - p.holdMs, true)] + rest
  }

  /** The exception is reached for every timing: a key pressed at that moment reports Pressed,
      and then never a Held, however long it is kept down. */
  lemma SilentHoldIsReachable(p: Timing, rest: seq<Sample>)
    requires Chronological(PressedBeforeWrap(p, rest)) && forall i | 0 <= i < |rest| :: rest[i].pressed
    ensures var ev := Events(p, PressedBeforeWrap(p, rest));
            && ev[if p.debounceMs == 0 then 0 else 1] == Pressed
            && forall k | 0 <= k < |ev| :: ev[k] != Held && ev[k] != Released
  {
    var tr := PressedBeforeWrap(p, rest);
    var ev := Events(p, tr);
    EventsExactly(p, tr);
    LemmaPressedBeforeWrap(p, tr, ev);
    forall k | 0 <= k < |ev| ensures ev[k] != Released {
      LemmaEdgeExpected(p, tr, ev, k);
    }
    forall k | 2 <= k < |ev| ensures ev[k] != Held {
      ZeroDeadlineSilencesHold(p, tr, ev, 2, k);
    }
  }

  lemma LemmaPressedBeforeWrap(p: Timing, tr: seq<Sample>, ev: seq<Event>)
    requires Explained(p, tr, ev) && |tr| >= 2 && tr[0].pressed && tr[1].pressed
    requires tr[0].t == W32 - p.holdMs - p.debounceMs && tr[1].t == W32 - p.holdMs
    ensures ev[if p.debounceMs == 0 then 0 else 1] == Pressed && ev[0] != Held && ev[1] != Held
    ensures Down(ev, 2) && LastSignal(ev, 2) >= 0 && U32(Deadline(p, tr, ev, 2)) == 0
  {
    assert ev[0] == Expected(p, tr, ev, 0);
    assert ev[1] == Expected(p, tr, ev, 1);
    LemmaModSmall(p.debounceMs);
  }

  // ---- The class ----------------------------------------------------------------------------------------

  class Button {
    const debounceMs: uint16
    const holdMs: uint16
    var rawState: bool
    var stableState: bool
    var lastChange: uint32
    var holdDeadline: uint32

    /** The samples this button has read, with their real times. */
    ghost var samples: seq<Sample>

    ghost function Parameters(): Timing { Timing(debounceMs, holdMs) }

    ghost function Value(): State
      reads this
    {
      State(rawState, stableState, lastChange, holdDeadline)
    }

    ghost predicate Valid()
      reads this
    {
      Chronological(samples) && Value() == After(Parameters(), samples, |samples|)
    }

    constructor (debounceMs: uint16, holdMs: uint16)
      ensures Valid() && samples == []
      ensures this.debounceMs == debounceMs && this.holdMs == holdMs
    {
      this.debounceMs, this.holdMs := debounceMs, holdMs;
      rawState, stableState := false, false;
      lastChange, holdDeadline := 0, 0;
      samples := [];
    }

    /** `tick`: `pinHigh` is the level read from the active-low pin, `now` the counter. */
    method Tick(now: uint32, pinHigh: bool) returns (e: Event)
      modifies this`rawState, this`stableState, this`lastChange, this`holdDeadline
      ensures Outcome(Value(), e) == Step(Parameters(), old(Value()), now, !pinHigh)
    {
      var rawPressed := !pinHigh;
      if rawPressed != rawState {
        rawState := rawPressed;
        lastChange := now;
      }

      e := None;

      if rawState != stableState {
        if HasElapsed(now, lastChange, debounceMs) {
          stableState := rawState;
          if stableState {
            holdDeadline := U32(now + holdMs);
            e := Pressed;
          } else {
            holdDeadline := 0;
            e := Released;
          }
        }
      } else if stableState && holdMs > 0 && holdDeadline != 0 && TimeReached(now, holdDeadline) {
        holdDeadline := U32(now + holdMs);
        e := Held;
      }
    }

    /** `tick` at real time `t`, with the history of the button kept up to date. */
    method TickAt(now: uint32, pinHigh: bool, ghost t: nat) returns (e: Event)
      requires Valid() && now == U32(t)
      requires samples == [] || samples[|samples| - 1].t <= t
      modifies this
      ensures Valid() && samples == old(samples) + [Sample(t, !pinHigh)]
      ensures e == Events(Parameters(), samples)[|samples| - 1]
    {
      ghost var before := samples;
      e := Tick(now, pinHigh);
      LemmaAfterPrefix(Parameters(), before, Sample(t, !pinHigh), |before|);
      samples := samples + [Sample(t, !pinHigh)];
    }
  }
}
