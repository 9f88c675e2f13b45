/** The main loop of the application: poll, turn UART keys into button events with a deferred
    release, divide the timer interrupts, dispatch one event.

    What the drivers and the other services do is an input of each iteration: the events they
    try to push, the bytes the UART has, the interrupts that have arrived, and the real time
    at which the code reads its 32-bit millisecond counter. */
module MainLoop {
  import opened Events
  import opened Options
  import opened Words

  const PRESS_DURATION_MS: nat := 50
  const TICKS_PER_100MS: nat := 100

  /** A byte read from the UART and the real time of the counter reading that follows it. */
  datatype Key = Key(byte: int, t: nat)

  datatype Input = Input(polled: seq<Event>, releaseCheck: nat, keys: seq<Key>, interrupts: nat)

  // ---- What happens, in order ---------------------------------------------------------------

  datatype Origin = Poller | UartPress | UartRelease | Timer

  datatype Entry =
    | Offered(origin: Origin, event: Event, accepted: bool)
    | Scheduled(replaced: bool)
    | Consumed
    | Dispatched(event: Event)

  datatype Trace = Start | Then(before: Trace, last: Entry)

  /** The events that the queue accepted. */
  function Accepted(tr: Trace): seq<Event> {
    match tr
    case Start => []
    case Then(before, Offered(_, e, true)) => Accepted(before) + [e]
    case Then(before, _) => Accepted(before)
  }

  /** The events that were dispatched. */
  function Handled(tr: Trace): seq<Event> {
    match tr
    case Start => []
    case Then(before, Dispatched(e)) => Handled(before) + [e]
    case Then(before, _) => Handled(before)
  }

  /** How often the code tried to push an event of this origin. */
  function Offers(tr: Trace, origin: Origin): nat {
    match tr
    case Start => 0
    case Then(before, Offered(o, _, _)) => Offers(before, origin) + if o == origin then 1 else 0
    case Then(before, _) => Offers(before, origin)
  }

  /** How often a key replaced a release that was still pending. */
  function Replaced(tr: Trace): nat {
    match tr
    case Start => 0
    case Then(before, Scheduled(true)) => Replaced(before) + 1
    case Then(before, _) => Replaced(before)
  }

  /** How many timer interrupts the loop has consumed. */
  function Ticks(tr: Trace): nat {
    match tr
    case Start => 0
    case Then(before, Consumed) => Ticks(before) + 1
    case Then(before, _) => Ticks(before)
  }

  // ---- The loop as a function of its state ----------------------------------------------------

  datatype World = World(queue: seq<Event>, pending: Option<Event>, deadline: uint32, tick100: nat,
                         interrupts: nat, trace: Trace)

  const INITIAL: World := World([], None, 0, 0, 0, Start)

  function Offer(w: World, origin: Origin, ev: Event): World {
    var accepted := |w.queue| < MAX_EVENTS;
    w.(queue := if accepted then w.queue + [ev] else w.queue, trace := Then(w.trace, Offered(origin, ev, accepted)))
  }

  function Poll(w: World, evs: seq<Event>): World {
    if evs == [] then w else Offer(Poll(w, evs[..|evs| - 1]), Poller, evs[|evs| - 1])
  }

  /** The comparison that decides about a release: it does not allow for the counter's wrap. */
  predicate Due(now: uint32, deadline: uint32) { now >= deadline }

  function Release(w: World, t: nat): World {
    if w.pending.Some? && Due(U32(t), w.deadline) then
      Offer(w, UartRelease, w.pending.value).(pending := None)
    else w
  }

  /** The button of a key, if it is one of '1' to '4'. */
  function Button(byte: int): EventType {
    if byte == 0x31 then ButtonS1
    else if byte == 0x32 then ButtonS2
    else if byte == 0x33 then ButtonS3
    else if byte == 0x34 then ButtonS4
    else NoEvent
  }

  function Press(w: World, key: Key): World {
    if Button(key.byte) == NoEvent then w
    else
      var w' := Offer(w, UartPress, Event(Button(key.byte), 0));
      w'.(pending := Some(Event(Button(key.byte), 2)), deadline := U32(U32(key.t) + PRESS_DURATION_MS),
          trace := Then(w'.trace, Scheduled(w.pending.Some?)))
  }

  /** The keys up to the first negative byte, where the loop breaks off. */
  function Typed(keys: seq<Key>): (r: seq<Key>)
    ensures |r| <= |keys| && r == keys[..|r|]
  {
    if keys == [] || keys[0].byte < 0 then [] else [keys[0]] + Typed(keys[1..])
  }

  /** They are the longest stretch of keys without a negative byte. */
  lemma {:induction false} TypedExactly(keys: seq<Key>)
    ensures forall i | 0 <= i < |Typed(keys)| :: keys[i].byte >= 0
    ensures |Typed(keys)| < |keys| ==> keys[|Typed(keys)|].byte < 0
  {
    if keys != [] && keys[0].byte >= 0 {
      TypedExactly(keys[1..]);
    }
  }

  function PressAll(w: World, keys: seq<Key>): World {
    if keys == [] then w else Press(PressAll(w, keys[..|keys| - 1]), keys[|keys| - 1])
  }

  function Tick(w: World, arrived: nat): World {
    var interrupts := (w.interrupts + arrived) % 0x1_0000;
    if interrupts == 0 then w.(interrupts := 0)
    else
      var w' := w.(interrupts := interrupts - 1, tick100 := (w.tick100 + 1) % 0x100, trace := Then(w.trace, Consumed));
      if w'.tick100 >= TICKS_PER_100MS then Offer(w'.(tick100 := 0), Timer, Event(Tick100ms, 0)) else w'
  }

  function Dispatch(w: World): World {
    if w.queue == [] then w else w.(queue := w.queue[1..], trace := Then(w.trace, Dispatched(w.queue[0])))
  }

  function Iteration(w: World, input: Input): World {
    Dispatch(Tick(PressAll(Release(Poll(w, input.polled), input.releaseCheck), Typed(input.keys)), input.interrupts))
  }

  /** The world after the first `n` iterations. */
  function Run(inputs: seq<Input>, n: nat): World
    requires n <= |inputs|
  {
    if n == 0 then INITIAL else Iteration(Run(inputs, n - 1), inputs[n - 1])
  }

  // ---- Conservation --------------------------------------------------------------------------------

  /** The books balance: every accepted event has been dispatched or is in the queue, in order;
      every UART press has had its release attempt, has it pending or lost it to a later key;
      every 100 consumed interrupts have made one tick. */
  ghost predicate Balanced(w: World) {
    && |w.queue| <= MAX_EVENTS
    && Accepted(w.trace) == Handled(w.trace) + w.queue
    && Offers(w.trace, UartPress)
       == Offers(w.trace, UartRelease) + Replaced(w.trace) + (if w.pending.Some? then 1 else 0)
    && Ticks(w.trace) == TICKS_PER_100MS * Offers(w.trace, Timer) + w.tick100
    && w.tick100 < TICKS_PER_100MS
  }

  lemma LemmaOffer(w: World, origin: Origin, ev: Event)
    requires |w.queue| <= MAX_EVENTS && Accepted(w.trace) == Handled(w.trace) + w.queue
    ensures var w' := Offer(w, origin, ev);
            && |w'.queue| <= MAX_EVENTS
            && Accepted(w'.trace) == Handled(w'.trace) + w'.queue
            && Handled(w'.trace) == Handled(w.trace) && Accepted(w.trace) <= Accepted(w'.trace)
            && Replaced(w'.trace) == Replaced(w.trace) && Ticks(w'.trace) == Ticks(w.trace)
            && forall o :: Offers(w'.trace, o) == Offers(w.trace, o) + if o == origin then 1 else 0
  {
    var w' := Offer(w, origin, ev);
    assert w'.trace == Then(w.trace, Offered(origin, ev, |w.queue| < MAX_EVENTS));
  }

  lemma {:induction false} LemmaPoll(w: World, evs: seq<Event>)
    requires Balanced(w)
    ensures Balanced(Poll(w, evs)) && Handled(Poll(w, evs).trace) == Handled(w.trace)
    ensures Accepted(w.trace) <= Accepted(Poll(w, evs).trace)
  {
    if evs != [] {
      LemmaPoll(w, evs[..|evs| - 1]);
      LemmaOffer(Poll(w, evs[..|evs| - 1]), Poller, evs[|evs| - 1]);
    }
  }

  lemma LemmaRelease(w: World, t: nat)
    requires Balanced(w)
    ensures Balanced(Release(w, t)) && Handled(Release(w, t).trace) == Handled(w.trace)
    ensures Accepted(w.trace) <= Accepted(Release(w, t).trace)
  {
    if w.pending.Some? {
      LemmaOffer(w, UartRelease, w.pending.value);
    }
  }

  lemma LemmaPress(w: World, key: Key)
    requires Balanced(w)
    ensures Balanced(Press(w, key)) && Handled(Press(w, key).trace) == Handled(w.trace)
    ensures Accepted(w.trace) <= Accepted(Press(w, key).trace)
  {
    LemmaOffer(w, UartPress, Event(Button(key.byte), 0));
  }

  lemma {:induction false} LemmaPressAll(w: World, keys: seq<Key>)
    requires Balanced(w)
    ensures Balanced(PressAll(w, keys)) && Handled(PressAll(w, keys).trace) == Handled(w.trace)
    ensures Accepted(w.trace) <= Accepted(PressAll(w, keys).trace)
  {
    if keys != [] {
      LemmaPressAll(w, keys[..|keys| - 1]);
      LemmaPress(PressAll(w, keys[..|keys| - 1]), keys[|keys| - 1]);
    }
  }

  lemma LemmaTick(w: World, arrived: nat)
    requires Balanced(w)
    ensures Balanced(Tick(w, arrived)) && Handled(Tick(w, arrived).trace) == Handled(w.trace)
    ensures Accepted(w.trace) <= Accepted(Tick(w, arrived).trace)
  {
    var w' := w.(tick100 := w.tick100 + 1, trace := Then(w.trace, Consumed));
    assert Accepted(w'.trace) == Handled(w'.trace) + w'.queue;
    if w.tick100 + 1 == TICKS_PER_100MS && (w.interrupts + arrived) % 0x1_0000 > 0 {
      LemmaOffer(w'.(tick100 := 0, interrupts := (w.interrupts + arrived) % 0x1_0000 - 1), Timer, Event(Tick100ms, 0));
    }
  }

  lemma LemmaDispatch(w: World)
    requires Balanced(w)
    ensures Balanced(Dispatch(w)) && |Dispatch(w).queue| < MAX_EVENTS
    ensures Accepted(Dispatch(w).trace) == Accepted(w.trace)
    ensures Handled(Dispatch(w).trace) == Handled(w.trace) + if w.queue == [] then [] else [w.queue[0]]
  {
  }

  /** What one iteration keeps, and the progress it makes: it dispatches exactly one event unless
      there is none. */
  lemma IterationKeepsBalance(w: World, input: Input)
    requires Balanced(w)
    ensures Balanced(Iteration(w, input)) && |Iteration(w, input).queue| < MAX_EVENTS
    ensures |Handled(Iteration(w, input).trace)|
         == |Handled(w.trace)| + if |Handled(w.trace)| < |Accepted(Iteration(w, input).trace)| then 1 else 0
    ensures |Handled(Iteration(w, input).trace)| == |Handled(w.trace)| + 1 || Iteration(w, input).queue == []
    ensures Handled(w.trace) <= Handled(Iteration(w, input).trace)
    ensures Accepted(w.trace) <= Accepted(Iteration(w, input).trace)
  {
    var w1 := Poll(w, input.polled);
    var w2 := Release(w1, input.releaseCheck);
    var w3 := PressAll(w2, Typed(input.keys));
    var w4 := Tick(w3, input.interrupts);
    LemmaPoll(w, input.polled);
    LemmaRelease(w1, input.releaseCheck);
    LemmaPressAll(w2, Typed(input.keys));
    LemmaTick(w3, input.interrupts);
    LemmaDispatch(w4);
  }

  /** Conservation over every run. */
  lemma {:induction false} RunsBalance(inputs: seq<Input>, n: nat)
    requires n <= |inputs|
    ensures Balanced(Run(inputs, n)) && |Run(inputs, n).queue| < MAX_EVENTS
    ensures Offers(Run(inputs, n).trace, Timer) == Ticks(Run(inputs, n).trace) / TICKS_PER_100MS
  {
    if n > 0 {
      RunsBalance(inputs, n - 1);
      IterationKeepsBalance(Run(inputs, n - 1), inputs[n - 1]);
    }
  }

  // ---- Latency ----------------------------------------------------------------------------------------

  lemma {:induction false} LemmaProgress(inputs: seq<Input>, n: nat, k: nat)
    requires n + k <= |inputs|
    ensures Accepted(Run(inputs, n).trace) <= Accepted(Run(inputs, n + k).trace)
    ensures |Handled(Run(inputs, n + k).trace)| >= |Handled(Run(inputs, n).trace)| + k
            || |Handled(Run(inputs, n + k).trace)| >= |Accepted(Run(inputs, n).trace)|
    decreases k
  {
    hide Accepted, Handled, Iteration, Balanced;
    if k > 0 {
      assert Run(inputs, n + k) == Iteration(Run(inputs, n + k - 1), inputs[n + k - 1]);
      LemmaProgress(inputs, n, k - 1);
      RunsBalance(inputs, n + k - 1);
      IterationKeepsBalance(Run(inputs, n + k - 1), inputs[n + k - 1]);
    }
  }

  /** Latency: what the queue has accepted by the end of an iteration has been dispatched, in
      order, fifteen iterations later; with its own that makes sixteen pops. */
  lemma DispatchedWithinSixteenPops(inputs: seq<Input>, n: nat)
    requires n + MAX_EVENTS - 1 <= |inputs|
    ensures Accepted(Run(inputs, n).trace) <= Handled(Run(inputs, n + MAX_EVENTS - 1).trace)
  {
    var m := n + MAX_EVENTS - 1;
    RunsBalance(inputs, n);
    RunsBalance(inputs, m);
    LemmaProgress(inputs, n, MAX_EVENTS - 1);
  }

  // ---- Every entry of the trace --------------------------------------------------------------------------

  /** The button of the last UART press. */
  function LastPressed(tr: Trace): EventType {
    match tr
    case Start => NoEvent
    case Then(before, Offered(UartPress, e, _)) => e.kind
    case Then(before, _) => LastPressed(before)
  }

  /** What may be offered, given what happened before. */
  ghost predicate Offerable(before: Trace, origin: Origin, e: Event) {
    match origin
    case Poller => true
    case UartPress => IsButton(e.kind) && e.value == 0
    case UartRelease => IsButton(e.kind) && e == Event(LastPressed(before), 2)
    case Timer => e == Event(Tick100ms, 0) && Ticks(before) > 0 && Ticks(before) % TICKS_PER_100MS == 0
  }

  /** An event is accepted exactly if fewer than 16 accepted ones wait, the oldest of those is
      the one dispatched next, a release is for the button pressed last, and a tick comes with
      every hundredth interrupt. */
  ghost predicate Legal(tr: Trace) {
    match tr
    case Start => true
    case Then(before, last) =>
      && Legal(before)
      && match last
         case Offered(origin, e, accepted) =>
           && (accepted <==> |Accepted(before)| < |Handled(before)| + MAX_EVENTS)
           && Offerable(before, origin, e)
         case Dispatched(e) =>
           |Handled(before)| < |Accepted(before)| && e == Accepted(before)[|Handled(before)|]
         case _ => true
  }

  ghost predicate LegalWorld(w: World) {
    && Balanced(w) && Legal(w.trace)
    && (w.pending.Some? ==> IsButton(LastPressed(w.trace)) && w.pending.value == Event(LastPressed(w.trace), 2))
  }

  lemma LemmaOfferLegal(w: World, origin: Origin, ev: Event)
    requires |w.queue| <= MAX_EVENTS && Accepted(w.trace) == Handled(w.trace) + w.queue
    requires Legal(w.trace) && Offerable(w.trace, origin, ev)
    ensures Legal(Offer(w, origin, ev).trace)
    ensures LastPressed(Offer(w, origin, ev).trace) == if origin == UartPress then ev.kind else LastPressed(w.trace)
  {
    assert Offer(w, origin, ev).trace == Then(w.trace, Offered(origin, ev, |w.queue| < MAX_EVENTS));
  }

  lemma {:induction false} LemmaPollLegal(w: World, evs: seq<Event>)
    requires LegalWorld(w)
    ensures LegalWorld(Poll(w, evs))
  {
    LemmaPoll(w, evs);
    if evs != [] {
      var w' := Poll(w, evs[..|evs| - 1]);
      LemmaPollLegal(w, evs[..|evs| - 1]);
      LemmaOfferLegal(w', Poller, evs[|evs| - 1]);
    }
  }

  lemma LemmaReleaseLegal(w: World, t: nat)
    requires LegalWorld(w)
    ensures LegalWorld(Release(w, t))
  {
    LemmaRelease(w, t);
    if w.pending.Some? {
      LemmaOfferLegal(w, UartRelease, w.pending.value);
    }
  }

  lemma LemmaPressLegal(w: World, key: Key)
    requires LegalWorld(w)
    ensures LegalWorld(Press(w, key))
  {
    LemmaPress(w, key);
    if Button(key.byte) != NoEvent {
      LemmaOfferLegal(w, UartPress, Event(Button(key.byte), 0));
    }
  }

  lemma {:induction false} LemmaPressAllLegal(w: World, keys: seq<Key>)
    requires LegalWorld(w)
    ensures LegalWorld(PressAll(w, keys))
  {
    if keys != [] {
      LemmaPressAllLegal(w, keys[..|keys| - 1]);
      LemmaPressLegal(PressAll(w, keys[..|keys| - 1]), keys[|keys| - 1]);
    }
  }

  lemma LemmaTickLegal(w: World, arrived: nat)
    requires LegalWorld(w)
    ensures LegalWorld(Tick(w, arrived))
  {
    LemmaTick(w, arrived);
    var interrupts := (w.interrupts + arrived) % 0x1_0000;
    if interrupts > 0 && w.tick100 + 1 == TICKS_PER_100MS {
      var w' := w.(tick100 := 0, interrupts := interrupts - 1, trace := Then(w.trace, Consumed));
      LemmaConsumed(w);
      LemmaOfferLegal(w', Timer, Event(Tick100ms, 0));
    }
  }

  lemma LemmaConsumed(w: World)
    requires LegalWorld(w)
    ensures var tr := Then(w.trace, Consumed);
            && Legal(tr) && Accepted(tr) == Handled(tr) + w.queue && LastPressed(tr) == LastPressed(w.trace)
            && (w.tick100 + 1 == TICKS_PER_100MS ==> Ticks(tr) > 0 && Ticks(tr) % TICKS_PER_100MS == 0)
  {
    var tr := Then(w.trace, Consumed);
    assert Ticks(tr) == Ticks(w.trace) + 1;
    if w.tick100 + 1 == TICKS_PER_100MS {
      assert Ticks(tr) == TICKS_PER_100MS * (Offers(w.trace, Timer) + 1);
    }
  }

  lemma LemmaDispatchLegal(w: World)
    requires LegalWorld(w)
    ensures LegalWorld(Dispatch(w))
  {
    LemmaDispatch(w);
    if w.queue != [] {
      assert Accepted(w.trace)[|Handled(w.trace)|] == w.queue[0];
    }
  }

  /** Every entry of every run is legal. */
  lemma {:induction false} RunsAreLegal(inputs: seq<Input>, n: nat)
    requires n <= |inputs|
    ensures Legal(Run(inputs, n).trace) && LegalWorld(Run(inputs, n))
  {
    if n > 0 {
      RunsAreLegal(inputs, n - 1);
      var w, input := Run(inputs, n - 1), inputs[n - 1];
      var w1 := Poll(w, input.polled);
      var w2 := Release(w1, input.releaseCheck);
      var w3 := PressAll(w2, Typed(input.keys));
      LemmaPollLegal(w, input.polled);
      LemmaReleaseLegal(w1, input.releaseCheck);
      LemmaPressAllLegal(w2, Typed(input.keys));
      LemmaTickLegal(w3, input.interrupts);
      LemmaDispatchLegal(Tick(w3, input.interrupts));
    }
  }

  // ---- Keys and interrupts over a run --------------------------------------------------------------------

  /** The buttons of the UART presses, in the order of the attempts. */
  function Presses(tr: Trace): seq<EventType> {
    match tr
    case Start => []
    case Then(before, Offered(UartPress, e, _)) => Presses(before) + [e.kind]
    case Then(before, _) => Presses(before)
  }

  /** The buttons that the keys '1' to '4' among `keys` stand for. */
  function Buttons(keys: seq<Key>): seq<EventType> {
    if keys == [] then []
    else Buttons(keys[..|keys| - 1])
         + if 0x31 <= keys[|keys| - 1].byte <= 0x34
           then [[ButtonS1, ButtonS2, ButtonS3, ButtonS4][keys[|keys| - 1].byte - 0x31]] else []
  }

  ghost function ButtonsTyped(inputs: seq<Input>, n: nat): seq<EventType>
    requires n <= |inputs|
  {
    if n == 0 then [] else ButtonsTyped(inputs, n - 1) + Buttons(Typed(inputs[n - 1].keys))
  }

  ghost function Arrived(inputs: seq<Input>, n: nat): nat
    requires n <= |inputs|
  {
    if n == 0 then 0 else Arrived(inputs, n - 1) + inputs[n - 1].interrupts
  }

  lemma {:induction false} LemmaPollPresses(w: World, evs: seq<Event>)
    ensures Presses(Poll(w, evs).trace) == Presses(w.trace) && Ticks(Poll(w, evs).trace) == Ticks(w.trace)
    ensures Poll(w, evs).interrupts == w.interrupts
  {
    if evs != [] {
      LemmaPollPresses(w, evs[..|evs| - 1]);
    }
  }

  lemma {:induction false} LemmaPressAllPresses(w: World, keys: seq<Key>)
    ensures Presses(PressAll(w, keys).trace) == Presses(w.trace) + Buttons(keys)
    ensures Ticks(PressAll(w, keys).trace) == Ticks(w.trace) && PressAll(w, keys).interrupts == w.interrupts
  {
    if keys != [] {
      LemmaPressAllPresses(w, keys[..|keys| - 1]);
    }
  }

  lemma LemmaReleaseCounts(w: World, t: nat)
    ensures Presses(Release(w, t).trace) == Presses(w.trace) && Ticks(Release(w, t).trace) == Ticks(w.trace)
    ensures Release(w, t).interrupts == w.interrupts
  {
    if w.pending.Some? && Due(U32(t), w.deadline) {
      var tr := Offer(w, UartRelease, w.pending.value).trace;
      assert Presses(tr) == Presses(w.trace) && Ticks(tr) == Ticks(w.trace);
      assert Release(w, t).trace == tr;
    }
  }

  lemma LemmaTickCount(w: World, arrived: nat)
    requires w.interrupts < 0x1_0000
    ensures var w' := Tick(w, arrived);
            && Presses(w'.trace) == Presses(w.trace)
            && w'.interrupts < 0x1_0000
            && Ticks(w'.trace) + w'.interrupts == Ticks(w.trace) + (w.interrupts + arrived) % 0x1_0000
  {
  }

  /** The UART presses of a run are the keys typed, in order. */
  lemma {:induction false} PressesAreKeys(inputs: seq<Input>, n: nat)
    requires n <= |inputs|
    ensures Presses(Run(inputs, n).trace) == ButtonsTyped(inputs, n)
    ensures Run(inputs, n).interrupts < 0x1_0000
  {
    hide Iteration, Presses, Ticks;
    LemmaInitialCounts();
    if n > 0 {
      PressesAreKeys(inputs, n - 1);
      LemmaIterationCounts(Run(inputs, n - 1), inputs[n - 1]);
    }
  }

  /** Interrupts consumed and interrupts waiting. */
  ghost function Counted(w: World): nat { Ticks(w.trace) + w.interrupts }

  /** They are the interrupts that arrived, less whole wraps of their 16-bit counter. */
  lemma {:induction false} InterruptsLostInWholeWraps(inputs: seq<Input>, n: nat)
    requires n <= |inputs|
    ensures Counted(Run(inputs, n)) <= Arrived(inputs, n)
    ensures (Arrived(inputs, n) - Counted(Run(inputs, n))) % 0x1_0000 == 0
  {
    hide Iteration, Presses, Ticks;
    LemmaInitialCounts();
    if n > 0 {
      var w := Run(inputs, n - 1);
      InterruptsLostInWholeWraps(inputs, n - 1);
      PressesAreKeys(inputs, n - 1);
      LemmaIterationCounts(w, inputs[n - 1]);
      LemmaWraps(Arrived(inputs, n - 1), Ticks(w.trace), w.interrupts, inputs[n - 1].interrupts);
    }
  }

  lemma LemmaInitialCounts()
    ensures Presses(INITIAL.trace) == [] && Ticks(INITIAL.trace) == 0
  {
  }

  lemma LemmaIterationCounts(w: World, input: Input)
    requires w.interrupts < 0x1_0000
    ensures var w' := Iteration(w, input);
            && Presses(w'.trace) == Presses(w.trace) + Buttons(Typed(input.keys))
            && w'.interrupts < 0x1_0000
            && Ticks(w'.trace) + w'.interrupts == Ticks(w.trace) + (w.interrupts + input.interrupts) % 0x1_0000
  {
    var w1 := Poll(w, input.polled);
    var w2 := Release(w1, input.releaseCheck);
    var w3 := PressAll(w2, Typed(input.keys));
    LemmaPollPresses(w, input.polled);
    LemmaReleaseCounts(w1, input.releaseCheck);
    LemmaPressAllPresses(w2, Typed(input.keys));
    LemmaTickCount(w3, input.interrupts);
  }

  lemma LemmaWraps(total: nat, ticks: nat, waiting: nat, arrived: nat)
    requires ticks + waiting <= total && (total - ticks - waiting) % 0x1_0000 == 0
    ensures ticks + (waiting + arrived) % 0x1_0000 <= total + arrived
    ensures (total + arrived - ticks - (waiting + arrived) % 0x1_0000) % 0x1_0000 == 0
  {
    var x := waiting + arrived;
    assert x == 0x1_0000 * (x / 0x1_0000) + x % 0x1_0000;
    assert total + arrived - ticks - x % 0x1_0000 == (total - ticks - waiting) + 0x1_0000 * (x / 0x1_0000);
  }

  // ---- Timing of the deferred release -------------------------------------------------------------------

  /** The 50 ms are kept exactly when the counter is not about to wrap at the key press. */
  lemma DelayKeptExactly(p: nat)
    ensures (forall t: nat | p <= t < p + PRESS_DURATION_MS :: !Due(U32(t), U32(U32(p) + PRESS_DURATION_MS)))
            <==> U32(p) < W32 - PRESS_DURATION_MS
  {
    if U32(p) < W32 - PRESS_DURATION_MS {
      forall t: nat | p <= t < p + PRESS_DURATION_MS ensures !Due(U32(t), U32(U32(p) + PRESS_DURATION_MS)) {
        LemmaNoWrap(p, t);
      }
    } else {
      assert Due(U32(p), U32(U32(p) + PRESS_DURATION_MS));
    }
  }

  lemma LemmaNoWrap(p: nat, t: nat)
    requires p <= t < p + PRESS_DURATION_MS && U32(p) < W32 - PRESS_DURATION_MS
    ensures !Due(U32(t), U32(U32(p) + PRESS_DURATION_MS))
  {
    LemmaFits(U32(p) + PRESS_DURATION_MS);
    assert U32(t) == U32(p) + (t - p);
  }

  /** Once the delay is over, the release stays due exactly until the counter next wraps, or for
      ever if its deadline is 0: a wrap hides it until the counter is past the deadline again. */
  lemma DueAfterDelayExactly(p: nat, t: nat)
    requires p + PRESS_DURATION_MS <= t
    ensures (forall u: nat | p + PRESS_DURATION_MS <= u <= t :: Due(U32(u), U32(U32(p) + PRESS_DURATION_MS)))
            <==> (p + PRESS_DURATION_MS) / W32 == t / W32 || U32(p + PRESS_DURATION_MS) == 0
  {
    var deadline := p + PRESS_DURATION_MS;
    assert U32(U32(p) + PRESS_DURATION_MS) == U32(deadline);
    if deadline / W32 != t / W32 && U32(deadline) != 0 {
      var wrap := (deadline / W32 + 1) * W32;
      assert deadline <= wrap <= t;
      assert !Due(U32(wrap), U32(deadline));
    }
  }

  // ---- The loop itself ------------------------------------------------------------------------------------

  class App {
    const queue: EventQueue
    /** TIM17's count of interrupts not yet consumed. */
    var interrupts: uint16
    // The static variables of `app_loop`.
    var pendingRelease: Option<Event>
    var releaseDeadline: uint32
    var tick100: uint8

    ghost var trace: Trace

    ghost predicate Valid()
      reads this, queue
    {
      queue.Valid()
    }

    ghost function Value(): World
      requires Valid()
      reads this, queue, queue.slots
    {
      World(queue.Contents(), pendingRelease, releaseDeadline, tick100, interrupts, trace)
    }

    constructor ()
      ensures Valid() && fresh(queue) && fresh(queue.slots) && Value() == INITIAL
    {
      queue := new EventQueue();
      interrupts, pendingRelease, releaseDeadline, tick100, trace := 0, None, 0, 0, Start;
    }

    method Push(origin: Origin, ev: Event)
      requires Valid()
      modifies this`trace, queue, queue.slots
      ensures Valid() && Value() == Offer(old(Value()), origin, ev)
    {
      var accepted := queue.Push(ev);
      trace := Then(trace, Offered(origin, ev, accepted));
    }

    /** One call of `app_loop`. */
    method AppLoop(input: Input)
      requires Valid()
      modifies this, queue, queue.slots
      ensures Valid() && Value() == Iteration(old(Value()), input)
    {
      PollServices(input.polled);
      FinishRelease(input.releaseCheck);
      ReadKeys(input.keys);
      CountTicks(input.interrupts);
      DispatchOne();
    }

    /** The services push whatever events they have. */
    method PollServices(evs: seq<Event>)
      requires Valid()
      modifies this`trace, queue, queue.slots
      ensures Valid() && Value() == Poll(old(Value()), evs)
    {
      assert evs[..0] == [];
      for i := 0 to |evs|
        invariant Valid() && Value() == Poll(old(Value()), evs[..i])
      {
        assert evs[..i + 1][..i] == evs[..i];
        Push(Poller, evs[i]);
      }
      assert evs[..|evs|] == evs;
    }

    method FinishRelease(t: nat)
      requires Valid()
      modifies this, queue, queue.slots
      ensures Valid() && Value() == Release(old(Value()), t)
    {
      if pendingRelease.Some? && U32(t) >= releaseDeadline {
        Push(UartRelease, pendingRelease.value);
        pendingRelease := None;
      }
    }

    /** Drains the UART. */
    method ReadKeys(keys: seq<Key>)
      requires Valid()
      modifies this, queue, queue.slots
      ensures Valid() && Value() == PressAll(old(Value()), Typed(keys))
    {
      var i := 0;
      while i < |keys|
        invariant 0 <= i <= |Typed(keys)| && Valid()
        invariant Value() == PressAll(old(Value()), Typed(keys)[..i])
      {
        LemmaTyped(keys, i);
        var key := keys[i];
        if key.byte < 0 {
          break;
        }
        assert Typed(keys)[..i + 1][..i] == Typed(keys)[..i];
        i := i + 1;
        ghost var before := Value();
        assert PressAll(old(Value()), Typed(keys)[..i]) == Press(before, key);
        var button: EventType;
        match key.byte {
          case 0x31 => button := ButtonS1;
          case 0x32 => button := ButtonS2;
          case 0x33 => button := ButtonS3;
          case 0x34 => button := ButtonS4;
          case _ => continue;
        }

        Push(UartPress, Event(button, 0));
        ghost var replaced := pendingRelease.Some?;
        pendingRelease := Some(Event(button, 2));
        releaseDeadline := U32(U32(key.t) + PRESS_DURATION_MS);
        trace := Then(trace, Scheduled(replaced));
      }
      assert Typed(keys)[..i] == Typed(keys);
    }

    method CountTicks(arrived: nat)
      requires Valid()
      modifies this, queue, queue.slots
      ensures Valid() && Value() == Tick(old(Value()), arrived)
    {
      interrupts := (interrupts + arrived) % 0x1_0000;
      if interrupts != 0 {
        interrupts := interrupts - 1;
        trace := Then(trace, Consumed);
        tick100 := (tick100 + 1) % 0x100;
        if tick100 >= TICKS_PER_100MS {
          tick100 := 0;
          Push(Timer, Event(Tick100ms, 0));
        }
      }
    }

    method DispatchOne()
      requires Valid()
      modifies this`trace, queue
      ensures Valid() && Value() == Dispatch(old(Value()))
    {
      var e := queue.Pop();
      if e.Some? {
        trace := Then(trace, Dispatched(e.value));
      }
    }
  }

  lemma {:induction false} LemmaTyped(keys: seq<Key>, i: nat)
    requires i < |keys| && i <= |Typed(keys)|
    ensures i < |Typed(keys)| <==> keys[i].byte >= 0
    ensures i < |Typed(keys)| ==> Typed(keys)[i] == keys[i]
  {
    if i > 0 {
      LemmaTyped(keys[1..], i - 1);
    }
  }
}
