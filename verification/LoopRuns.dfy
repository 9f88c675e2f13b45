/** Whole runs of the main loop, from the inputs alone: which events each iteration offers to the
    queue, in what order, and how many it dispatches. */
module LoopRuns {
  import opened Events
  import opened Options
  import opened Words
  import opened MainLoop

  datatype Attempt = Attempt(origin: Origin, event: Event)

  /** The events a trace offered to the queue, in order. */
  function Attempts(tr: Trace): seq<Attempt> {
    match tr
    case Start => []
    case Then(before, Offered(origin, e, _)) => Attempts(before) + [Attempt(origin, e)]
    case Then(before, _) => Attempts(before)
  }

  // ---- What the inputs ask for -----------------------------------------------------------------

  predicate IsKey(key: Key) { 0x31 <= key.byte <= 0x34 }

  function ButtonOf(key: Key): EventType
    requires IsKey(key)
  {
    [ButtonS1, ButtonS2, ButtonS3, ButtonS4][key.byte - 0x31]
  }

  function Polled(evs: seq<Event>): seq<Attempt> {
    if evs == [] then [] else Polled(evs[..|evs| - 1]) + [Attempt(Poller, evs[|evs| - 1])]
  }

  function Pressed(keys: seq<Key>): seq<Attempt> {
    if keys == [] then []
    else
      var key := keys[|keys| - 1];
      Pressed(keys[..|keys| - 1]) + if IsKey(key) then [Attempt(UartPress, Event(ButtonOf(key), 0))] else []
  }

  /** The last of `keys` that stands for a button. */
  function LastKey(keys: seq<Key>): (key: Option<Key>)
    ensures key.Some? ==> IsKey(key.value)
  {
    if keys == [] then None
    else if IsKey(keys[|keys| - 1]) then Some(keys[|keys| - 1])
    else LastKey(keys[..|keys| - 1])
  }

  predicate HasKey(input: Input) { LastKey(Typed(input.keys)).Some? }

  /** The last iteration before `n` that reads a key, or -1. */
  function KeyIteration(inputs: seq<Input>, n: nat): (k: int)
    requires n <= |inputs|
    ensures -1 <= k < n
    ensures k >= 0 ==> HasKey(inputs[k])
    ensures forall m | k < m < n :: !HasKey(inputs[m])
  {
    if n == 0 then -1 else if HasKey(inputs[n - 1]) then n - 1 else KeyIteration(inputs, n - 1)
  }

  /** Whether the counter at the release check of iteration `m` is at or past 50 ms after the last
      key of iteration `k`, both as 32-bit values. */
  predicate DueFrom(inputs: seq<Input>, k: nat, m: nat)
    requires k < |inputs| && m < |inputs| && HasKey(inputs[k])
  {
    U32(inputs[m].releaseCheck) >= U32(LastKey(Typed(inputs[k].keys)).value.t + 50)
  }

  /** The last key before iteration `n` has not had its release. */
  predicate Awaited(inputs: seq<Input>, n: nat)
    requires n <= |inputs|
  {
    var k := KeyIteration(inputs, n);
    k >= 0 && forall m | k < m < n :: !DueFrom(inputs, k, m)
  }

  /** Iteration `n` offers a release. */
  predicate ReleasesAt(inputs: seq<Input>, n: nat)
    requires n < |inputs|
  {
    Awaited(inputs, n) && DueFrom(inputs, KeyIteration(inputs, n), n)
  }

  function ReleaseAttempt(inputs: seq<Input>, n: nat): seq<Attempt>
    requires n < |inputs|
  {
    if ReleasesAt(inputs, n) then
      [Attempt(UartRelease, Event(ButtonOf(LastKey(Typed(inputs[KeyIteration(inputs, n)].keys)).value), 2))]
    else []
  }

  /** The interrupts that wait for iteration `n` once its own have arrived, in 16 bits. */
  function Available(inputs: seq<Input>, n: nat): nat
    requires n < |inputs|
    decreases n, 1
  {
    (Left(inputs, n) + inputs[n].interrupts) % 0x1_0000
  }

  /** Those that the first `n` iterations leave: each consumes one if there is one. */
  function Left(inputs: seq<Input>, n: nat): nat
    requires n <= |inputs|
    decreases n, 0
  {
    if n == 0 || Available(inputs, n - 1) == 0 then 0 else Available(inputs, n - 1) - 1
  }

  /** The interrupts consumed by the first `n` iterations. */
  function Used(inputs: seq<Input>, n: nat): nat
    requires n <= |inputs|
  {
    if n == 0 then 0 else Used(inputs, n - 1) + if Available(inputs, n - 1) != 0 then 1 else 0
  }

  function TickAttempt(inputs: seq<Input>, n: nat): seq<Attempt>
    requires n < |inputs|
  {
    if Available(inputs, n) != 0 && Used(inputs, n + 1) % 100 == 0 then [Attempt(Timer, Event(Tick100ms, 0))] else []
  }

  /** All that the first `n` iterations offer: the services' events, the release if it is due, the
      press of every key, the tick if it is the hundredth interrupt. */
  function Asked(inputs: seq<Input>, n: nat): seq<Attempt>
    requires n <= |inputs|
  {
    if n == 0 then []
    else Asked(inputs, n - 1) + Polled(inputs[n - 1].polled) + ReleaseAttempt(inputs, n - 1)
         + Pressed(Typed(inputs[n - 1].keys)) + TickAttempt(inputs, n - 1)
  }

  // ---- The stages --------------------------------------------------------------------------------

  /** Worlds that differ in the queue and the trace only. */
  ghost predicate SameFields(w: World, w': World) {
    w'.pending == w.pending && w'.deadline == w.deadline && w'.tick100 == w.tick100 && w'.interrupts == w.interrupts
  }

  lemma LemmaOffers(w: World, origin: Origin, ev: Event)
    ensures Attempts(Offer(w, origin, ev).trace) == Attempts(w.trace) + [Attempt(origin, ev)]
    ensures SameFields(w, Offer(w, origin, ev))
  {
  }

  lemma {:induction false} LemmaPolled(w: World, evs: seq<Event>)
    ensures Attempts(Poll(w, evs).trace) == Attempts(w.trace) + Polled(evs)
    ensures SameFields(w, Poll(w, evs))
  {
    hide Attempts, Offer;
    if evs != [] {
      LemmaPolled(w, evs[..|evs| - 1]);
      LemmaOffers(Poll(w, evs[..|evs| - 1]), Poller, evs[|evs| - 1]);
    }
  }

  lemma LemmaPressed(w: World, key: Key)
    ensures var w' := Press(w, key);
            if IsKey(key) then
              && Attempts(w'.trace) == Attempts(w.trace) + [Attempt(UartPress, Event(ButtonOf(key), 0))]
              && w'.pending == Some(Event(ButtonOf(key), 2)) && w'.deadline == U32(key.t + 50)
              && w'.tick100 == w.tick100 && w'.interrupts == w.interrupts
            else w' == w
  {
    hide Offer;
    LemmaOffers(w, UartPress, Event(Button(key.byte), 0));
    LemmaDeadline(key.t);
  }

  lemma LemmaDeadline(t: nat)
    ensures U32(U32(t) + 50) == U32(t + 50)
  {
  }

  lemma {:induction false} LemmaAllPressed(w: World, keys: seq<Key>)
    ensures var w' := PressAll(w, keys);
            && Attempts(w'.trace) == Attempts(w.trace) + Pressed(keys)
            && w'.tick100 == w.tick100 && w'.interrupts == w.interrupts
            && match LastKey(keys)
               case None => w'.pending == w.pending && w'.deadline == w.deadline
               case Some(key) => w'.pending == Some(Event(ButtonOf(key), 2)) && w'.deadline == U32(key.t + 50)
  {
    hide Attempts, Press;
    if keys != [] {
      LemmaAllPressed(w, keys[..|keys| - 1]);
      LemmaPressed(PressAll(w, keys[..|keys| - 1]), keys[|keys| - 1]);
    }
  }

  // ---- Every run -------------------------------------------------------------------------------------

  /** The trace and the variables of the loop as the inputs give them. */
  ghost predicate Follows(inputs: seq<Input>, n: nat, w: World)
    requires n <= |inputs|
  {
    && Attempts(w.trace) == Asked(inputs, n)
    && Ticks(w.trace) == Used(inputs, n)
    && w.interrupts == Left(inputs, n) && w.tick100 == Used(inputs, n) % 100
    && PendingFollows(inputs, n, w)
  }

  ghost predicate PendingFollows(inputs: seq<Input>, n: nat, w: World)
    requires n <= |inputs|
  {
    if Awaited(inputs, n) then
      var key := LastKey(Typed(inputs[KeyIteration(inputs, n)].keys)).value;
      w.pending == Some(Event(ButtonOf(key), 2)) && w.deadline == U32(key.t + 50)
    else w.pending == None
  }

  lemma LemmaAwaited(inputs: seq<Input>, n: nat)
    requires n < |inputs|
    ensures Awaited(inputs, n + 1) == (HasKey(inputs[n]) || (Awaited(inputs, n) && !ReleasesAt(inputs, n)))
    ensures KeyIteration(inputs, n + 1) == if HasKey(inputs[n]) then n else KeyIteration(inputs, n)
  {
  }

  lemma LemmaReleased(inputs: seq<Input>, n: nat, w: World)
    requires n < |inputs| && PendingFollows(inputs, n, w)
    ensures var w' := Release(w, inputs[n].releaseCheck);
            && Attempts(w'.trace) == Attempts(w.trace) + ReleaseAttempt(inputs, n)
            && w'.tick100 == w.tick100 && w'.interrupts == w.interrupts && w'.deadline == w.deadline
            && w'.pending == if ReleasesAt(inputs, n) then None else w.pending
  {
    hide Attempts, Offer;
    if w.pending.Some? {
      LemmaOffers(w, UartRelease, w.pending.value);
    }
  }

  lemma LemmaTicked(inputs: seq<Input>, n: nat, w: World)
    requires n < |inputs| && w.interrupts == Left(inputs, n) && w.tick100 == Used(inputs, n) % 100
    ensures var w' := Tick(w, inputs[n].interrupts);
            && Attempts(w'.trace) == Attempts(w.trace) + TickAttempt(inputs, n)
            && w'.pending == w.pending && w'.deadline == w.deadline
            && w'.interrupts == Left(inputs, n + 1) && w'.tick100 == Used(inputs, n + 1) % 100
  {
    hide Offer;
    var consumed := w.(interrupts := Left(inputs, n + 1), tick100 := 0, trace := Then(w.trace, Consumed));
    LemmaOffers(consumed, Timer, Event(Tick100ms, 0));
  }

  lemma LemmaIteration(inputs: seq<Input>, n: nat, w: World)
    requires n < |inputs| && Follows(inputs, n, w) && w.interrupts < 0x1_0000
    ensures Follows(inputs, n + 1, Iteration(w, inputs[n]))
  {
    hide Attempts, Poll, Release, PressAll, Tick, Dispatch, Ticks, Polled, Pressed, ReleaseAttempt, TickAttempt;
    hide Typed, LastKey, Awaited, KeyIteration, ReleasesAt, Presses;
    var input := inputs[n];
    var w1 := Poll(w, input.polled);
    var w2 := Release(w1, input.releaseCheck);
    var w3 := PressAll(w2, Typed(input.keys));
    var w4 := Tick(w3, input.interrupts);
    LemmaPolled(w, input.polled);
    LemmaReleased(inputs, n, w1);
    LemmaAllPressed(w2, Typed(input.keys));
    LemmaTicked(inputs, n, w3);
    LemmaDispatched(w4);
    LemmaIterationCounts(w, input);
    LemmaAwaited(inputs, n);
  }

  lemma LemmaDispatched(w: World)
    ensures Attempts(Dispatch(w).trace) == Attempts(w.trace) && SameFields(w, Dispatch(w))
  {
  }

  /** Every run offers, in order, exactly what its inputs ask for, and consumes as many interrupts. */
  lemma {:induction false} RunsFollowInputs(inputs: seq<Input>, n: nat)
    requires n <= |inputs|
    ensures Follows(inputs, n, Run(inputs, n))
  {
    hide Iteration, Follows;
    if n == 0 {
      LemmaStart(inputs);
    } else {
      RunsFollowInputs(inputs, n - 1);
      PressesAreKeys(inputs, n - 1);
      LemmaIteration(inputs, n - 1, Run(inputs, n - 1));
    }
  }

  lemma LemmaStart(inputs: seq<Input>)
    ensures Follows(inputs, 0, INITIAL)
  {
  }

  /** Iteration `n` offers the services' events, then the release exactly if the last key before it
      has had none and is due, then the presses, then a tick exactly if it consumes an interrupt
      that makes a multiple of 100; and it consumes exactly one interrupt, if any is there. */
  lemma IterationOffers(inputs: seq<Input>, n: nat)
    requires n < |inputs|
    ensures var before, after := Run(inputs, n).trace, Run(inputs, n + 1).trace;
            && Attempts(after) == Attempts(before) + Polled(inputs[n].polled) + ReleaseAttempt(inputs, n)
                                  + Pressed(Typed(inputs[n].keys)) + TickAttempt(inputs, n)
            && Ticks(after) == Ticks(before) + if Available(inputs, n) != 0 then 1 else 0
  {
    hide Run, Attempts, Ticks, Polled, ReleaseAttempt, Pressed, TickAttempt;
    RunsFollowInputs(inputs, n);
    RunsFollowInputs(inputs, n + 1);
  }

  /** Iteration `n` dispatches one event, unless every event accepted by then has been dispatched. */
  lemma OneDispatchEach(inputs: seq<Input>, n: nat)
    requires n < |inputs|
    ensures var before, after := Run(inputs, n).trace, Run(inputs, n + 1).trace;
            |Handled(after)| == |Handled(before)| + if |Handled(before)| < |Accepted(after)| then 1 else 0
  {
    RunsBalance(inputs, n);
    IterationKeepsBalance(Run(inputs, n), inputs[n]);
  }

  // ---- Timing ---------------------------------------------------------------------------------------

  /** Time does not go back: a release check comes after every key read before it. */
  ghost predicate Chronological(inputs: seq<Input>) {
    forall k, n, i | 0 <= k < n < |inputs| && 0 <= i < |inputs[k].keys| ::
      inputs[k].keys[i].t <= inputs[n].releaseCheck
  }

  lemma {:induction false} LemmaLastKeyIn(keys: seq<Key>)
    requires LastKey(keys).Some?
    ensures LastKey(keys).value in keys
  {
    if !IsKey(keys[|keys| - 1]) {
      LemmaLastKeyIn(keys[..|keys| - 1]);
    }
  }

  /** The real time of the last key before an iteration that offers a release. */
  function KeyTime(inputs: seq<Input>, n: nat): nat
    requires n < |inputs| && ReleasesAt(inputs, n)
  {
    LastKey(Typed(inputs[KeyIteration(inputs, n)].keys)).value.t
  }

  /** Every release comes at least 50 ms after its key, or the key came within 50 ms of a wrap. */
  lemma RunsAreTimely(inputs: seq<Input>, n: nat)
    requires Chronological(inputs) && n < |inputs| && ReleasesAt(inputs, n)
    ensures KeyTime(inputs, n) + 50 <= inputs[n].releaseCheck || U32(KeyTime(inputs, n)) >= W32 - 50
  {
    hide LastKey, Typed, Chronological, U32;
    LemmaKeyBefore(inputs, KeyIteration(inputs, n), n);
    LemmaDueLate(KeyTime(inputs, n), inputs[n].releaseCheck);
  }

  lemma LemmaKeyBefore(inputs: seq<Input>, k: nat, n: nat)
    requires Chronological(inputs) && k < n < |inputs| && HasKey(inputs[k])
    ensures LastKey(Typed(inputs[k].keys)).value.t <= inputs[n].releaseCheck
  {
    hide LastKey, Typed;
    var i := LemmaLastKeyRead(inputs[k]);
    assert inputs[k].keys[i].t <= inputs[n].releaseCheck;
  }

  lemma LemmaLastKeyRead(input: Input) returns (i: nat)
    requires HasKey(input)
    ensures i < |input.keys| && input.keys[i] == LastKey(Typed(input.keys)).value
  {
    LemmaLastKeyIn(Typed(input.keys));
    i :| i < |Typed(input.keys)| && Typed(input.keys)[i] == LastKey(Typed(input.keys)).value;
  }

  lemma LemmaDueLate(p: nat, t: nat)
    requires p <= t && U32(t) >= U32(p + 50)
    ensures p + 50 <= t || U32(p) >= W32 - 50
  {
    LemmaDeadline(p);
    if t < p + 50 && U32(p) < W32 - 50 {
      LemmaNoWrap(p, t);
    }
  }
}
