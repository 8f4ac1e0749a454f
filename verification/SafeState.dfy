/**
 Whole runs of a data session: opens, closes, bus cycles with arbitrary datagrams, and cycles that
 missed the lock. The safe state and the watchdog, where the outputs come from, and send order.
 */
module SafeState {
  import opened Basics
  import opened Frame
  import opened DataSession

  datatype Step =
    | Opening(id: Option<U64>)   // ecat_data_open with a parsed endpoint
    | RefusedOpening             // ecat_data_open with a bad endpoint: nothing changes
    | Closing
    | LockMissed                 // a bus cycle that found the lock taken
    | BusCycle(queue: seq<Datagram>)

  /**
   A session with its true quiet count: the lock-holding cycles since the later of the open and the
   last accepted frame, and the watchdog trips at that moment.
   */
  datatype History = History(v: View, quietCycles: nat, tripsBefore: nat)

  function Advance(c: Config, h: History, step: Step): History {
    match step
    case RefusedOpening => h
    case LockMissed => h
    case Opening(id) => History(Open(h.v, id), 0, h.v.watchdogTrips)
    case Closing => History(Close(h.v), 0, h.v.watchdogTrips)
    case BusCycle(queue) =>
      var w := Cycle(c, h.v, queue);
      if !h.v.open then h.(v := w)
      else if w.framesRx > h.v.framesRx then History(w, 0, w.watchdogTrips)
      else h.(v := w, quietCycles := h.quietCycles + 1)
  }

  function Run(c: Config, steps: seq<Step>): History {
    if steps == [] then History(View(false, 0, false, 0, 0, false, Zeros(c.outBytes), 0, 0, 0), 0, 0)
    else Advance(c, Run(c, steps[..|steps| - 1]), steps[|steps| - 1])
  }

  // ---------------------------------------------------------------------------------------------
  // The safe state and the watchdog
  // ---------------------------------------------------------------------------------------------

  predicate WellZeroed(c: Config, v: View) {
    |v.region| == c.outBytes && (v.zeroed ==> v.region == Zeros(c.outBytes))
  }

  /** What arrivals may change between views v and w. */
  predicate OnlyArrivals(v: View, w: View) {
    && w.open == v.open && w.session == v.session && w.watchdogTrips == v.watchdogTrips
    && w.framesRx >= v.framesRx
    && (if w.framesRx == v.framesRx then w == v.(framesDropped := w.framesDropped) else w.quiet == 0)
  }

  lemma ArriveFacts(c: Config, v: View, d: Datagram)
    requires WellZeroed(c, v)
    ensures var w := Arrive(c, v, d);
            && WellZeroed(c, w) && OnlyArrivals(v, w)
            && w.framesRx + w.framesDropped == v.framesRx + v.framesDropped + 1
  {
  }

  /** Every datagram is counted exactly once, as accepted or as dropped. */
  lemma {:induction false} ArriveAllFacts(c: Config, v: View, queue: seq<Datagram>)
    requires WellZeroed(c, v)
    ensures var w := ArriveAll(c, v, queue);
            && WellZeroed(c, w) && OnlyArrivals(v, w)
            && w.framesRx + w.framesDropped == v.framesRx + v.framesDropped + |queue|
  {
    if queue != [] {
      var before := queue[..|queue| - 1];
      ArriveAllFacts(c, v, before);
      ArriveFacts(c, ArriveAll(c, v, before), queue[|queue| - 1]);
    }
  }

  predicate Safe(c: Config, h: History) {
    && WellZeroed(c, h.v)
    && h.tripsBefore <= h.v.watchdogTrips <= h.tripsBefore + 1
    && (h.quietCycles <= TimeoutCycles(c) ==> h.v.watchdogTrips == h.tripsBefore)
    && (h.v.open ==> h.v.quiet == h.quietCycles % 0x1_0000_0000)
    && (h.v.open && h.quietCycles > TimeoutCycles(c) ==> h.v.zeroed)
    && (!h.v.open ==> h.quietCycles == 0)
  }

  lemma NextWraps(n: nat)
    ensures (n + 1) % 0x1_0000_0000 == (n % 0x1_0000_0000 + 1) % 0x1_0000_0000
    ensures n <= 100_000 ==> (n + 1) % 0x1_0000_0000 == n + 1
  {
  }

  lemma QuietKeepsSafe(c: Config, h: History, dropped: nat)
    requires Safe(c, h) && h.v.open
    ensures Safe(c, History(QuietCycle(c, h.v.(framesDropped := dropped)), h.quietCycles + 1, h.tripsBefore))
  {
    NextWraps(h.quietCycles);
  }

  lemma SafeKept(c: Config, h: History, step: Step)
    requires Safe(c, h)
    ensures Safe(c, Advance(c, h, step))
  {
    if step.BusCycle? && h.v.open {
      ArriveAllFacts(c, h.v, step.queue);
      var w := ArriveAll(c, h.v, step.queue);
      if w.framesRx == h.v.framesRx { QuietKeepsSafe(c, h, w.framesDropped); }
    }
  }

  /**
   The safe state over every run. A session that says its outputs are zeroed has an all-zero region.
   An open session is zeroed once more than `timeout_cycles` lock-holding cycles have passed since
   the later of the open and the last accepted frame, however often the 32-bit count has wrapped.
   The watchdog never trips before that, and at most once in that time.
   */
  lemma {:induction false} SafeAlways(c: Config, steps: seq<Step>)
    ensures Safe(c, Run(c, steps))
  {
    if steps != [] {
      SafeAlways(c, steps[..|steps| - 1]);
      SafeKept(c, Run(c, steps[..|steps| - 1]), steps[|steps| - 1]);
    }
  }

  /** Everything but an open that succeeds. */
  predicate StaysClosed(step: Step) {
    step.Opening? ==> step.id.None?
  }

  predicate HasCycle(steps: seq<Step>) {
    exists k | 0 <= k < |steps| :: steps[k].BusCycle?
  }

  /** A session closed in view `was`, before or after the first cycle that got the lock. */
  predicate ClosedSince(c: Config, was: View, v: View, cycled: bool) {
    && !v.open && v.session == 0 && !v.rxSeen
    && v.framesRx == was.framesRx && v.framesDropped == was.framesDropped && v.watchdogTrips == was.watchdogTrips
    && v.region == if cycled then Zeros(c.outBytes) else was.region
  }

  lemma ClosedStep(c: Config, was: View, h: History, step: Step, cycled: bool)
    requires Safe(c, h) && ClosedSince(c, was, h.v, cycled) && StaysClosed(step)
    ensures ClosedSince(c, was, Advance(c, h, step).v, cycled || step.BusCycle?)
  {
  }

  /**
   A close, and an open that fails, close the session. Until the next open that succeeds nothing is
   received: no datagram is counted or applied and the watchdog does not trip. The outputs stay as
   they were until the first cycle that gets the lock, and are zero from then on.
   */
  lemma {:induction false} ClosedGoesSafe(c: Config, before: seq<Step>, closing: Step, after: seq<Step>)
    requires closing == Closing || closing == Opening(None)
    requires forall k | 0 <= k < |after| :: StaysClosed(after[k])
    ensures ClosedSince(c, Run(c, before).v, Run(c, before + [closing] + after).v, HasCycle(after))
    decreases |after|
  {
    var start := before + [closing];
    if after == [] {
      assert start + after == start;
      RunNext(c, before, closing);
    } else {
      var sofar, last := after[..|after| - 1], after[|after| - 1];
      assert start + after == start + sofar + [last];
      ClosedGoesSafe(c, before, closing, sofar);
      RunNext(c, start + sofar, last);
      SafeAlways(c, start + sofar);
      ClosedStep(c, Run(c, before).v, Run(c, start + sofar), last, HasCycle(sofar));
      HasCycleNext(sofar, last);
      assert sofar + [last] == after;
    }
  }

  lemma HasCycleNext(steps: seq<Step>, last: Step)
    ensures HasCycle(steps + [last]) <==> HasCycle(steps) || last.BusCycle?
  {
    var all := steps + [last];
    if last.BusCycle? { assert all[|steps|].BusCycle?; }
    if k :| 0 <= k < |steps| && steps[k].BusCycle? { assert all[k].BusCycle?; }
  }

  lemma RunNext(c: Config, steps: seq<Step>, step: Step)
    ensures Run(c, steps + [step]) == Advance(c, Run(c, steps), step)
  {
    assert (steps + [step])[..|steps|] == steps;
  }

  // ---------------------------------------------------------------------------------------------
  // Where the outputs come from
  // ---------------------------------------------------------------------------------------------

  /** Datagram k of a drain that began in view v was accepted, and its valid payload is `region`. */
  predicate Supplied(c: Config, v: View, queue: seq<Datagram>, k: nat, region: seq<Byte>) {
    && k < |queue|
    && Acceptable(c, ArriveAll(c, v, queue[..k]), queue[k])
    && IsValid(queue[k]) && Payload(queue[k]) == region
  }

  lemma {:induction false} DrainOrigin(c: Config, v: View, queue: seq<Datagram>)
    ensures var region := ArriveAll(c, v, queue).region;
            region == v.region || region == Zeros(c.outBytes)
            || exists k: nat :: Supplied(c, v, queue, k, region)
  {
    if queue != [] {
      var last := |queue| - 1;
      var before := queue[..last];
      DrainOrigin(c, v, before);
      var w, region := ArriveAll(c, v, before), ArriveAll(c, v, queue).region;
      if Acceptable(c, w, queue[last]) {
        if IsValid(queue[last]) { assert Supplied(c, v, queue, last, region); }
      } else if k: nat :| Supplied(c, v, before, k, region) {
        assert before[..k] == queue[..k];
        assert Supplied(c, v, queue, k, region);
      }
    }
  }

  predicate SuppliedInRun(c: Config, steps: seq<Step>, i: nat, k: nat, region: seq<Byte>) {
    && i < |steps| && steps[i].BusCycle?
    && Run(c, steps[..i]).v.open
    && Supplied(c, Run(c, steps[..i]).v, steps[i].queue, k, region)
  }

  /** The output region is always zero or the payload of a VALID frame accepted earlier in the run. */
  lemma {:induction false} RegionOrigin(c: Config, steps: seq<Step>)
    ensures var region := Run(c, steps).v.region;
            region == Zeros(c.outBytes) || exists i: nat, k: nat :: SuppliedInRun(c, steps, i, k, region)
  {
    if steps != [] {
      var before, step := steps[..|steps| - 1], steps[|steps| - 1];
      var v, region := Run(c, before).v, Run(c, steps).v.region;
      RegionOrigin(c, before);
      StepOrigin(c, Run(c, before), step);
      if region == v.region {
        if i: nat, k: nat :| SuppliedInRun(c, before, i, k, region) {
          assert before[..i] == steps[..i];
          assert SuppliedInRun(c, steps, i, k, region);
        }
      } else if k: nat :| step.BusCycle? && v.open && Supplied(c, v, step.queue, k, region) {
        assert SuppliedInRun(c, steps, |before|, k, region);
      }
    }
  }

  lemma StepOrigin(c: Config, h: History, step: Step)
    ensures var region := Advance(c, h, step).v.region;
            region == h.v.region || region == Zeros(c.outBytes)
            || exists k: nat :: step.BusCycle? && h.v.open && Supplied(c, h.v, step.queue, k, region)
  {
    if step.BusCycle? { DrainOrigin(c, h.v, step.queue); }
  }

  // ---------------------------------------------------------------------------------------------
  // Send order
  // ---------------------------------------------------------------------------------------------

  /** A frame of the client: its sequence number is its index, wrapped. */
  datatype Outgoing = Outgoing(payload: seq<Byte>, flags: Byte)

  /** A datagram in the queue: a frame of the client, or any other whose bytes or sender are not the session's. */
  datatype Arrival = FromClient(index: nat) | Stray(d: Datagram)

  /** What may happen between the open and the next open or close. */
  datatype SessionStep = Cycled(arrivals: seq<Arrival>) | Missed | Refused

  predicate Sendable(c: Config, sent: seq<Outgoing>) {
    c.outBytes <= MAX_PAYLOAD && forall i | 0 <= i < |sent| :: |sent[i].payload| == c.outBytes
  }

  predicate Genuine(c: Config, id: U64, sent: seq<Outgoing>, a: Arrival) {
    if a.FromClient? then a.index < |sent| else !OutputBytes(c, id, a.d)
  }

  predicate AllGenuine(c: Config, id: U64, sent: seq<Outgoing>, arrivals: seq<Arrival>) {
    forall k | 0 <= k < |arrivals| :: Genuine(c, id, sent, arrivals[k])
  }

  function DatagramOf(c: Config, id: U64, sent: seq<Outgoing>, a: Arrival): Datagram
    requires Sendable(c, sent) && Genuine(c, id, sent, a)
  {
    if a.Stray? then a.d else FlaggedFrame(c, id, SeqOf(a.index), sent[a.index].flags, sent[a.index].payload)
  }

  function QueueOf(c: Config, id: U64, sent: seq<Outgoing>, arrivals: seq<Arrival>): (q: seq<Datagram>)
    requires Sendable(c, sent) && AllGenuine(c, id, sent, arrivals)
    ensures |q| == |arrivals|
  {
    seq(|arrivals|, k requires 0 <= k < |arrivals| => DatagramOf(c, id, sent, arrivals[k]))
  }

  /** Sent after the last frame taken, if any was. */
  predicate Later(i: nat, last: Option<nat>) {
    last.None? || i > last.value
  }

  /** The frames that unbounded sequence numbers would let through, in order of arrival. */
  function Taken(order: seq<nat>): seq<nat> {
    if order == [] then []
    else
      var before := Taken(order[..|order| - 1]);
      if Later(order[|order| - 1], Newest(before)) then before + [order[|order| - 1]] else before
  }

  function Newest(taken: seq<nat>): Option<nat> {
    if taken == [] then None else Some(taken[|taken| - 1])
  }

  /** Every frame arrives within the window of the newest one taken before it. */
  predicate Windowed(order: seq<nat>) {
    order == [] ||
    var before := order[..|order| - 1];
    Windowed(before) && (Taken(before) != [] ==> InWindow(order[|order| - 1], Newest(Taken(before)).value))
  }

  /** What was taken is in send order without repetition. */
  lemma {:induction false} TakenRises(order: seq<nat>)
    ensures forall a, b | 0 <= a < b < |Taken(order)| :: Taken(order)[a] < Taken(order)[b]
    ensures forall i | i in Taken(order) :: i in order
  {
    if order != [] {
      TakenRises(order[..|order| - 1]);
    }
  }

  /** The indices of the client's frames in a queue, and over a whole session, in order of arrival. */
  function Indices(arrivals: seq<Arrival>): seq<nat> {
    if arrivals == [] then []
    else
      var last := arrivals[|arrivals| - 1];
      Indices(arrivals[..|arrivals| - 1]) + if last.FromClient? then [last.index] else []
  }

  function StepIndices(step: SessionStep): seq<nat> {
    if step.Cycled? then Indices(step.arrivals) else []
  }

  function Order(steps: seq<SessionStep>): seq<nat> {
    if steps == [] then [] else Order(steps[..|steps| - 1]) + StepIndices(steps[|steps| - 1])
  }

  /** The sequence part of a session agrees with unbounded numbers: the last of `taken` is the newest. */
  predicate InStep(v: View, id: U64, taken: seq<nat>) {
    && v.open && v.session == id
    && (v.rxSeen <==> taken != [])
    && (taken != [] ==> v.rxLastSeq == SeqOf(taken[|taken| - 1]))
  }

  /** The region of a session: the newest frame's outputs, zero if it was not VALID, or what it was at the open. */
  function Shown(c: Config, sent: seq<Outgoing>, start: seq<Byte>, taken: seq<nat>): seq<Byte> {
    if taken == [] then start
    else if taken[|taken| - 1] >= |sent| then []
    else
      var frame := sent[taken[|taken| - 1]];
      if frame.flags % 2 == FLAG_VALID then frame.payload else Zeros(c.outBytes)
  }

  /** The newest frame taken was not VALID. */
  predicate Silenced(sent: seq<Outgoing>, taken: seq<nat>) {
    taken != [] && taken[|taken| - 1] < |sent| && sent[taken[|taken| - 1]].flags % 2 == 0
  }

  /** One arrival: accepted exactly when unbounded numbers would let it through. */
  lemma SentIsTaken(c: Config, id: U64, sent: seq<Outgoing>, v: View, taken: seq<nat>, a: Arrival)
    requires Sendable(c, sent) && Genuine(c, id, sent, a) && InStep(v, id, taken)
    requires a.FromClient? && taken != [] ==> InWindow(a.index, taken[|taken| - 1])
    ensures var d := DatagramOf(c, id, sent, a);
            var accepted := a.FromClient? && Later(a.index, Newest(taken));
            && Acceptable(c, v, d) == accepted
            && InStep(Arrive(c, v, d), id, if accepted then taken + [a.index] else taken)
            && (accepted ==> Arrive(c, v, d).region == Shown(c, sent, v.region, taken + [a.index])
                             && Arrive(c, v, d).zeroed == Silenced(sent, taken + [a.index]))
  {
    if a.FromClient? {
      FrameParses(c, id, SeqOf(a.index), sent[a.index].flags, sent[a.index].payload);
      if taken != [] { NewerIsSentLater(a.index, taken[|taken| - 1]); }
    } else {
      AddressedBytes(c, id, a.d);
    }
  }

  /** The client's frames that a drain from view v accepts. */
  function AcceptedIn(c: Config, id: U64, sent: seq<Outgoing>, v: View, arrivals: seq<Arrival>): seq<nat>
    requires Sendable(c, sent) && AllGenuine(c, id, sent, arrivals)
  {
    if arrivals == [] then []
    else
      var before, last := arrivals[..|arrivals| - 1], arrivals[|arrivals| - 1];
      var w := ArriveAll(c, v, QueueOf(c, id, sent, before));
      AcceptedIn(c, id, sent, v, before) +
      if last.FromClient? && Acceptable(c, w, DatagramOf(c, id, sent, last)) then [last.index] else []
  }

  lemma QueueSplit(c: Config, id: U64, sent: seq<Outgoing>, arrivals: seq<Arrival>)
    requires Sendable(c, sent) && AllGenuine(c, id, sent, arrivals) && arrivals != []
    ensures var last := |arrivals| - 1;
            && AllGenuine(c, id, sent, arrivals[..last])
            && QueueOf(c, id, sent, arrivals)[..last] == QueueOf(c, id, sent, arrivals[..last])
            && QueueOf(c, id, sent, arrivals)[last] == DatagramOf(c, id, sent, arrivals[last])
  {
  }

  lemma TakenNext(order: seq<nat>, i: nat)
    ensures Taken(order + [i]) == if Later(i, Newest(Taken(order))) then Taken(order) + [i] else Taken(order)
    ensures Windowed(order + [i]) <==>
            Windowed(order) && (Taken(order) != [] ==> InWindow(i, Newest(Taken(order)).value))
  {
    assert (order + [i])[..|order|] == order;
  }

  /** A drain from view v, by which time w has come about: it has accepted `more` after `taken`. */
  predicate Accepting(c: Config, id: U64, sent: seq<Outgoing>, v: View, w: View, taken: seq<nat>, more: seq<nat>) {
    && InStep(w, id, taken + more)
    && w.framesRx == v.framesRx + |more|
    && (more != [] ==> w.region == Shown(c, sent, v.region, taken + more) && w.zeroed == Silenced(sent, taken + more))
  }

  lemma AcceptsNext(c: Config, id: U64, sent: seq<Outgoing>, v: View, w: View, taken: seq<nat>, more: seq<nat>,
                    a: Arrival)
    requires Sendable(c, sent) && Genuine(c, id, sent, a) && Accepting(c, id, sent, v, w, taken, more)
    requires a.FromClient? && taken + more != [] ==> InWindow(a.index, Newest(taken + more).value)
    ensures var d := DatagramOf(c, id, sent, a);
            var accepted := a.FromClient? && Later(a.index, Newest(taken + more));
            && Acceptable(c, w, d) == accepted
            && Accepting(c, id, sent, v, Arrive(c, w, d), taken, if accepted then more + [a.index] else more)
  {
    SentIsTaken(c, id, sent, w, taken + more, a);
    if a.FromClient? { assert taken + (more + [a.index]) == taken + more + [a.index]; }
  }

  /** The last arrival of a queue, after a drain of the others that led to w and accepted `more`. */
  lemma DrainNext(c: Config, id: U64, sent: seq<Outgoing>, v: View, taken: seq<nat>, arrivals: seq<Arrival>,
                  w: View, more: seq<nat>)
    requires Sendable(c, sent) && AllGenuine(c, id, sent, arrivals) && arrivals != []
    requires w == ArriveAll(c, v, QueueOf(c, id, sent, arrivals[..|arrivals| - 1]))
    requires more == AcceptedIn(c, id, sent, v, arrivals[..|arrivals| - 1])
    requires Accepting(c, id, sent, v, w, taken, more)
    requires var a := arrivals[|arrivals| - 1];
             a.FromClient? && taken + more != [] ==> InWindow(a.index, Newest(taken + more).value)
    ensures var a := arrivals[|arrivals| - 1];
            var all := AcceptedIn(c, id, sent, v, arrivals);
            && taken + all == (if a.FromClient? && Later(a.index, Newest(taken + more)) then taken + more + [a.index]
                               else taken + more)
            && Accepting(c, id, sent, v, ArriveAll(c, v, QueueOf(c, id, sent, arrivals)), taken, all)
  {
    QueueSplit(c, id, sent, arrivals);
    var a := arrivals[|arrivals| - 1];
    AcceptsNext(c, id, sent, v, w, taken, more, a);
    if a.FromClient? { assert taken + (more + [a.index]) == taken + more + [a.index]; }
  }

  lemma {:induction false} DrainInStep(c: Config, id: U64, sent: seq<Outgoing>, v: View, order: seq<nat>,
                                       arrivals: seq<Arrival>)
    returns (w: View, more: seq<nat>)
    requires Sendable(c, sent) && AllGenuine(c, id, sent, arrivals) && InStep(v, id, Taken(order))
    requires Windowed(order + Indices(arrivals))
    ensures w == ArriveAll(c, v, QueueOf(c, id, sent, arrivals)) && more == AcceptedIn(c, id, sent, v, arrivals)
    ensures Accepting(c, id, sent, v, w, Taken(order), more)
    ensures Taken(order) + more == Taken(order + Indices(arrivals))
    decreases |arrivals|
  {
    if arrivals == [] {
      w, more := v, [];
      assert order + Indices(arrivals) == order;
      assert Taken(order) + more == Taken(order);
    } else {
      OrderNext(order, arrivals);
      w, more := DrainInStep(c, id, sent, v, order, arrivals[..|arrivals| - 1]);
      DrainNext(c, id, sent, v, Taken(order), arrivals, w, more);
      w, more := ArriveAll(c, v, QueueOf(c, id, sent, arrivals)), AcceptedIn(c, id, sent, v, arrivals);
    }
  }

  lemma OrderNext(order: seq<nat>, arrivals: seq<Arrival>)
    requires arrivals != []
    ensures var sofar, a := order + Indices(arrivals[..|arrivals| - 1]), arrivals[|arrivals| - 1];
            if a.FromClient? then
              && Taken(order + Indices(arrivals))
                 == (if Later(a.index, Newest(Taken(sofar))) then Taken(sofar) + [a.index] else Taken(sofar))
              && (Windowed(order + Indices(arrivals)) ==>
                    Windowed(sofar) && (Taken(sofar) != [] ==> InWindow(a.index, Newest(Taken(sofar)).value)))
            else order + Indices(arrivals) == sofar
  {
    var sofar, a := order + Indices(arrivals[..|arrivals| - 1]), arrivals[|arrivals| - 1];
    if a.FromClient? {
      assert order + Indices(arrivals) == sofar + [a.index];
      TakenNext(sofar, a.index);
    }
  }

  // A whole session, from its open on

  predicate GenuineStep(c: Config, id: U64, sent: seq<Outgoing>, step: SessionStep) {
    step.Cycled? ==> AllGenuine(c, id, sent, step.arrivals)
  }

  predicate GenuineSteps(c: Config, id: U64, sent: seq<Outgoing>, steps: seq<SessionStep>) {
    forall k | 0 <= k < |steps| :: GenuineStep(c, id, sent, steps[k])
  }

  function StepOf(c: Config, id: U64, sent: seq<Outgoing>, step: SessionStep): Step
    requires Sendable(c, sent) && GenuineStep(c, id, sent, step)
  {
    match step
    case Cycled(arrivals) => BusCycle(QueueOf(c, id, sent, arrivals))
    case Missed => LockMissed
    case Refused => RefusedOpening
  }

  function StepsOf(c: Config, id: U64, sent: seq<Outgoing>, steps: seq<SessionStep>): seq<Step>
    requires Sendable(c, sent) && GenuineSteps(c, id, sent, steps)
  {
    if steps == [] then []
    else StepsOf(c, id, sent, steps[..|steps| - 1]) + [StepOf(c, id, sent, steps[|steps| - 1])]
  }

  /** Any run, an open, and a session after it. */
  function SessionRun(c: Config, before: seq<Step>, id: U64, sent: seq<Outgoing>, steps: seq<SessionStep>): History
    requires Sendable(c, sent) && GenuineSteps(c, id, sent, steps)
  {
    Run(c, before + [Opening(Some(id))] + StepsOf(c, id, sent, steps))
  }

  /** The client's frames a session accepts, in the order it does. */
  function Accepted(c: Config, before: seq<Step>, id: U64, sent: seq<Outgoing>, steps: seq<SessionStep>): seq<nat>
    requires Sendable(c, sent) && GenuineSteps(c, id, sent, steps)
  {
    if steps == [] then []
    else
      var sofar := steps[..|steps| - 1];
      Accepted(c, before, id, sent, sofar) +
      AcceptedBy(c, id, sent, SessionRun(c, before, id, sent, sofar).v, steps[|steps| - 1])
  }

  function AcceptedBy(c: Config, id: U64, sent: seq<Outgoing>, v: View, step: SessionStep): seq<nat>
    requires Sendable(c, sent) && GenuineStep(c, id, sent, step)
  {
    if step.Cycled? then AcceptedIn(c, id, sent, v, step.arrivals) else []
  }

  lemma SessionNext(c: Config, before: seq<Step>, id: U64, sent: seq<Outgoing>, steps: seq<SessionStep>)
    requires Sendable(c, sent) && GenuineSteps(c, id, sent, steps)
    ensures steps == [] ==> SessionRun(c, before, id, sent, steps) == Advance(c, Run(c, before), Opening(Some(id)))
    ensures steps != [] ==>
              SessionRun(c, before, id, sent, steps)
              == Advance(c, SessionRun(c, before, id, sent, steps[..|steps| - 1]),
                         StepOf(c, id, sent, steps[|steps| - 1]))
  {
    var begun := before + [Opening(Some(id))];
    if steps == [] {
      assert begun + [] == begun;
      RunNext(c, before, Opening(Some(id)));
    } else {
      var sofar, step := StepsOf(c, id, sent, steps[..|steps| - 1]), StepOf(c, id, sent, steps[|steps| - 1]);
      assert begun + (sofar + [step]) == begun + sofar + [step];
      RunNext(c, begun + sofar, step);
    }
  }

  /** A session that has taken these frames since it was opened in view `start`. */
  predicate Following(c: Config, id: U64, sent: seq<Outgoing>, start: View, h: History, taken: seq<nat>) {
    && Safe(c, h) && InStep(h.v, id, taken)
    && h.v.framesRx == start.framesRx + |taken|
    && (h.quietCycles <= TimeoutCycles(c) ==> h.v.region == Shown(c, sent, start.region, taken))
    && h.v.zeroed == (h.quietCycles > TimeoutCycles(c) || Silenced(sent, taken))
    && h.v.watchdogTrips
       == h.tripsBefore + (if h.quietCycles > TimeoutCycles(c) && !Silenced(sent, taken) then 1 else 0)
  }

  lemma QuietFollows(c: Config, id: U64, sent: seq<Outgoing>, start: View, h: History, taken: seq<nat>, dropped: nat)
    requires Following(c, id, sent, start, h, taken)
    ensures var v := QuietCycle(c, h.v.(framesDropped := dropped));
            Following(c, id, sent, start, h.(v := v, quietCycles := h.quietCycles + 1), taken)
  {
    QuietKeepsSafe(c, h, dropped);
    NextWraps(h.quietCycles);
  }

  /** What a cycle makes of a drain that led to w. */
  lemma CycleOutcome(c: Config, h: History, queue: seq<Datagram>, w: View)
    requires h.v.open && WellZeroed(c, h.v) && w == ArriveAll(c, h.v, queue)
    ensures w.watchdogTrips == h.v.watchdogTrips
    ensures Advance(c, h, BusCycle(queue)) ==
            if w.framesRx > h.v.framesRx then History(w, 0, w.watchdogTrips)
            else h.(v := QuietCycle(c, h.v.(framesDropped := w.framesDropped)), quietCycles := h.quietCycles + 1)
  {
    ArriveAllFacts(c, h.v, queue);
  }

  lemma FreshFollows(c: Config, id: U64, sent: seq<Outgoing>, start: View, h: History, w: View, taken: seq<nat>,
                     more: seq<nat>)
    requires Following(c, id, sent, start, h, taken) && Accepting(c, id, sent, h.v, w, taken, more) && more != []
    requires Safe(c, History(w, 0, w.watchdogTrips))
    ensures Following(c, id, sent, start, History(w, 0, w.watchdogTrips), taken + more)
  {
  }

  lemma CycleFollows(c: Config, id: U64, sent: seq<Outgoing>, start: View, h: History, order: seq<nat>,
                     arrivals: seq<Arrival>)
    requires Sendable(c, sent) && AllGenuine(c, id, sent, arrivals) && Windowed(order + Indices(arrivals))
    requires Following(c, id, sent, start, h, Taken(order))
    ensures Following(c, id, sent, start, Advance(c, h, BusCycle(QueueOf(c, id, sent, arrivals))),
                      Taken(order + Indices(arrivals)))
    ensures Taken(order) + AcceptedIn(c, id, sent, h.v, arrivals) == Taken(order + Indices(arrivals))
  {
    var queue := QueueOf(c, id, sent, arrivals);
    var w, more := DrainInStep(c, id, sent, h.v, order, arrivals);
    CycleOutcome(c, h, queue, w);
    if more == [] {
      assert Taken(order) + more == Taken(order);
      QuietFollows(c, id, sent, start, h, Taken(order), w.framesDropped);
    } else {
      SafeKept(c, h, BusCycle(queue));
      FreshFollows(c, id, sent, start, h, w, Taken(order), more);
    }
  }

  lemma {:induction false} WindowedPrefix(order: seq<nat>, more: seq<nat>)
    requires Windowed(order + more)
    ensures Windowed(order)
    decreases |more|
  {
    if more == [] {
      assert order + more == order;
    } else {
      assert (order + more)[..|order + more| - 1] == order + more[..|more| - 1];
      WindowedPrefix(order, more[..|more| - 1]);
    }
  }

  lemma IdleFollows(c: Config, h: History, order: seq<nat>, step: SessionStep)
    requires !step.Cycled?
    ensures order + StepIndices(step) == order && Taken(order) + [] == Taken(order)
    ensures Advance(c, h, LockMissed) == Advance(c, h, RefusedOpening) == h
  {
  }

  lemma StepFollows(c: Config, id: U64, sent: seq<Outgoing>, start: View, h: History, order: seq<nat>,
                    step: SessionStep)
    requires Sendable(c, sent) && GenuineStep(c, id, sent, step) && Windowed(order + StepIndices(step))
    requires Following(c, id, sent, start, h, Taken(order))
    ensures Following(c, id, sent, start, Advance(c, h, StepOf(c, id, sent, step)), Taken(order + StepIndices(step)))
    ensures Taken(order) + AcceptedBy(c, id, sent, h.v, step) == Taken(order + StepIndices(step))
  {
    if step.Cycled? {
      CycleFollows(c, id, sent, start, h, order, step.arrivals);
    } else {
      IdleFollows(c, h, order, step);
    }
  }

  lemma {:induction false} SessionFollows(c: Config, before: seq<Step>, id: U64, sent: seq<Outgoing>,
                                          steps: seq<SessionStep>)
    requires Sendable(c, sent) && GenuineSteps(c, id, sent, steps) && Windowed(Order(steps))
    ensures Following(c, id, sent, Run(c, before).v, SessionRun(c, before, id, sent, steps), Taken(Order(steps)))
    ensures Accepted(c, before, id, sent, steps) == Taken(Order(steps))
    decreases |steps|
  {
    SessionNext(c, before, id, sent, steps);
    if steps == [] {
      SafeAlways(c, before);
      SafeKept(c, Run(c, before), Opening(Some(id)));
    } else {
      var sofar, step := steps[..|steps| - 1], steps[|steps| - 1];
      WindowedPrefix(Order(sofar), StepIndices(step));
      SessionFollows(c, before, id, sent, sofar);
      StepFollows(c, id, sent, Run(c, before).v, SessionRun(c, before, id, sent, sofar), Order(sofar), step);
    }
  }

  /**
   The wrapping sequence check refines unbounded counters over a whole session: any number of
   cycles, quiet or not, missed locks and refused opens, with queues that mix the client's frames,
   VALID or not, with anything else, after any earlier run. Whatever the network loses, repeats or
   reorders, as long as frames arrive within the window, the session accepts exactly the frames that
   unbounded sequence numbers would, across any number of wraps, and no other datagram; each at most
   once and in send order (TakenRises). The region shows the newest of them, or zero when the
   session has been quiet for too long; the watchdog has then tripped once, unless the newest frame
   was not VALID and had zeroed the outputs before.
   */
  lemma SendOrder(c: Config, before: seq<Step>, id: U64, sent: seq<Outgoing>, steps: seq<SessionStep>)
    requires Sendable(c, sent) && GenuineSteps(c, id, sent, steps) && Windowed(Order(steps))
    ensures var start, h, taken := Run(c, before).v, SessionRun(c, before, id, sent, steps), Taken(Order(steps));
            && Accepted(c, before, id, sent, steps) == taken
            && InStep(h.v, id, taken)
            && h.v.framesRx == start.framesRx + |taken|
            && (h.v.region == if h.quietCycles <= TimeoutCycles(c) then Shown(c, sent, start.region, taken)
                              else Zeros(c.outBytes))
            && h.v.zeroed == (h.quietCycles > TimeoutCycles(c) || Silenced(sent, taken))
            && h.v.watchdogTrips
               == h.tripsBefore + (if h.quietCycles > TimeoutCycles(c) && !Silenced(sent, taken) then 1 else 0)
  {
    SessionFollows(c, before, id, sent, steps);
  }
}
