/**
 The bus thread, the monitor thread and the control thread of one master, as interleaved atomic
 steps over the shared instance. Each step makes at most one access that another running thread
 can see. A step whose thread cannot move changes nothing, so a run is any finite sequence of steps.
 */
module BusProtocol {
  import AlPoll

  const WKC_ERROR_THRESHOLD := 3
  const AL_FAULT_THRESHOLD := 3
  const MAX_RECOVERY_ATTEMPTS := 5

  datatype BusState =
    | Idle | Scanning | Configuring | Transitioning | Operational | Recovering | Error | Stopped

  /** What one cycle's AL status poll brought back. */
  datatype Poll = NoReply | Reply(status: AlPoll.Word, wkc: nat)

  /** How a poll was counted. */
  datatype PollCount = Missed | Good | Faulty

  /** Why the bus thread asked for recovery. */
  datatype Cause = WkcErrors | AlFaults

  /** Where the bus thread is. `seen` is the bus state its current cycle read. */
  datatype BusPc =
    | BAbsent | BExited
    | BWake                                                   // top of the thread loop
    | BRead                                                   // about to load bus_state
    | BExchange(seen: BusState)
    | BCollect(seen: BusState, short: bool, poll: Poll)
    | BCountFault(seen: BusState, short: bool, poll: Poll)
    | BCountReply(seen: BusState, short: bool, poll: Poll, count: PollCount)
    | BWkc(seen: BusState, short: bool, poll: Poll, count: PollCount)
    | BTrigger(cause: Cause)                                  // about to store recovery_al_trigger
    | BStore(cause: Cause)                                    // about to store RECOVERING

  /** Where the monitor thread is. */
  datatype MonPc =
    | MAbsent | MExited
    | MStart                                                  // about to load the first al_faults
    | MTop                                                    // top of the thread loop
    | MRead                                                   // about to load bus_state
    | MReplies | MFaults(replies: nat)                        // a pass that read OPERATIONAL
    | MSlaves                                                 // a pass that read RECOVERING
    | MBump | MStoreError
    | MResetAttempts | MResetWkc | MStoreOp

  /** Where the control thread is in start_single_master or stop_single_master. */
  datatype CtlPc =
    | CIdle
    | CScan | CConfigure | CTransition | CStoreOp | CSpawnMonitor | CSpawnBus
    | CStopBus | CJoinBus | CStopMonitor | CJoinMonitor | CFinish

  /** The fields of the instance and the position and locals of each thread. */
  datatype Master = Master(
    slaveCount: nat,
    busState: BusState, busRunning: bool, monRunning: bool,
    wkcErrors: nat, alFaults: nat, alReplies: nat, alStatus: AlPoll.Word, alTrigger: nat, attempts: nat,
    alRun: nat,                              // consecutive_al_faults, bus thread only
    lastReplies: nat, lastFaults: nat,       // monitor thread only
    bus: BusPc, mon: MonPc, ctl: CtlPc)

  datatype Agent = BusThread(cause: Cause) | MonitorThread | ControlThread

  /** A monitor pass that read OPERATIONAL: the counters before and after, and what it chose. */
  datatype OpPass = OpPass(prevReplies: nat, replies: nat, prevFaults: nat, faults: nat, fullRead: bool)

  /** What a step did, for stating properties of whole runs. */
  datatype Event =
    | Nothing
    | Started                                            // start reset the counters
    | Counted(poll: Poll, faulty: bool)                  // the bus thread counted an AL reply
    | Cycle(seen: BusState, short: bool, poll: Poll, count: PollCount)
    | Cleared                                            // the monitor zeroed the short-cycle count
    | Watching(faults: nat)                              // the monitor's first reading of al_faults
    | Checked(pass: OpPass)
    | RecoveryPass(slaves: seq<AlPoll.Word>)             // the monitor read every configured slave
    | Store(agent: Agent, expected: BusState, found: BusState, stored: BusState)

  datatype Outcome = Outcome(m: Master, event: Event)

  datatype Command = Start | Stop

  datatype Step =
    | BusStep(short: bool, poll: Poll)
    | MonStep(slaves: seq<AlPoll.Word>)
    | CtlStep(command: Command, ok: bool)

  // ---------------------------------------------------------------------------------------------
  // The steps
  // ---------------------------------------------------------------------------------------------

  /** A store to bus_state, recorded with the state the storing thread believes it replaces. */
  function Storing(m: Master, agent: Agent, expected: BusState, to: BusState): Outcome {
    Outcome(m.(busState := to), Store(agent, expected, m.busState, to))
  }

  function Quiet(m: Master): Outcome {
    Outcome(m, Nothing)
  }

  /** The states in which a cycle exchanges process data. */
  predicate Exchanging(b: BusState) {
    b.Operational? || b.Recovering?
  }

  /** `ecat_run_one_cycle` and the loop of `ecat_bus_thread` */
  function StepBus(m: Master, short: bool, poll: Poll): Outcome {
    match m.bus
    case BAbsent => Quiet(m)
    case BExited => Quiet(m)
    case BWake => Quiet(m.(bus := if m.busRunning then BRead else BExited))
    case BRead => Quiet(m.(bus := if Exchanging(m.busState) then BExchange(m.busState) else BWake))
    case BExchange(seen) => Quiet(m.(bus := BCollect(seen, short, poll)))
    case BCollect(seen, short, poll) =>
      if poll.NoReply? then
        Quiet(m.(bus := BWkc(seen, short, poll, Missed)))
      else if AlPoll.Healthy(poll.status, poll.wkc, m.slaveCount) then
        Quiet(m.(alStatus := poll.status, alRun := 0, bus := BCountReply(seen, short, poll, Good)))
      else
        Quiet(m.(alStatus := poll.status, alRun := m.alRun + 1, bus := BCountFault(seen, short, poll)))
    case BCountFault(seen, short, poll) =>
      Quiet(m.(alFaults := m.alFaults + 1, bus := BCountReply(seen, short, poll, Faulty)))
    case BCountReply(seen, short, poll, count) =>
      Outcome(m.(alReplies := m.alReplies + 1, bus := BWkc(seen, short, poll, count)), Counted(poll, count.Faulty?))
    case BWkc(seen, short, poll, count) =>
      var consec := if short then m.wkcErrors + 1 else 0;
      var next :=
        if seen == Operational && consec >= WKC_ERROR_THRESHOLD then BTrigger(WkcErrors)
        else if seen == Operational && m.alRun >= AL_FAULT_THRESHOLD then BTrigger(AlFaults)
        else BWake;
      Outcome(m.(wkcErrors := consec, bus := next), Cycle(seen, short, poll, count))
    case BTrigger(cause) =>
      Quiet(m.(alTrigger := if cause.WkcErrors? then 0 else 0x10000 + m.alStatus, bus := BStore(cause)))
    case BStore(cause) => Storing(m.(bus := BWake), BusThread(cause), Operational, Recovering)
  }

  predicate AllOperational(slaves: seq<AlPoll.Word>) {
    forall i | 0 <= i < |slaves| :: slaves[i] == AlPoll.STATE_OP
  }

  /** `ecat_monitor_thread` and `attempt_recovery` */
  function StepMon(m: Master, slaves: seq<AlPoll.Word>): Outcome {
    match m.mon
    case MAbsent => Quiet(m)
    case MExited => Quiet(m)
    case MStart => Outcome(m.(lastReplies := 0, lastFaults := m.alFaults, mon := MTop), Watching(m.alFaults))
    case MTop => Quiet(m.(mon := if m.monRunning then MRead else MExited))
    case MRead =>
      Quiet(m.(mon := if m.busState.Operational? then MReplies
                      else if m.busState.Recovering? then MSlaves else MTop))
    case MReplies => Quiet(m.(mon := MFaults(m.alReplies)))
    case MFaults(replies) =>
      var fullRead := !(replies != m.lastReplies && m.alFaults == m.lastFaults);
      Outcome(m.(lastReplies := replies, lastFaults := m.alFaults, mon := MTop),
              Checked(OpPass(m.lastReplies, replies, m.lastFaults, m.alFaults, fullRead)))
    case MSlaves =>
      Outcome(m.(mon := if AllOperational(slaves) then MResetAttempts else MBump), RecoveryPass(slaves))
    case MBump =>
      Quiet(m.(attempts := m.attempts + 1,
               mon := if m.attempts + 1 >= MAX_RECOVERY_ATTEMPTS then MStoreError else MTop))
    case MStoreError => Storing(m.(mon := MTop), MonitorThread, Recovering, Error)
    case MResetAttempts => Quiet(m.(attempts := 0, mon := MResetWkc))
    case MResetWkc => Outcome(m.(wkcErrors := 0, mon := MStoreOp), Cleared)
    case MStoreOp => Storing(m.(mon := MTop), MonitorThread, Recovering, Operational)
  }

  /** The states `ecat_bus_start` starts a master from. */
  predicate StartAccepts(b: BusState) {
    b.Idle? || b.Stopped? || b.Error?
  }

  predicate Threadless(m: Master) {
    m.bus.BAbsent? && m.mon.MAbsent?
  }

  /** Neither thread was left running, as a caller of start can read it. */
  predicate FlagsClear(m: Master) {
    !m.busRunning && !m.monRunning
  }

  /** The first store of `start_single_master`. */
  function BeginStart(m: Master): Outcome {
    Storing(m.(ctl := CScan), ControlThread, m.busState, Scanning)
  }

  /**
   `start_single_master` and `stop_single_master`; `ok` is the outcome of the phase it runs. A start
   is taken only when both running flags are clear; see StartIsCleanExactly.
   */
  function StepCtl(m: Master, command: Command, ok: bool): Outcome {
    match m.ctl
    case CIdle =>
      if command.Start? then
        if StartAccepts(m.busState) && FlagsClear(m) then BeginStart(m) else Quiet(m)
      else if m.busState.Stopped? || m.busState.Idle? then Quiet(m)
      else Quiet(m.(ctl := CStopBus))
    case CScan => Phase(m, Scanning, ok, Configuring, CConfigure)
    case CConfigure => Phase(m, Configuring, ok, Transitioning, CTransition)
    case CTransition =>
      if ok then
        Outcome(m.(wkcErrors := 0, attempts := 0, alRun := 0, alStatus := 0, alReplies := 0,
                   alFaults := 0, alTrigger := 0, ctl := CStoreOp), Started)
      else Storing(m.(ctl := CIdle), ControlThread, Transitioning, Error)
    case CStoreOp => Storing(m.(ctl := CSpawnMonitor), ControlThread, Transitioning, Operational)
    case CSpawnMonitor =>
      if ok then Quiet(m.(monRunning := true, mon := MStart, ctl := CSpawnBus))
      else Storing(m.(ctl := CIdle), ControlThread, Operational, Error)
    case CSpawnBus =>
      if ok then Quiet(m.(busRunning := true, bus := BWake, ctl := CIdle))
      else Storing(m.(ctl := CIdle), ControlThread, Operational, Error)
    case CStopBus =>
      if m.busRunning then Quiet(m.(busRunning := false, ctl := CJoinBus))
      else Quiet(m.(ctl := CStopMonitor))
    case CJoinBus => if m.bus.BExited? then Quiet(m.(bus := BAbsent, ctl := CStopMonitor)) else Quiet(m)
    case CStopMonitor =>
      if m.monRunning then Quiet(m.(monRunning := false, ctl := CJoinMonitor))
      else Quiet(m.(ctl := CFinish))
    case CJoinMonitor => if m.mon.MExited? then Quiet(m.(mon := MAbsent, ctl := CFinish)) else Quiet(m)
    case CFinish =>
      Storing(m.(wkcErrors := 0, attempts := 0, ctl := CIdle), ControlThread, m.busState, Stopped)
  }

  /** A start-up phase that ran in state `from`. */
  function Phase(m: Master, from: BusState, ok: bool, to: BusState, next: CtlPc): Outcome {
    if ok then Storing(m.(ctl := next), ControlThread, from, to)
    else Storing(m.(ctl := CIdle), ControlThread, from, Error)
  }

  function Next(m: Master, step: Step): Outcome {
    match step
    case BusStep(short, poll) => StepBus(m, short, poll)
    case MonStep(slaves) => StepMon(m, slaves)
    case CtlStep(command, ok) => StepCtl(m, command, ok)
  }

  /** A configured master before its first start. */
  function Initial(slaveCount: nat): Master {
    Master(slaveCount, Idle, false, false, 0, 0, 0, 0, 0, 0, 0, 0, 0, BAbsent, MAbsent, CIdle)
  }

  /** The master after a run, and the events of the run. */
  function After(m: Master, steps: seq<Step>): Master {
    if steps == [] then m else Next(After(m, steps[..|steps| - 1]), steps[|steps| - 1]).m
  }

  function Log(m: Master, steps: seq<Step>): (log: seq<Event>)
    ensures |log| == |steps|
  {
    if steps == [] then []
    else
      var before := steps[..|steps| - 1];
      Log(m, before) + [Next(After(m, before), steps[|steps| - 1]).event]
  }

  // ---------------------------------------------------------------------------------------------
  // What a log says
  // ---------------------------------------------------------------------------------------------

  datatype Tally = Tally(
    shortRun: nat,     // short cycles in a row since the last start
    shortCount: nat,   // the same, since the monitor last zeroed its count or a stop ended
    faultyRun: nat,    // faulty AL replies in a row since the last start, misses skipped
    stayShort: nat,    // short cycles in a row within the current stay in OPERATIONAL
    stayFaulty: nat,   // faulty replies in a row, misses skipped, within that stay
    stayPasses: nat,   // recovery passes since the last store to bus_state
    lastAllOp: bool)   // the latest recovery pass read every configured slave as OP

  const NO_TALLY := Tally(0, 0, 0, 0, 0, 0, false)

  function Count(run: nat, count: PollCount): nat {
    match count
    case Missed => run
    case Good => 0
    case Faulty => run + 1
  }

  function Add(t: Tally, e: Event): Tally {
    match e
    case Nothing => t
    case Counted(_, _) => t
    case Cleared => t.(shortCount := 0)
    case Watching(_) => t
    case Checked(_) => t
    case Started => Tally(0, 0, 0, 0, 0, 0, t.lastAllOp)
    case Cycle(seen, short, _, count) =>
      t.(shortRun := if short then t.shortRun + 1 else 0,
         shortCount := if short then t.shortCount + 1 else 0,
         faultyRun := Count(t.faultyRun, count),
         stayShort := if short && seen.Operational? then t.stayShort + 1 else 0,
         stayFaulty := if seen.Operational? then Count(t.stayFaulty, count) else 0)
    case RecoveryPass(slaves) =>
      t.(stayPasses := t.stayPasses + 1, lastAllOp := forall i | 0 <= i < |slaves| :: slaves[i] == 8)
    case Store(_, _, _, to) =>
      t.(stayShort := 0, stayFaulty := 0, stayPasses := 0, shortCount := if to.Stopped? then 0 else t.shortCount)
  }

  function TallyOf(log: seq<Event>): Tally {
    if log == [] then NO_TALLY else Add(TallyOf(log[..|log| - 1]), log[|log| - 1])
  }

  // ---------------------------------------------------------------------------------------------
  // Ownership of bus_state
  // ---------------------------------------------------------------------------------------------

  /** The bus thread is in a cycle that read OPERATIONAL. */
  predicate BusOwns(b: BusPc) {
    match b
    case BExchange(seen) => seen == Operational
    case BCollect(seen, _, _) => seen == Operational
    case BCountFault(seen, _, _) => seen == Operational
    case BCountReply(seen, _, _, _) => seen == Operational
    case BWkc(seen, _, _, _) => seen == Operational
    case BTrigger(_) => true
    case BStore(_) => true
    case _ => false
  }

  /** The monitor thread is in a pass that read RECOVERING. */
  predicate MonOwns(p: MonPc) {
    p.MSlaves? || p.MBump? || p.MStoreError? || p.MResetAttempts? || p.MResetWkc? || p.MStoreOp?
  }

  /** A thread that may store bus_state finds there what its pass read. */
  predicate Ownership(m: Master) {
    && (BusOwns(m.bus) ==> m.busState.Operational?)
    && (MonOwns(m.mon) ==> m.busState.Recovering?)
    && (!Exchanging(m.busState) && !m.busState.Error? ==> Threadless(m))
    && (m.busRunning ==> !m.bus.BAbsent?) && (!m.bus.BAbsent? ==> m.busRunning || m.ctl.CJoinBus?)
    && (m.monRunning ==> !m.mon.MAbsent?) && (!m.mon.MAbsent? ==> m.monRunning || m.ctl.CJoinMonitor?)
    && ControlHolds(m)
  }

  /** What the control thread may rely on at each point. */
  predicate ControlHolds(m: Master) {
    match m.ctl
    case CScan => m.busState.Scanning?
    case CConfigure => m.busState.Configuring?
    case CTransition => m.busState.Transitioning?
    case CStoreOp => m.busState.Transitioning?
    case CSpawnMonitor => m.busState.Operational? && Threadless(m)
    case CSpawnBus => m.busState.Operational? && m.bus.BAbsent?
    case CJoinBus => !m.busRunning
    case CStopMonitor => m.bus.BAbsent?
    case CJoinMonitor => m.bus.BAbsent? && !m.monRunning
    case CFinish => Threadless(m)
    case _ => true
  }

  /** The moves each thread may make, and what the tally must show when it makes them. */
  predicate StoreAllowed(t: Tally, e: Event) {
    e.Store? ==>
      && e.expected == e.found
      && match e.agent
         case BusThread(cause) =>
           && e.found.Operational? && e.stored.Recovering?
           && (if cause.WkcErrors? then t.shortRun >= t.shortCount >= 3 else t.faultyRun >= 3)
         case MonitorThread =>
           && e.found.Recovering?
           && (|| (e.stored.Operational? && t.lastAllOp && 1 <= t.stayPasses <= 5)
               || (e.stored.Error? && !t.lastAllOp && t.stayPasses == 5))
         case ControlThread => true
  }

  // ---------------------------------------------------------------------------------------------
  // The recovery trigger and bounded recovery
  // ---------------------------------------------------------------------------------------------

  /** The bus thread has decided to enter RECOVERING. */
  predicate Committed(b: BusPc) {
    b.BTrigger? || b.BStore?
  }

  /** The run of faulty replies once the current cycle's poll is counted. */
  function PendingRun(b: BusPc, run: nat): nat {
    match b
    case BCountFault(_, _, _) => run + 1
    case BCountReply(_, _, _, count) => Count(run, count)
    case BWkc(_, _, _, count) => Count(run, count)
    case _ => run
  }

  predicate Trigger(m: Master, t: Tally) {
    && t.stayShort <= m.wkcErrors == t.shortCount <= t.shortRun
    && m.alRun == PendingRun(m.bus, t.faultyRun)
    && t.stayFaulty <= t.faultyRun
    && (!m.busState.Operational? ==> t.stayShort == t.stayFaulty == 0)
    && (t.stayShort >= WKC_ERROR_THRESHOLD || t.stayFaulty >= AL_FAULT_THRESHOLD ==> Committed(m.bus))
    && t.stayShort <= WKC_ERROR_THRESHOLD && t.stayFaulty <= AL_FAULT_THRESHOLD
    && (Committed(m.bus) ==>
          if m.bus.cause.WkcErrors? then t.shortCount >= WKC_ERROR_THRESHOLD
          else t.faultyRun >= AL_FAULT_THRESHOLD)
  }

  predicate Recovery(m: Master, t: Tally) {
    && (m.busState.Operational? || m.ctl.CStoreOp? ==> m.attempts == 0)
    && (!m.busState.Recovering? ==> t.stayPasses == 0)
    && (m.busState.Recovering? ==> RecoveryPoint(m, t))
  }

  predicate RecoveryPoint(m: Master, t: Tally) {
    match m.mon
    case MBump => m.attempts + 1 == t.stayPasses <= MAX_RECOVERY_ATTEMPTS && !t.lastAllOp
    case MStoreError => m.attempts == t.stayPasses == MAX_RECOVERY_ATTEMPTS && !t.lastAllOp
    case MResetAttempts => t.lastAllOp && 1 <= t.stayPasses <= MAX_RECOVERY_ATTEMPTS
    case MResetWkc => m.attempts == 0 && t.lastAllOp && 1 <= t.stayPasses <= MAX_RECOVERY_ATTEMPTS
    case MStoreOp => m.attempts == 0 && t.lastAllOp && 1 <= t.stayPasses <= MAX_RECOVERY_ATTEMPTS
    case _ => m.attempts == t.stayPasses < MAX_RECOVERY_ATTEMPTS && (t.stayPasses > 0 ==> !t.lastAllOp)
  }

  predicate Protocol(m: Master, t: Tally) {
    Ownership(m) && Trigger(m, t) && Recovery(m, t)
  }

  predicate Kept(o: Outcome, t: Tally) {
    Protocol(o.m, Add(t, o.event)) && StoreAllowed(t, o.event)
  }

  // Steps that leave their mark on the log, and the others; the two halves of each thread.

  predicate BusMarks(b: BusPc) {
    b.BWkc? || b.BStore?
  }

  predicate MonMarks(p: MonPc) {
    p.MSlaves? || p.MStoreError? || p.MResetWkc? || p.MStoreOp?
  }

  predicate Starting(c: CtlPc) {
    c.CScan? || c.CConfigure? || c.CTransition? || c.CStoreOp? || c.CSpawnMonitor? || c.CSpawnBus?
  }

  lemma BusMarkKeeps(m: Master, t: Tally, short: bool, poll: Poll)
    requires Protocol(m, t) && BusMarks(m.bus)
    ensures Kept(StepBus(m, short, poll), t)
  {
  }

  lemma BusQuietKeepsOwnership(m: Master, short: bool, poll: Poll)
    requires Ownership(m) && !BusMarks(m.bus)
    ensures Ownership(StepBus(m, short, poll).m)
  {
  }

  lemma BusQuietKeepsTrigger(m: Master, t: Tally, short: bool, poll: Poll)
    requires Ownership(m) && Trigger(m, t) && !BusMarks(m.bus)
    ensures var o := StepBus(m, short, poll);
            Add(t, o.event) == t && Trigger(o.m, t) && !o.event.Store?
  {
  }

  lemma BusQuietKeepsRecovery(m: Master, t: Tally, short: bool, poll: Poll)
    requires Recovery(m, t) && !BusMarks(m.bus)
    ensures Recovery(StepBus(m, short, poll).m, t)
  {
  }

  lemma MonMarkKeeps(m: Master, t: Tally, slaves: seq<AlPoll.Word>)
    requires Protocol(m, t) && MonMarks(m.mon)
    ensures Kept(StepMon(m, slaves), t)
  {
  }

  lemma MonQuietKeepsOwnership(m: Master, slaves: seq<AlPoll.Word>)
    requires Ownership(m) && !MonMarks(m.mon)
    ensures Ownership(StepMon(m, slaves).m)
  {
  }

  lemma MonQuietKeepsTrigger(m: Master, t: Tally, slaves: seq<AlPoll.Word>)
    requires Ownership(m) && Trigger(m, t) && !MonMarks(m.mon)
    ensures var o := StepMon(m, slaves);
            Add(t, o.event) == t && Trigger(o.m, t) && !o.event.Store?
  {
  }

  lemma MonQuietKeepsRecovery(m: Master, t: Tally, slaves: seq<AlPoll.Word>)
    requires Ownership(m) && Recovery(m, t) && !MonMarks(m.mon)
    ensures Recovery(StepMon(m, slaves).m, t)
  {
  }

  lemma StartKeeps(m: Master, t: Tally, command: Command, ok: bool)
    requires Protocol(m, t) && Starting(m.ctl)
    ensures Kept(StepCtl(m, command, ok), t)
  {
  }

  lemma StopKeepsOwnership(m: Master, t: Tally, command: Command, ok: bool)
    requires Ownership(m) && !Starting(m.ctl)
    ensures var o := StepCtl(m, command, ok); Ownership(o.m) && StoreAllowed(t, o.event)
  {
  }

  /** Between commands, and at the end of a stop, where the control thread may store. */
  predicate AtRest(c: CtlPc) {
    c.CIdle? || c.CFinish?
  }

  lemma RestKeepsTrigger(m: Master, t: Tally, command: Command, ok: bool)
    requires Ownership(m) && Trigger(m, t) && AtRest(m.ctl)
    ensures var o := StepCtl(m, command, ok); Trigger(o.m, Add(t, o.event))
  {
  }

  lemma StopKeepsTrigger(m: Master, t: Tally, command: Command, ok: bool)
    requires Ownership(m) && Trigger(m, t) && !Starting(m.ctl) && !AtRest(m.ctl)
    ensures var o := StepCtl(m, command, ok); Trigger(o.m, Add(t, o.event))
  {
  }

  lemma StopKeepsRecovery(m: Master, t: Tally, command: Command, ok: bool)
    requires Ownership(m) && Recovery(m, t) && !Starting(m.ctl)
    ensures var o := StepCtl(m, command, ok); Recovery(o.m, Add(t, o.event))
  {
  }

  lemma BusKeeps(m: Master, t: Tally, short: bool, poll: Poll)
    requires Protocol(m, t)
    ensures Kept(StepBus(m, short, poll), t)
  {
    if BusMarks(m.bus) {
      BusMarkKeeps(m, t, short, poll);
    } else {
      BusQuietKeepsOwnership(m, short, poll);
      BusQuietKeepsTrigger(m, t, short, poll);
      BusQuietKeepsRecovery(m, t, short, poll);
    }
  }

  lemma MonKeeps(m: Master, t: Tally, slaves: seq<AlPoll.Word>)
    requires Protocol(m, t)
    ensures Kept(StepMon(m, slaves), t)
  {
    if MonMarks(m.mon) {
      MonMarkKeeps(m, t, slaves);
    } else {
      MonQuietKeepsOwnership(m, slaves);
      MonQuietKeepsTrigger(m, t, slaves);
      MonQuietKeepsRecovery(m, t, slaves);
    }
  }

  lemma CtlKeeps(m: Master, t: Tally, command: Command, ok: bool)
    requires Protocol(m, t)
    ensures Kept(StepCtl(m, command, ok), t)
  {
    if Starting(m.ctl) {
      StartKeeps(m, t, command, ok);
    } else {
      StopKeepsOwnership(m, t, command, ok);
      if AtRest(m.ctl) { RestKeepsTrigger(m, t, command, ok); } else { StopKeepsTrigger(m, t, command, ok); }
      StopKeepsRecovery(m, t, command, ok);
    }
  }

  lemma ProtocolKept(m: Master, t: Tally, step: Step)
    requires Protocol(m, t)
    ensures Kept(Next(m, step), t)
  {
    match step {
      case BusStep(short, poll) => BusKeeps(m, t, short, poll);
      case MonStep(slaves) => MonKeeps(m, t, slaves);
      case CtlStep(command, ok) => CtlKeeps(m, t, command, ok);
    }
  }

  // ---------------------------------------------------------------------------------------------
  // Every run
  // ---------------------------------------------------------------------------------------------

  function MasterAfter(slaveCount: nat, steps: seq<Step>): Master {
    After(Initial(slaveCount), steps)
  }

  function LogAfter(slaveCount: nat, steps: seq<Step>): (log: seq<Event>)
    ensures |log| == |steps|
  {
    Log(Initial(slaveCount), steps)
  }

  lemma {:induction false} ProtocolAlways(slaveCount: nat, steps: seq<Step>)
    ensures Protocol(MasterAfter(slaveCount, steps), TallyOf(LogAfter(slaveCount, steps)))
    ensures steps != [] ==>
              var last := |steps| - 1;
              StoreAllowed(TallyOf(LogAfter(slaveCount, steps[..last])), LogAfter(slaveCount, steps)[last])
  {
    if steps != [] {
      var before := steps[..|steps| - 1];
      var log := LogAfter(slaveCount, before);
      ProtocolAlways(slaveCount, before);
      ProtocolKept(MasterAfter(slaveCount, before), TallyOf(log), steps[|steps| - 1]);
      assert LogAfter(slaveCount, steps)[..|log|] == log;
    }
  }

  /** The log of a prefix of the steps is a prefix of the log. */
  lemma {:induction false} LogPrefix(slaveCount: nat, steps: seq<Step>, i: nat)
    requires i <= |steps|
    ensures LogAfter(slaveCount, steps)[..i] == LogAfter(slaveCount, steps[..i])
  {
    if i < |steps| {
      var before := steps[..|steps| - 1];
      LogPrefix(slaveCount, before, i);
      assert before[..i] == steps[..i];
      assert LogAfter(slaveCount, steps)[..i] == LogAfter(slaveCount, before)[..i];
    } else {
      assert steps[..i] == steps;
    }
  }

  lemma LogAt(slaveCount: nat, steps: seq<Step>, i: nat)
    requires i < |steps|
    ensures LogAfter(slaveCount, steps)[i] == Next(MasterAfter(slaveCount, steps[..i]), steps[i]).event
  {
    var upTo := steps[..i + 1];
    LogPrefix(slaveCount, steps, i + 1);
    assert upTo[..i] == steps[..i];
    assert LogAfter(slaveCount, steps)[i] == LogAfter(slaveCount, upTo)[i];
  }

  /**
   No state write is lost and none is made for the wrong reason. In every interleaving, each store
   replaces the state its thread read at the start of its cycle or pass. The bus thread only moves
   OPERATIONAL to RECOVERING, after three short cycles or three faulty replies in a row; the monitor
   only moves RECOVERING to OPERATIONAL, when its latest pass read every configured slave as OP, or
   to ERROR, after exactly five passes.
   */
  lemma NoStoreIsLost(slaveCount: nat, steps: seq<Step>, i: nat)
    requires i < |steps|
    ensures var log := LogAfter(slaveCount, steps); StoreAllowed(TallyOf(log[..i]), log[i])
  {
    var upTo := steps[..i + 1];
    ProtocolAlways(slaveCount, upTo);
    assert upTo[..i] == steps[..i];
    LogPrefix(slaveCount, steps, i);
    LogPrefix(slaveCount, steps, i + 1);
    assert LogAfter(slaveCount, upTo)[i] == LogAfter(slaveCount, steps)[i];
  }

  /** While a cycle that read OPERATIONAL, or a pass that read RECOVERING, is under way, that is the state. */
  lemma OwnerSeesItsState(slaveCount: nat, steps: seq<Step>)
    ensures var m := MasterAfter(slaveCount, steps);
            && (BusOwns(m.bus) ==> m.busState.Operational?)
            && (MonOwns(m.mon) ==> m.busState.Recovering?)
  {
    ProtocolAlways(slaveCount, steps);
  }

  lemma ThreadStepLeaves(m: Master, step: Step)
    requires Ownership(m) && !step.CtlStep? && !Exchanging(m.busState)
    ensures Next(m, step).m.busState == m.busState
  {
  }

  /** Neither thread leaves ERROR, or any state of a start or stop. */
  lemma ThreadsLeaveErrorAlone(slaveCount: nat, steps: seq<Step>, step: Step)
    requires !step.CtlStep?
    ensures var m := MasterAfter(slaveCount, steps);
            !Exchanging(m.busState) ==> Next(m, step).m.busState == m.busState
  {
    ProtocolAlways(slaveCount, steps);
    var m := MasterAfter(slaveCount, steps);
    if !Exchanging(m.busState) { ThreadStepLeaves(m, step); }
  }

  /**
   The trigger is prompt: a stay in OPERATIONAL never holds more than three short cycles or three
   faulty replies in a row, and with the third the bus thread is on its way to store RECOVERING and
   begins no other cycle first.
   */
  lemma TriggerIsPrompt(slaveCount: nat, steps: seq<Step>)
    ensures var m := MasterAfter(slaveCount, steps);
            var t := TallyOf(LogAfter(slaveCount, steps));
            && t.stayShort <= 3 && t.stayFaulty <= 3
            && (t.stayShort == 3 || t.stayFaulty == 3 ==> Committed(m.bus) && m.busState.Operational?)
  {
    ProtocolAlways(slaveCount, steps);
  }

  /**
   Recovery is bounded: OPERATIONAL means no attempts, and a stay in RECOVERING that the monitor is
   about to look at has had fewer than five passes, as many as the attempt counter says.
   */
  lemma RecoveryIsBounded(slaveCount: nat, steps: seq<Step>)
    ensures var m := MasterAfter(slaveCount, steps);
            var t := TallyOf(LogAfter(slaveCount, steps));
            && (m.busState.Operational? ==> m.attempts == 0)
            && (m.busState.Recovering? && (m.mon.MTop? || m.mon.MRead? || m.mon.MSlaves?) ==>
                  m.attempts == t.stayPasses < 5 && (t.stayPasses > 0 ==> !t.lastAllOp))
            && t.stayPasses <= 5
  {
    ProtocolAlways(slaveCount, steps);
  }

  // ---------------------------------------------------------------------------------------------
  // Which replies count as faulty
  // ---------------------------------------------------------------------------------------------

  /** What the latest exchange of a run brought back, as the run's own steps say. */
  datatype Input = Input(short: bool, poll: Poll)

  function LatestInput(slaveCount: nat, steps: seq<Step>): Input {
    if steps == [] then Input(false, NoReply)
    else
      var before, last := steps[..|steps| - 1], steps[|steps| - 1];
      if last.BusStep? && MasterAfter(slaveCount, before).bus.BExchange? then Input(last.short, last.poll)
      else LatestInput(slaveCount, before)
  }

  /** How a poll is to be counted on a bus of that many slaves. */
  function Verdict(poll: Poll, slaveCount: nat): PollCount {
    if poll.NoReply? then Missed else if AlPoll.Healthy(poll.status, poll.wkc, slaveCount) then Good else Faulty
  }

  /** The cycle under way holds on to what its exchange brought back, and has judged it rightly. */
  predicate Judging(b: BusPc, slaveCount: nat, input: Input) {
    match b
    case BCollect(_, short, poll) => Input(short, poll) == input
    case BCountFault(_, short, poll) => Input(short, poll) == input && Verdict(poll, slaveCount) == Faulty
    case BCountReply(_, short, poll, count) =>
      Input(short, poll) == input && !poll.NoReply? && Verdict(poll, slaveCount) == count
    case BWkc(_, short, poll, count) => Input(short, poll) == input && Verdict(poll, slaveCount) == count
    case _ => true
  }

  /** What an event says of the latest exchange is so. */
  predicate RightlyJudged(e: Event, slaveCount: nat, input: Input) {
    && (e.Counted? ==>
          e.poll == input.poll && e.poll.Reply?
          && (e.faulty <==> !AlPoll.Healthy(e.poll.status, e.poll.wkc, slaveCount)))
    && (e.Cycle? ==> e.short == input.short && e.poll == input.poll && e.count == Verdict(e.poll, slaveCount))
  }

  lemma JudgedBusStep(m: Master, short: bool, poll: Poll, input: Input)
    requires Judging(m.bus, m.slaveCount, input)
    ensures var o := StepBus(m, short, poll);
            && RightlyJudged(o.event, m.slaveCount, input) && o.m.slaveCount == m.slaveCount
            && Judging(o.m.bus, m.slaveCount, if m.bus.BExchange? then Input(short, poll) else input)
  {
  }

  /** The other threads judge nothing. */
  predicate Unjudged(m: Master, o: Outcome) {
    && !o.event.Counted? && !o.event.Cycle? && o.m.slaveCount == m.slaveCount
    && (o.m.bus == m.bus || o.m.bus.BWake? || o.m.bus.BAbsent?)
  }

  lemma MonJudgesNothing(m: Master, slaves: seq<AlPoll.Word>)
    ensures Unjudged(m, StepMon(m, slaves))
  {
  }

  lemma CtlJudgesNothing(m: Master, command: Command, ok: bool)
    ensures Unjudged(m, StepCtl(m, command, ok))
  {
  }

  lemma JudgedStep(m: Master, step: Step, input: Input)
    requires Judging(m.bus, m.slaveCount, input)
    ensures var o := Next(m, step);
            && RightlyJudged(o.event, m.slaveCount, input) && o.m.slaveCount == m.slaveCount
            && Judging(o.m.bus, m.slaveCount,
                       if step.BusStep? && m.bus.BExchange? then Input(step.short, step.poll) else input)
  {
    match step {
      case BusStep(short, poll) => JudgedBusStep(m, short, poll, input);
      case MonStep(slaves) => MonJudgesNothing(m, slaves);
      case CtlStep(command, ok) => CtlJudgesNothing(m, command, ok);
    }
  }

  lemma {:induction false} JudgedAlways(slaveCount: nat, steps: seq<Step>)
    ensures var m := MasterAfter(slaveCount, steps);
            m.slaveCount == slaveCount && Judging(m.bus, slaveCount, LatestInput(slaveCount, steps))
  {
    if steps != [] {
      var before := steps[..|steps| - 1];
      JudgedAlways(slaveCount, before);
      JudgedStep(MasterAfter(slaveCount, before), steps[|steps| - 1], LatestInput(slaveCount, before));
    }
  }

  /**
   In every run, every counted reply is the one the latest exchange received, and it is counted as
   faulty exactly when it is not healthy for the number of slaves on the bus; every cycle that ends
   is tallied with what that exchange brought back.
   */
  lemma RepliesAreJudged(slaveCount: nat, steps: seq<Step>, i: nat)
    requires i < |steps|
    ensures RightlyJudged(LogAfter(slaveCount, steps)[i], slaveCount, LatestInput(slaveCount, steps[..i]))
  {
    JudgedAlways(slaveCount, steps[..i]);
    JudgedStep(MasterAfter(slaveCount, steps[..i]), steps[i], LatestInput(slaveCount, steps[..i]));
    LogAt(slaveCount, steps, i);
  }

  /** A reply made of the slaves' answers is recorded as faulty exactly when not every slave is in OP. */
  lemma FaultMeansNotAllInOp(slaveCount: nat, steps: seq<Step>, i: nat, answers: seq<AlPoll.Answer>)
    requires i < |steps| && |answers| == slaveCount
    requires forall k | 0 <= k < |answers| :: answers[k].Status? ==> AlPoll.ValidState(answers[k].word)
    requires LatestInput(slaveCount, steps[..i]).poll
             == Reply(AlPoll.OredStatus(answers), AlPoll.WorkingCounter(answers))
    ensures var e := LogAfter(slaveCount, steps)[i];
            && (e.Counted? ==> (e.faulty <==> !AlPoll.EveryInOp(answers)))
            && (e.Cycle? ==> e.count == if AlPoll.EveryInOp(answers) then Good else Faulty)
  {
    RepliesAreJudged(slaveCount, steps, i);
    AlPoll.PollAgreesWithReadingAll(answers);
  }

  // ---------------------------------------------------------------------------------------------
  // The monitor shortcut
  // ---------------------------------------------------------------------------------------------

  /** Since the last start: every counted AL reply, and the monitor's passes that read OPERATIONAL. */
  datatype Record = Record(replies: seq<bool>, first: nat, passes: seq<OpPass>)

  function AddRecord(r: Record, e: Event): Record {
    match e
    case Started => Record([], 0, [])
    case Counted(_, faulty) => r.(replies := r.replies + [faulty])
    case Watching(faults) => r.(first := faults, passes := [])
    case Checked(pass) => r.(passes := r.passes + [pass])
    case _ => r
  }

  function RecordOf(log: seq<Event>): Record {
    if log == [] then Record([], 0, []) else AddRecord(RecordOf(log[..|log| - 1]), log[|log| - 1])
  }

  /** Faulty replies among the first ones counted. */
  function Faults(replies: seq<bool>): nat {
    if replies == [] then 0
    else Faults(replies[..|replies| - 1]) + (if replies[|replies| - 1] then 1 else 0)
  }

  lemma {:induction false} FaultsMonotone(replies: seq<bool>, a: nat, b: nat)
    requires a <= b <= |replies|
    ensures Faults(replies[..a]) <= Faults(replies[..b])
  {
    if a < b {
      FaultsMonotone(replies, a, b - 1);
      assert replies[..b][..b - 1] == replies[..b - 1];
    }
  }

  function PrevFaults(r: Record, i: nat): nat
    requires i <= |r.passes|
  {
    if i == 0 then r.first else r.passes[i - 1].faults
  }

  predicate PassHolds(m: Master, r: Record, i: nat)
    requires i < |r.passes|
  {
    var p := r.passes[i];
    && p.prevFaults == PrevFaults(r, i) <= p.faults <= m.alFaults
    && (p.fullRead <==> !(p.replies != p.prevReplies && p.faults == p.prevFaults))
    && p.replies <= |r.replies|
    && Faults(r.replies[..p.replies]) <= p.faults
  }

  /** Faults counted whose reply is not. */
  function Uncounted(b: BusPc): nat {
    if b.BCountReply? && b.count.Faulty? then 1 else 0
  }

  /** The monitor thread has taken its first reading. */
  predicate Watcher(p: MonPc) {
    !p.MAbsent? && !p.MStart?
  }

  /** Faults are counted before replies, and the monitor reads replies before faults. */
  predicate Watched(m: Master, r: Record) {
    && m.alReplies == |r.replies|
    && m.alFaults == Faults(r.replies) + Uncounted(m.bus)
    && (m.mon.MFaults? ==> m.mon.replies <= |r.replies|)
    && (Watcher(m.mon) ==> m.lastFaults == PrevFaults(r, |r.passes|) <= m.alFaults)
    && forall i | 0 <= i < |r.passes| :: PassHolds(m, r, i)
  }

  lemma BusCountKeepsWatched(m: Master, r: Record, short: bool, poll: Poll)
    requires Watched(m, r) && (m.bus.BCountReply? || m.bus.BCountFault?)
    ensures var o := StepBus(m, short, poll); Watched(o.m, AddRecord(r, o.event))
  {
    var o := StepBus(m, short, poll);
    var r' := AddRecord(r, o.event);
    if m.bus.BCountReply? { assert r'.replies[..|r.replies|] == r.replies; }
    forall i | 0 <= i < |r'.passes| ensures PassHolds(o.m, r', i) {
      assert PassHolds(m, r, i);
      assert r'.replies[..r.passes[i].replies] == r.replies[..r.passes[i].replies];
    }
  }

  /** Steps that leave the counters and the monitor's readings alone. */
  lemma WatchedFrame(m: Master, m': Master, r: Record)
    requires Watched(m, r)
    requires m'.alFaults == m.alFaults && m'.alReplies == m.alReplies && m'.lastFaults == m.lastFaults
    requires Uncounted(m'.bus) == Uncounted(m.bus)
    requires m'.mon.MFaults? ==> m'.mon.replies <= m.alReplies
    requires Watcher(m'.mon) ==> Watcher(m.mon)
    ensures Watched(m', r)
  {
    forall i | 0 <= i < |r.passes| ensures PassHolds(m', r, i) { assert PassHolds(m, r, i); }
  }

  lemma BusOtherKeepsWatched(m: Master, r: Record, short: bool, poll: Poll)
    requires Watched(m, r) && !m.bus.BCountReply? && !m.bus.BCountFault?
    ensures var o := StepBus(m, short, poll); Watched(o.m, AddRecord(r, o.event))
  {
    WatchedFrame(m, StepBus(m, short, poll).m, r);
  }

  lemma MonPassKeepsWatched(m: Master, r: Record, slaves: seq<AlPoll.Word>)
    requires Watched(m, r) && m.mon.MFaults?
    ensures var o := StepMon(m, slaves); Watched(o.m, AddRecord(r, o.event))
  {
    var o := StepMon(m, slaves);
    var r' := AddRecord(r, o.event);
    FaultsMonotone(r.replies, m.mon.replies, |r.replies|);
    assert r.replies[..|r.replies|] == r.replies;
    forall i | 0 <= i < |r'.passes| ensures PassHolds(o.m, r', i) {
      if i < |r.passes| { assert PassHolds(m, r, i); }
    }
  }

  lemma MonOtherKeepsWatched(m: Master, r: Record, slaves: seq<AlPoll.Word>)
    requires Watched(m, r) && !m.mon.MFaults?
    ensures var o := StepMon(m, slaves); Watched(o.m, AddRecord(r, o.event))
  {
    if !m.mon.MStart? { WatchedFrame(m, StepMon(m, slaves).m, r); }
  }

  /** What the monitor's bookkeeping looks at is as before. */
  predicate Framed(m: Master, o: Outcome) {
    && o.m.alFaults == m.alFaults && o.m.alReplies == m.alReplies && o.m.lastFaults == m.lastFaults
    && Uncounted(o.m.bus) == Uncounted(m.bus)
    && (o.m.mon == m.mon || !Watcher(o.m.mon))
    && (o.event.Nothing? || o.event.Store?)
  }

  lemma StartFrame(m: Master, command: Command, ok: bool)
    requires Ownership(m) && Starting(m.ctl) && !(m.ctl.CTransition? && ok)
    ensures Framed(m, StepCtl(m, command, ok))
  {
  }

  lemma StopFrame(m: Master, command: Command, ok: bool)
    requires Ownership(m) && !Starting(m.ctl)
    ensures Framed(m, StepCtl(m, command, ok))
  {
  }

  lemma CtlKeepsWatched(m: Master, r: Record, command: Command, ok: bool)
    requires Watched(m, r) && Ownership(m)
    ensures var o := StepCtl(m, command, ok); Watched(o.m, AddRecord(r, o.event))
  {
    if m.ctl.CTransition? && ok {
      assert Threadless(m);
    } else {
      var o := StepCtl(m, command, ok);
      if Starting(m.ctl) { StartFrame(m, command, ok); } else { StopFrame(m, command, ok); }
      WatchedFrame(m, o.m, r);
    }
  }

  lemma {:induction false} WatchedAlways(slaveCount: nat, steps: seq<Step>)
    ensures Watched(MasterAfter(slaveCount, steps), RecordOf(LogAfter(slaveCount, steps)))
  {
    if steps != [] {
      var before := steps[..|steps| - 1];
      var log := LogAfter(slaveCount, before);
      var m, r := MasterAfter(slaveCount, before), RecordOf(log);
      WatchedAlways(slaveCount, before);
      ProtocolAlways(slaveCount, before);
      assert LogAfter(slaveCount, steps)[..|log|] == log;
      match steps[|steps| - 1] {
        case BusStep(short, poll) =>
          if m.bus.BCountReply? || m.bus.BCountFault? { BusCountKeepsWatched(m, r, short, poll); }
          else { BusOtherKeepsWatched(m, r, short, poll); }
        case MonStep(slaves) =>
          if m.mon.MFaults? { MonPassKeepsWatched(m, r, slaves); } else { MonOtherKeepsWatched(m, r, slaves); }
        case CtlStep(command, ok) => CtlKeepsWatched(m, r, command, ok);
      }
    }
  }

  /** The pass, at or before pass i, whose reading of al_faults first covered fault k, read the slaves. */
  lemma {:induction false} CoveringPass(m: Master, r: Record, i: nat, k: nat)
    requires Watched(m, r) && i < |r.passes| && r.first < k <= r.passes[i].faults
    ensures exists q | 0 <= q <= i ::
              r.passes[q].fullRead && r.passes[q].prevFaults < k <= r.passes[q].faults
  {
    assert PassHolds(m, r, i);
    if k <= r.passes[i].prevFaults {
      CoveringPass(m, r, i - 1, k);
    }
  }

  /**
   The monitor shortcut never hides a fault: every faulty reply recorded after the monitor's first
   reading of al_faults forces a full state read no later than the first OPERATIONAL pass that
   counts that reply. The k-th fault belongs to reply j; the pass that reads the slaves is the one
   that first sees k faults.
   */
  lemma NoHiddenFault(slaveCount: nat, steps: seq<Step>, i: nat, j: nat)
    requires var r := RecordOf(LogAfter(slaveCount, steps));
             && i < |r.passes| && j < |r.replies| && j < r.passes[i].replies
             && r.replies[j] && Faults(r.replies[..j + 1]) > r.first
    ensures var r := RecordOf(LogAfter(slaveCount, steps));
            var k := Faults(r.replies[..j + 1]);
            exists q | 0 <= q <= i :: r.passes[q].fullRead && r.passes[q].prevFaults < k <= r.passes[q].faults
  {
    var m, r := MasterAfter(slaveCount, steps), RecordOf(LogAfter(slaveCount, steps));
    WatchedAlways(slaveCount, steps);
    assert PassHolds(m, r, i);
    FaultsMonotone(r.replies, j + 1, r.passes[i].replies);
    CoveringPass(m, r, i, Faults(r.replies[..j + 1]));
  }

  // ---------------------------------------------------------------------------------------------
  // Starting again
  // ---------------------------------------------------------------------------------------------

  /** A start from IDLE or STOPPED never finds a thread of an earlier start. */
  lemma CleanStart(slaveCount: nat, steps: seq<Step>)
    ensures var m := MasterAfter(slaveCount, steps);
            StartAccepts(m.busState) && !m.busState.Error? ==> Threadless(m)
  {
    ProtocolAlways(slaveCount, steps);
  }

  /**
   The exact condition, on what a caller of start can read: between commands, in every run, no
   thread is left if and only if both running flags are clear; and the start's first store keeps
   the ownership that all results above rest on if and only if they are.
   */
  lemma StartIsCleanExactly(slaveCount: nat, steps: seq<Step>)
    ensures var m := MasterAfter(slaveCount, steps);
            m.ctl.CIdle? ==> (Threadless(m) <==> FlagsClear(m)) && (Ownership(BeginStart(m).m) <==> FlagsClear(m))
  {
    ProtocolAlways(slaveCount, steps);
  }

  /** Between commands, a start goes ahead from IDLE, STOPPED and ERROR with both flags clear, and only then. */
  lemma StartTakenExactly(m: Master, ok: bool)
    requires m.ctl.CIdle?
    ensures var o := StepCtl(m, Start, ok);
            if (m.busState.Idle? || m.busState.Stopped? || m.busState.Error?) && !m.busRunning && !m.monRunning
            then o.m == m.(busState := Scanning, ctl := CScan) else o.m == m
  {
  }

  /** When a stop ends, in every run, no thread is left, the flags and counts are clear and the state is STOPPED. */
  lemma StopLeavesNothing(slaveCount: nat, steps: seq<Step>, command: Command, ok: bool)
    requires MasterAfter(slaveCount, steps).ctl.CFinish?
    ensures var m := StepCtl(MasterAfter(slaveCount, steps), command, ok).m;
            && m.busState.Stopped? && m.ctl.CIdle? && Threadless(m) && FlagsClear(m)
            && m.wkcErrors == 0 && m.attempts == 0
  {
    ProtocolAlways(slaveCount, steps);
  }

  ghost predicate Reachable(slaveCount: nat, m: Master) {
    exists steps: seq<Step> :: MasterAfter(slaveCount, steps) == m
  }

  lemma Reach(slaveCount: nat, m: Master, step: Step) returns (next: Master)
    requires Reachable(slaveCount, m)
    ensures next == Next(m, step).m && Reachable(slaveCount, next)
  {
    var steps: seq<Step> :| MasterAfter(slaveCount, steps) == m;
    next := Next(m, step).m;
    assert (steps + [step])[..|steps|] == steps;
    assert MasterAfter(slaveCount, steps + [step]) == next;
  }

  /** One short cycle that read OPERATIONAL and got no AL reply. */
  lemma ShortCycle(slaveCount: nat, m: Master) returns (next: Master)
    requires Reachable(slaveCount, m) && m.bus.BWake? && m.busRunning && m.busState.Operational?
    requires m.wkcErrors < WKC_ERROR_THRESHOLD && m.alRun < AL_FAULT_THRESHOLD
    ensures Reachable(slaveCount, next)
    ensures next == m.(wkcErrors := m.wkcErrors + 1,
                       bus := if m.wkcErrors == 2 then BTrigger(WkcErrors) else BWake)
  {
    next := m;
    for i := 0 to 5
      invariant Reachable(slaveCount, next)
      invariant next == (if i < 5 then m.(bus := match i case 0 => BWake case 1 => BRead
                                                 case 2 => BExchange(Operational)
                                                 case 3 => BCollect(Operational, true, NoReply)
                                                 case _ => BWkc(Operational, true, NoReply, Missed))
                         else m.(wkcErrors := m.wkcErrors + 1,
                                 bus := if m.wkcErrors == 2 then BTrigger(WkcErrors) else BWake))
    {
      next := Reach(slaveCount, next, BusStep(true, NoReply));
    }
  }

  /** One monitor pass that read RECOVERING and found a slave in SAFE-OP. */
  lemma FailedPass(slaveCount: nat, m: Master) returns (next: Master)
    requires Reachable(slaveCount, m) && m.mon.MTop? && m.monRunning && m.busState.Recovering?
    ensures Reachable(slaveCount, next)
    ensures next == m.(attempts := m.attempts + 1, mon := if m.attempts >= 4 then MStoreError else MTop)
  {
    next := m;
    for i := 0 to 4
      invariant Reachable(slaveCount, next)
      invariant next == (if i < 4 then m.(mon := match i case 0 => MTop case 1 => MRead case 2 => MSlaves
                                                 case _ => MBump)
                         else m.(attempts := m.attempts + 1,
                                 mon := if m.attempts >= 4 then MStoreError else MTop))
    {
      var slaves: seq<AlPoll.Word> := [4];
      assert slaves[0] == 4 && !AllOperational(slaves);
      next := Reach(slaveCount, next, MonStep(slaves));
    }
  }

  /** A running master with the given short-cycle count, state and attempt count. */
  function Running(slaveCount: nat, busState: BusState, wkcErrors: nat, attempts: nat, bus: BusPc, mon: MonPc): Master {
    Initial(slaveCount).(busState := busState, busRunning := true, monRunning := true, wkcErrors := wkcErrors,
                         attempts := attempts, bus := bus, mon := mon)
  }

  lemma ReachStarted(slaveCount: nat) returns (m: Master)
    ensures Reachable(slaveCount, m)
    ensures m == Initial(slaveCount).(busState := Transitioning, ctl := CStoreOp)
  {
    var none: seq<Step> := [];
    m := MasterAfter(slaveCount, none);
    assert Reachable(slaveCount, m);
    m := Reach(slaveCount, m, CtlStep(Start, true));
    m := Reach(slaveCount, m, CtlStep(Start, true));
    m := Reach(slaveCount, m, CtlStep(Start, true));
    m := Reach(slaveCount, m, CtlStep(Start, true));
  }

  lemma ReachRunning(slaveCount: nat) returns (m: Master)
    ensures Reachable(slaveCount, m) && m == Running(slaveCount, Operational, 0, 0, BWake, MTop)
  {
    m := ReachStarted(slaveCount);
    m := Reach(slaveCount, m, CtlStep(Start, true));
    m := Reach(slaveCount, m, CtlStep(Start, true));
    m := Reach(slaveCount, m, CtlStep(Start, true));
    m := Reach(slaveCount, m, MonStep([]));
  }

  lemma ReachRecovering(slaveCount: nat) returns (m: Master)
    ensures Reachable(slaveCount, m) && m == Running(slaveCount, Recovering, 3, 0, BWake, MTop)
  {
    m := ReachRunning(slaveCount);
    for i := 0 to 3
      invariant Reachable(slaveCount, m)
      invariant m == Running(slaveCount, Operational, i, 0, if i == 3 then BTrigger(WkcErrors) else BWake, MTop)
    {
      m := ShortCycle(slaveCount, m);
    }
    m := Reach(slaveCount, m, BusStep(true, NoReply));
    m := Reach(slaveCount, m, BusStep(true, NoReply));
  }

  /**
   A start from ERROR may find both threads of the last start alive: the start accepts the state and
   does not join them, so the ownership argument needs a stop in between.
   */
  lemma RestartFromErrorFindsThreads(slaveCount: nat)
    ensures exists steps: seq<Step> ::
              var m := MasterAfter(slaveCount, steps);
              m.busState.Error? && StartAccepts(m.busState) && !m.bus.BAbsent? && !m.mon.MAbsent? && m.ctl.CIdle?
  {
    var m := ReachRecovering(slaveCount);
    for i := 0 to 5
      invariant Reachable(slaveCount, m)
      invariant m == Running(slaveCount, Recovering, 3, i, BWake, if i == 5 then MStoreError else MTop)
    {
      m := FailedPass(slaveCount, m);
    }
    m := Reach(slaveCount, m, MonStep([]));
  }
}
