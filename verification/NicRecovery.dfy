/**
 * Tuning a network interface so that a crash can be undone (src/iface_state.c).
 *
 * `apply` first rolls back what a crashed process left, captures the settings,
 * tunes the interface and then persists what it captured; `revert` restores the
 * captured settings and removes the file.  A process may die between any two
 * steps.  The steps here are the system calls and ethtool runs, in order; each
 * of them is taken to succeed and every setting to be captured.
 */
module NicRecovery {
  import opened Basics
  import opened StateFile

  datatype Nic = Nic(rx: Int32, tx: Int32, gro: bool, gso: bool, tso: bool)

  /** What comes next in the running call; Idle between calls. */
  datatype Pc =
    | Idle
    | RestoreC(prev: Saved) | RestoreK(prev: Saved) | Unlink
    | CaptureC | CaptureK | TuneC | TuneK
    | OpenTmp | WriteTmp | Rename
    | RevertC | RevertK | RevertUnlink

  /**
   * The interface and the two files survive a crash; the captured settings and
   * whether this process has named the interface do not.
   */
  datatype Host = Host(pc: Pc, nic: Nic, file: Option<string>, tmp: Option<string>, mem: Saved, named: bool)

  function Captured(n: Nic): Saved {
    Saved(true, n.rx, n.tx, true, n.gro, n.gso, n.tso)
  }

  function WithCoalescing(n: Nic, s: Saved): Nic {
    if s.coalescing then n.(rx := s.rx, tx := s.tx) else n
  }

  function WithOffloads(n: Nic, s: Saved): Nic {
    if s.offloads then n.(gro := s.gro, gso := s.gso, tso := s.tso) else n
  }

  function NoCoalescing(n: Nic): Nic {
    n.(rx := 0, tx := 0)
  }

  function NoOffloads(n: Nic): Nic {
    n.(gro := false, gso := false, tso := false)
  }

  function Tuned(n: Nic): Nic {
    NoOffloads(NoCoalescing(n))
  }

  // ---------------------------------------------------------------- steps

  /** `ecat_iface_state_apply` is called. */
  function BeginApply(h: Host, iface: string): Host {
    if h.pc != Idle || iface == "" then h
    else if !ValidName(iface) then h.(mem := BLANK, named := false)
    else h.(mem := BLANK, named := true, pc := if h.file.None? then CaptureC else RestoreC(Load(h.file.value)))
  }

  /** `ecat_iface_state_revert` is called. */
  function BeginRevert(h: Host): Host {
    if h.pc == Idle && h.named then h.(pc := RevertC) else h
  }

  function Forgotten(s: Saved): Saved {
    s.(coalescing := false, offloads := false)
  }

  /** The next step of the running call. */
  function Step(h: Host, iface: string): Host {
    match h.pc
    case Idle => h
    case RestoreC(p) => h.(nic := WithCoalescing(h.nic, p), pc := RestoreK(p))
    case RestoreK(p) => h.(nic := WithOffloads(h.nic, p), pc := Unlink)
    case Unlink => h.(file := None, pc := CaptureC)
    case CaptureC => h.(mem := h.mem.(coalescing := true, rx := h.nic.rx, tx := h.nic.tx), pc := CaptureK)
    case CaptureK =>
      h.(mem := h.mem.(offloads := true, gro := h.nic.gro, gso := h.nic.gso, tso := h.nic.tso), pc := TuneC)
    case TuneC => h.(nic := NoCoalescing(h.nic), pc := TuneK)
    case TuneK => h.(nic := NoOffloads(h.nic), pc := OpenTmp)
    case OpenTmp => h.(tmp := Some(""), pc := WriteTmp)
    case WriteTmp => h.(tmp := Some(Text(iface, h.mem)), pc := Rename)
    case Rename => h.(file := h.tmp, tmp := None, pc := Idle)
    case RevertC => h.(nic := WithCoalescing(h.nic, h.mem), pc := RevertK)
    case RevertK => h.(nic := WithOffloads(h.nic, h.mem), pc := RevertUnlink)
    case RevertUnlink => h.(mem := Forgotten(h.mem), file := None, pc := Idle)
  }

  /** The process dies and a new one starts; the temporary file may hold anything. */
  function Crashed(h: Host, tmp: Option<string>): Host {
    Host(Idle, h.nic, h.file, tmp, BLANK, false)
  }

  datatype Event = Apply | Revert | Advance | Crash(tmp: Option<string>)

  function Next(h: Host, iface: string, e: Event): Host {
    match e
    case Apply => BeginApply(h, iface)
    case Revert => BeginRevert(h)
    case Advance => Step(h, iface)
    case Crash(tmp) => Crashed(h, tmp)
  }

  function Run(h: Host, iface: string, es: seq<Event>): Host
    decreases |es|
  {
    if es == [] then h else Run(Next(h, iface, es[0]), iface, es[1..])
  }

  // ---------------------------------------------------------------- the originals survive

  predicate Holds(file: Option<string>, orig: Nic) {
    file.Some? && Load(file.value) == Captured(orig)
  }

  /** Tuning has begun and the captured settings are not yet in the file. */
  predicate Window(pc: Pc) {
    pc == TuneK || pc == OpenTmp || pc == WriteTmp || pc == Rename
  }

  /** The original settings are still to be had. */
  predicate Kept(h: Host, orig: Nic) {
    h.nic == orig || Holds(h.file, orig) || (Window(h.pc) && h.mem == Captured(orig))
  }

  predicate Nothing(s: Saved) {
    !s.coalescing && !s.offloads
  }

  /** What the memory holds can bring the originals back, or they are in place and it holds nothing. */
  predicate Undoable(h: Host, orig: Nic) {
    (h.mem == Captured(orig) && Holds(h.file, orig)) || (Nothing(h.mem) && h.nic == orig && h.file == None)
  }

  predicate Inv(h: Host, iface: string, orig: Nic) {
    (h.pc != Idle ==> ValidName(iface)) &&
    match h.pc
    case Idle => if h.named then ValidName(iface) && Undoable(h, orig)
                 else (h.nic == orig && h.file == None) || Holds(h.file, orig)
    case RestoreC(p) => p == Captured(orig) && Holds(h.file, orig) && h.mem == BLANK
    case RestoreK(p) => p == Captured(orig) && Holds(h.file, orig) && h.mem == BLANK &&
                        h.nic.rx == orig.rx && h.nic.tx == orig.tx
    case Unlink => h.nic == orig && h.mem == BLANK && Holds(h.file, orig)
    case CaptureC => h.nic == orig && h.mem == BLANK && h.file == None
    case CaptureK => h.nic == orig && h.file == None &&
                     h.mem == BLANK.(coalescing := true, rx := orig.rx, tx := orig.tx)
    case TuneC => h.nic == orig && h.file == None && h.mem == Captured(orig)
    case TuneK => h.nic == NoCoalescing(orig) && h.file == None && h.mem == Captured(orig)
    case OpenTmp => h.nic == Tuned(orig) && h.file == None && h.mem == Captured(orig)
    case WriteTmp => h.nic == Tuned(orig) && h.file == None && h.mem == Captured(orig)
    case Rename => h.nic == Tuned(orig) && h.file == None && h.mem == Captured(orig) &&
                   h.tmp == Some(Text(iface, h.mem))
    case RevertC => Undoable(h, orig)
    case RevertK => Undoable(h, orig) && h.nic.rx == orig.rx && h.nic.tx == orig.tx
    case RevertUnlink => h.nic == orig && (h.file == None || Holds(h.file, orig))
  }

  /** A crash that loses the originals: after the first change made by tuning, before the rename. */
  predicate Loses(h: Host, e: Event, orig: Nic) {
    e.Crash? && Window(h.pc) && h.nic != orig
  }

  predicate NeverLoses(h: Host, iface: string, es: seq<Event>, orig: Nic)
    decreases |es|
  {
    es == [] || (!Loses(h, es[0], orig) && NeverLoses(Next(h, iface, es[0]), iface, es[1..], orig))
  }

  lemma StepKeeps(h: Host, iface: string, orig: Nic)
    requires Inv(h, iface, orig)
    ensures Inv(Step(h, iface), iface, orig)
  {
    if h.pc == Rename { PersistThenLoad(iface, h.mem); }
  }

  lemma EventKeeps(h: Host, iface: string, e: Event, orig: Nic)
    requires Inv(h, iface, orig) && !Loses(h, e, orig)
    ensures Inv(Next(h, iface, e), iface, orig)
  {
    match e
    case Apply =>
    case Revert =>
    case Advance => StepKeeps(h, iface, orig);
    case Crash(tmp) =>
  }

  /**
   * Over every run without such a crash, the originals are in place, in the
   * file, or, while tuning is not yet persisted, in the memory of the live process.
   */
  lemma {:induction false} RunKeeps(h: Host, iface: string, es: seq<Event>, orig: Nic)
    requires Inv(h, iface, orig) && NeverLoses(h, iface, es, orig)
    ensures Inv(Run(h, iface, es), iface, orig) && Kept(Run(h, iface, es), orig)
    decreases |es|
  {
    if es != [] {
      EventKeeps(h, iface, es[0], orig);
      RunKeeps(Next(h, iface, es[0]), iface, es[1..], orig);
    }
  }

  // ---------------------------------------------------------------- after a crash in the window

  predicate ZeroC(s: Saved) {
    s.coalescing ==> s.rx == 0 && s.tx == 0
  }

  predicate ZeroK(s: Saved) {
    s.offloads ==> !s.gro && !s.gso && !s.tso
  }

  /** The half of the settings that tuning zeroed: the coalescing times or the offloads. */
  predicate Zeroed(s: Saved, half: bool) {
    if half then ZeroC(s) else ZeroK(s)
  }

  /** In a call of apply, up to the writing of the file. */
  predicate Applying(pc: Pc) {
    pc.RestoreC? || pc.RestoreK? || pc.Unlink? || pc.CaptureC? || pc.CaptureK? ||
    pc.TuneC? || pc.TuneK? || pc.OpenTmp? || pc.WriteTmp?
  }

  /** Neither the interface nor anything recorded has that half of the originals any more. */
  predicate Lost(h: Host, iface: string, orig: Nic, half: bool) {
    !Zeroed(Captured(orig), half) &&
    Zeroed(Captured(h.nic), half) && Zeroed(h.mem, half) &&
    (h.file.Some? ==> Zeroed(Load(h.file.value), half)) &&
    (h.pc.RestoreC? || h.pc.RestoreK? ==> Zeroed(h.pc.prev, half)) &&
    (Applying(h.pc) ==> ValidName(iface) && Canonical(h.mem)) &&
    (h.pc == Rename ==> h.tmp.Some? && Zeroed(Load(h.tmp.value), half))
  }

  lemma LostHere(h: Host, iface: string, e: Event, orig: Nic) returns (half: bool)
    requires Inv(h, iface, orig) && Loses(h, e, orig)
    ensures Lost(Next(h, iface, e), iface, orig, half)
  {
    half := orig.rx != 0 || orig.tx != 0;
  }

  predicate RollingBack(pc: Pc) {
    pc.RestoreC? || pc.RestoreK? || pc.Unlink?
  }

  predicate Tuning(pc: Pc) {
    pc.CaptureC? || pc.CaptureK? || pc.TuneC? || pc.TuneK?
  }

  predicate Persisting(pc: Pc) {
    pc.OpenTmp? || pc.WriteTmp? || pc.Rename?
  }

  lemma LostRollingBack(h: Host, iface: string, orig: Nic, half: bool)
    requires Lost(h, iface, orig, half) && RollingBack(h.pc)
    ensures Lost(Step(h, iface), iface, orig, half)
  {
  }

  lemma LostTuning(h: Host, iface: string, orig: Nic, half: bool)
    requires Lost(h, iface, orig, half) && Tuning(h.pc)
    ensures Lost(Step(h, iface), iface, orig, half)
  {
  }

  lemma LostPersisting(h: Host, iface: string, orig: Nic, half: bool)
    requires Lost(h, iface, orig, half) && Persisting(h.pc)
    ensures Lost(Step(h, iface), iface, orig, half)
  {
    if h.pc == WriteTmp { PersistThenLoad(iface, h.mem); }
  }

  lemma LostReverting(h: Host, iface: string, orig: Nic, half: bool)
    requires Lost(h, iface, orig, half) && !RollingBack(h.pc) && !Tuning(h.pc) && !Persisting(h.pc)
    ensures Lost(Step(h, iface), iface, orig, half)
  {
  }

  lemma LostStep(h: Host, iface: string, orig: Nic, half: bool)
    requires Lost(h, iface, orig, half)
    ensures Lost(Step(h, iface), iface, orig, half)
  {
    if RollingBack(h.pc) {
      LostRollingBack(h, iface, orig, half);
    } else if Tuning(h.pc) {
      LostTuning(h, iface, orig, half);
    } else if Persisting(h.pc) {
      LostPersisting(h, iface, orig, half);
    } else {
      LostReverting(h, iface, orig, half);
    }
  }

  lemma LostStays(h: Host, iface: string, e: Event, orig: Nic, half: bool)
    requires Lost(h, iface, orig, half)
    ensures Lost(Next(h, iface, e), iface, orig, half)
  {
    if e == Advance { LostStep(h, iface, orig, half); }
  }

  lemma {:induction false} LostForever(h: Host, iface: string, es: seq<Event>, orig: Nic, half: bool)
    requires Lost(h, iface, orig, half)
    ensures Lost(Run(h, iface, es), iface, orig, half)
    decreases |es|
  {
    if es != [] {
      LostStays(h, iface, es[0], orig, half);
      LostForever(Next(h, iface, es[0]), iface, es[1..], orig, half);
    }
  }

  lemma LostIsNotKept(h: Host, iface: string, orig: Nic, half: bool)
    requires Lost(h, iface, orig, half)
    ensures !Kept(h, orig)
  {
  }

  /**
   * The exact condition: after any run the originals can still be had if and only
   * if no crash fell between the first change made by tuning and the rename.
   */
  lemma {:induction false} KeptExactly(h: Host, iface: string, es: seq<Event>, orig: Nic)
    requires Inv(h, iface, orig)
    ensures Kept(Run(h, iface, es), orig) <==> NeverLoses(h, iface, es, orig)
    decreases |es|
  {
    if es == [] {
      RunKeeps(h, iface, es, orig);
    } else if Loses(h, es[0], orig) {
      var half := LostHere(h, iface, es[0], orig);
      LostForever(Next(h, iface, es[0]), iface, es[1..], orig, half);
      LostIsNotKept(Run(h, iface, es), iface, orig, half);
    } else {
      EventKeeps(h, iface, es[0], orig);
      KeptExactly(Next(h, iface, es[0]), iface, es[1..], orig);
    }
  }

  /** The window is real: dying right after the first ethtool call of the first apply leaves nothing to restore from. */
  lemma CrashInWindowLoses(orig: Nic)
    requires orig.rx != 0
    ensures var h := Host(Idle, orig, None, None, BLANK, false);
            var es := [Apply, Advance, Advance, Advance, Crash(None)];
            Inv(h, "eth0", orig) && !Kept(Run(h, "eth0", es), orig)
  {
    var h := Host(Idle, orig, None, None, BLANK, false);
    var es := [Apply, Advance, Advance, Advance, Crash(None)];
    assert es[1..] == [Advance, Advance, Advance, Crash(None)];
    assert es[1..][1..] == [Advance, Advance, Crash(None)];
    assert es[1..][1..][1..] == [Advance, Crash(None)];
    assert es[1..][1..][1..][1..] == [Crash(None)];
    assert ValidName("eth0");
    var a := Next(h, "eth0", Apply);
    var b := Next(Next(Next(a, "eth0", Advance), "eth0", Advance), "eth0", Advance);
    assert b.pc == TuneK;
    assert !NeverLoses(b, "eth0", [Crash(None)], orig);
    KeptExactly(h, "eth0", es, orig);
  }

  // ---------------------------------------------------------------- whole calls

  function Left(pc: Pc): nat {
    match pc
    case Idle => 0
    case RestoreC(_) => 10
    case RestoreK(_) => 9
    case Unlink => 8
    case CaptureC => 7
    case CaptureK => 6
    case TuneC => 5
    case TuneK => 4
    case OpenTmp => 3
    case WriteTmp => 2
    case Rename => 1
    case RevertC => 3
    case RevertK => 2
    case RevertUnlink => 1
  }

  /** The running call is carried through without a crash. */
  function Finished(h: Host, iface: string): Host
    decreases Left(h.pc)
  {
    if h.pc == Idle then h else Finished(Step(h, iface), iface)
  }

  lemma {:induction false} FinishedKeeps(h: Host, iface: string, orig: Nic)
    requires Inv(h, iface, orig)
    ensures Inv(Finished(h, iface), iface, orig) && Finished(h, iface).pc == Idle
    ensures h.pc != Idle && Left(h.pc) <= 3 && !Window(h.pc) ==>
              Finished(h, iface).nic == orig && Finished(h, iface).file == None
    ensures Applying(h.pc) || h.pc == Rename ==>
              var captured := Saved(true, orig.rx, orig.tx, true, orig.gro, orig.gso, orig.tso);
              Finished(h, iface).nic == Nic(0, 0, false, false, false)
              && Finished(h, iface).file == Some(Text(iface, captured))
    decreases Left(h.pc)
  {
    if h.pc != Idle {
      StepKeeps(h, iface, orig);
      FinishedKeeps(Step(h, iface), iface, orig);
      LastSteps(h, iface, orig);
    }
  }

  lemma LastSteps(h: Host, iface: string, orig: Nic)
    requires Inv(h, iface, orig)
    ensures h.pc == RevertUnlink ==> Step(h, iface).nic == orig && Step(h, iface).file == None
    ensures h.pc == Rename ==>
              Step(h, iface).nic == Nic(0, 0, false, false, false)
              && Step(h, iface).file
                 == Some(Text(iface, Saved(true, orig.rx, orig.tx, true, orig.gro, orig.gso, orig.tso)))
  {
  }

  /**
   * After any run without a losing crash, whatever state it left the interface
   * in: an apply carried through tunes the interface and puts the originals into
   * the file, and a revert after it puts them back into place and removes the file.
   */
  lemma ApplyThenRevert(h: Host, iface: string, es: seq<Event>, orig: Nic)
    requires Inv(h, iface, orig) && NeverLoses(h, iface, es, orig) && ValidName(iface)
    requires Run(h, iface, es).pc == Idle
    ensures var on := Finished(BeginApply(Run(h, iface, es), iface), iface);
            var off := Finished(BeginRevert(on), iface);
            on.nic == Nic(0, 0, false, false, false) && Holds(on.file, orig) && off.nic == orig && off.file == None
  {
    RunKeeps(h, iface, es, orig);
    var start := BeginApply(Run(h, iface, es), iface);
    EventKeeps(Run(h, iface, es), iface, Apply, orig);
    FinishedKeeps(start, iface, orig);
    PersistThenLoad(iface, Captured(orig));
    var on := Finished(start, iface);
    assert on.named by { FinishedNamed(start, iface); }
    EventKeeps(on, iface, Revert, orig);
    FinishedKeeps(BeginRevert(on), iface, orig);
  }

  lemma {:induction false} FinishedNamed(h: Host, iface: string)
    ensures Finished(h, iface).named == h.named
    decreases Left(h.pc)
  {
    if h.pc != Idle { FinishedNamed(Step(h, iface), iface); }
  }

  /** Under a name that is no valid interface name, no run changes the interface or the file. */
  lemma {:induction false} InvalidNameTouchesNothing(h: Host, iface: string, es: seq<Event>)
    requires !ValidName(iface) && h.pc == Idle && !h.named
    ensures var t := Run(h, iface, es); t.nic == h.nic && t.file == h.file && t.pc == Idle && !t.named
    decreases |es|
  {
    if es != [] { InvalidNameTouchesNothing(Next(h, iface, es[0]), iface, es[1..]); }
  }

  // ---------------------------------------------------------------- the calls themselves

  /** The interface, its state file and the per-master struct, changed in place by the two calls. */
  class Interface {
    const iface: string
    var nic: Nic
    var file: Option<string>
    var tmp: Option<string>
    var mem: Saved
    var named: bool

    constructor (iface: string, nic: Nic, file: Option<string>)
      ensures this.iface == iface && View() == Host(Idle, nic, file, None, BLANK, false)
    {
      this.iface := iface;
      this.nic := nic;
      this.file := file;
      tmp := None;
      mem := BLANK;
      named := false;
    }

    ghost function View(): Host
      reads this
    {
      Host(Idle, nic, file, tmp, mem, named)
    }

    method Restore(s: Saved)
      modifies this`nic
      ensures nic == WithOffloads(WithCoalescing(old(nic), s), s)
    {
      if s.coalescing { nic := nic.(rx := s.rx, tx := s.tx); }
      if s.offloads { nic := nic.(gro := s.gro, gso := s.gso, tso := s.tso); }
    }

    method RecoverFromCrash()
      modifies this`nic, this`file
      ensures file == None
      ensures nic == if old(file).None? then old(nic)
                     else WithOffloads(WithCoalescing(old(nic), Load(old(file).value)), Load(old(file).value))
    {
      if file == None { return; }
      var prev := ReadFile(file.value);
      Restore(prev);
      file := None;
    }

    method Capture()
      modifies this`mem
      ensures mem == Captured(nic)
    {
      mem := mem.(coalescing := true, rx := nic.rx, tx := nic.tx);
      mem := mem.(offloads := true, gro := nic.gro, gso := nic.gso, tso := nic.tso);
    }

    /** The text goes into a temporary file, which is then renamed. */
    method Persist()
      modifies this`tmp, this`file
      ensures file == Some(Text(iface, mem)) && tmp == None
    {
      var text := WriteText(iface, mem);
      tmp := Some(text);
      file := tmp;
      tmp := None;
    }

    /** `ecat_iface_state_apply` */
    method Apply()
      modifies this
      ensures View() == Finished(BeginApply(old(View()), iface), iface)
    {
      if iface == "" { return; }
      mem := BLANK;
      named := false;
      if !ValidName(iface) { return; }
      named := true;
      RecoverFromCrash();
      ApplyIsItsSteps(old(View()), iface);
      Capture();
      nic := NoOffloads(NoCoalescing(nic));
      Persist();
    }

    /** `ecat_iface_state_revert` */
    method Revert()
      modifies this
      ensures View() == Finished(BeginRevert(old(View())), iface)
    {
      if !named { return; }
      Restore(mem);
      mem := mem.(coalescing := false, offloads := false);
      file := None;
      RevertIsItsSteps(old(View()), iface);
    }
  }

  /** The steps of a revert, one after the other. */
  lemma RevertIsItsSteps(h: Host, iface: string)
    requires h.pc == Idle && h.named
    ensures Finished(BeginRevert(h), iface) ==
            h.(nic := WithOffloads(WithCoalescing(h.nic, h.mem), h.mem), mem := Forgotten(h.mem), file := None)
  {
    var a := BeginRevert(h);
    var b := Step(a, iface);
    var c := Step(b, iface);
    var d := Step(c, iface);
    assert Finished(a, iface) == Finished(b, iface) == Finished(c, iface) == Finished(d, iface) == d;
  }

  /** The interface after the roll back of what a crashed process left. */
  function RolledBack(h: Host): Nic {
    if h.file.None? then h.nic
    else WithOffloads(WithCoalescing(h.nic, Load(h.file.value)), Load(h.file.value))
  }

  lemma TuningIsItsSteps(h: Host, iface: string)
    requires h.pc == CaptureC
    ensures Finished(h, iface) ==
            h.(pc := Idle, nic := Tuned(h.nic), mem := Captured(h.nic), tmp := None,
               file := Some(Text(iface, Captured(h.nic))))
  {
    var a := Step(h, iface);
    var b := Step(a, iface);
    var c := Step(b, iface);
    var d := Step(c, iface);
    assert Finished(h, iface) == Finished(a, iface) == Finished(b, iface) == Finished(c, iface) == Finished(d, iface);
    PersistIsItsSteps(d, iface);
  }

  lemma PersistIsItsSteps(h: Host, iface: string)
    requires h.pc == OpenTmp
    ensures Finished(h, iface) == h.(pc := Idle, tmp := None, file := Some(Text(iface, h.mem)))
  {
    var a := Step(h, iface);
    var b := Step(a, iface);
    var c := Step(b, iface);
    assert Finished(h, iface) == Finished(a, iface) == Finished(b, iface) == Finished(c, iface) == c;
  }

  lemma ApplyIsItsSteps(h: Host, iface: string)
    requires h.pc == Idle && ValidName(iface)
    ensures Finished(BeginApply(h, iface), iface) ==
            Host(Idle, Tuned(RolledBack(h)), Some(Text(iface, Captured(RolledBack(h)))), None,
                 Captured(RolledBack(h)), true)
  {
    var a := BeginApply(h, iface);
    if h.file.None? {
      TuningIsItsSteps(a, iface);
    } else {
      var b := Step(a, iface);
      var c := Step(b, iface);
      var d := Step(c, iface);
      assert Finished(a, iface) == Finished(b, iface) == Finished(c, iface) == Finished(d, iface);
      TuningIsItsSteps(d, iface);
    }
  }
}
