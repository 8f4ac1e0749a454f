/**
 * The log ring and the paging rule of the `logs` command (src/log.c, src/control.c).
 *
 * Every entry gets the next id, starting at 1, and is stored at its id modulo
 * the ring size.  A query walks the ids that are still in the ring.  A client
 * pages with the `next_id` of the previous answer.
 *
 * The reference is a log that never forgets: a sequence where the entry with id
 * k is element k - 1.
 */
module LogRing {
  const RING_SIZE: nat := 1000

  // Levels are compared as numbers: debug 0, info 1, warn 2, error 3.
  datatype Message = Message(level: int, text: string)
  datatype Entry = Entry(id: nat, message: Message)

  // ---------------------------------------------------------------- unbounded log

  function Appended(log: seq<Entry>, floor: int, m: Message): (r: seq<Entry>) {
    if m.level < floor then log else log + [Entry(|log| + 1, m)]
  }

  function AppendedAll(log: seq<Entry>, floor: int, ms: seq<Message>): (r: seq<Entry>)
    ensures |log| <= |r| && r[..|log|] == log
    decreases |ms|
  {
    if ms == [] then log else AppendedAll(Appended(log, floor, ms[0]), floor, ms[1..])
  }

  predicate Numbered(log: seq<Entry>) {
    forall i :: 0 <= i < |log| ==> log[i].id == i + 1
  }

  /** The ring keeps the last 1000 entries, or all there are. */
  function Oldest(log: seq<Entry>): (id: nat)
    ensures id >= 1 && |log| + 1 - id == if |log| < 1000 then |log| else 1000
  {
    if |log| + 1 > RING_SIZE then |log| + 1 - RING_SIZE else 1
  }

  predicate Hit(log: seq<Entry>, level: int, id: nat) {
    1 <= id <= |log| && log[id - 1].message.level >= level
  }

  /** The entries at or above a level whose id is in lo..hi and not in `gone`, in id order. */
  function Kept(log: seq<Entry>, lo: nat, hi: nat, level: int, gone: set<nat>): seq<Entry>
    decreases hi
  {
    if hi <= lo then []
    else Kept(log, lo, hi - 1, level, gone) +
         if Hit(log, level, hi - 1) && hi - 1 !in gone then [log[hi - 2]] else []
  }

  function Matching(log: seq<Entry>, lo: nat, hi: nat, level: int): seq<Entry> {
    Kept(log, lo, hi, level, {})
  }

  function Start(log: seq<Entry>, minId: nat): nat {
    if minId < Oldest(log) then Oldest(log) else minId
  }

  function Take(s: seq<Entry>, n: nat): seq<Entry> {
    if |s| <= n then s else s[..n]
  }

  /** The first `max` retained entries at or above the level, from `minId` on. */
  function Queried(log: seq<Entry>, minId: nat, level: int, max: nat): seq<Entry> {
    Take(Matching(log, Start(log, minId), |log| + 1, level), max)
  }

  function Limit(max: int): (r: nat)
    ensures 1 <= r <= 1000 == RING_SIZE
    ensures 1 <= max <= 1000 ==> r == max
    // out of range, the nearest limit
    ensures (max < 1 ==> r == 1) && (max > 1000 ==> r == 1000)
  {
    if max < 1 then 1 else if max > RING_SIZE then RING_SIZE else max
  }

  function NextCursor(page: seq<Entry>, log: seq<Entry>): nat {
    if |page| > 0 then page[|page| - 1].id + 1 else |log| + 1
  }

  // ---------------------------------------------------------------- about Kept

  lemma {:induction false} KeptSplit(log: seq<Entry>, lo: nat, mid: nat, hi: nat, level: int, gone: set<nat>)
    requires lo <= mid <= hi
    ensures Kept(log, lo, hi, level, gone) == Kept(log, lo, mid, level, gone) + Kept(log, mid, hi, level, gone)
    decreases hi
  {
    if mid < hi { KeptSplit(log, lo, mid, hi - 1, level, gone); }
  }

  // What is kept depends only on the ids in range.
  lemma {:induction false} KeptSame(log: seq<Entry>, log': seq<Entry>, lo: nat, hi: nat, level: int,
                                    gone: set<nat>, gone': set<nat>)
    requires |log| <= |log'| && log'[..|log|] == log
    requires hi <= |log| + 1
    requires forall id: nat :: lo <= id < hi ==> (id in gone <==> id in gone')
    ensures Kept(log', lo, hi, level, gone') == Kept(log, lo, hi, level, gone)
    decreases hi
  {
    if lo < hi {
      KeptSame(log, log', lo, hi - 1, level, gone, gone');
      if 2 <= hi { assert log'[hi - 2] == log'[..|log|][hi - 2]; }
    }
  }

  lemma {:induction false} KeptNothing(log: seq<Entry>, lo: nat, hi: nat, level: int, gone: set<nat>)
    requires forall id: nat :: lo <= id < hi ==> !Hit(log, level, id) || id in gone
    ensures Kept(log, lo, hi, level, gone) == []
    decreases hi
  {
    if lo < hi { KeptNothing(log, lo, hi - 1, level, gone); }
  }

  /** An entry is kept exactly when its id is in range, at or above the level and not gone. */
  lemma {:induction false} KeptMembers(log: seq<Entry>, lo: nat, hi: nat, level: int, gone: set<nat>, e: Entry)
    requires Numbered(log)
    ensures e in Kept(log, lo, hi, level, gone) <==>
            lo <= e.id < hi && 1 <= e.id <= |log| && log[e.id - 1] == e && e.message.level >= level && e.id !in gone
    decreases hi
  {
    if lo < hi {
      KeptMembers(log, lo, hi - 1, level, gone, e);
      assert Hit(log, level, hi - 1) ==> log[hi - 2].id == hi - 1;
    }
  }

  /** Ids rise strictly: in order, and nothing twice. */
  lemma {:induction false} KeptRises(log: seq<Entry>, lo: nat, hi: nat, level: int, gone: set<nat>)
    requires Numbered(log)
    ensures var k := Kept(log, lo, hi, level, gone);
            forall i, j :: 0 <= i < j < |k| ==> k[i].id < k[j].id
    decreases hi
  {
    if lo < hi {
      KeptRises(log, lo, hi - 1, level, gone);
      var k := Kept(log, lo, hi - 1, level, gone);
      var k' := Kept(log, lo, hi, level, gone);
      forall i, j | 0 <= i < j < |k'| ensures k'[i].id < k'[j].id {
        KeptMembers(log, lo, hi - 1, level, gone, k[i]);
      }
    }
  }

  /** The first n matches are all the matches below the id that follows the n-th. */
  lemma {:induction false} TakeIsPrefix(log: seq<Entry>, lo: nat, hi: nat, level: int, n: nat)
    requires Numbered(log)
    requires 1 <= n
    requires Matching(log, lo, hi, level) != []
    ensures var page := Take(Matching(log, lo, hi, level), n);
            page != [] && lo < page[|page| - 1].id + 1 <= hi &&
            page == Matching(log, lo, page[|page| - 1].id + 1, level)
    decreases hi
  {
    var rest := Matching(log, lo, hi - 1, level);
    if rest == [] {
      assert Take(Matching(log, lo, hi, level), n) == [log[hi - 2]] && log[hi - 2].id == hi - 1;
    } else {
      TakeIsPrefix(log, lo, hi - 1, level, n);
      if Hit(log, level, hi - 1) && |rest| < n {
        assert Take(Matching(log, lo, hi, level), n) == rest + [log[hi - 2]] && log[hi - 2].id == hi - 1;
      } else {
        assert Take(Matching(log, lo, hi, level), n) == Take(rest, n);
      }
    }
  }

  /** A walk that ends at the end of the log, or with `max` matches in hand, has the query's answer. */
  lemma StoppedWalk(log: seq<Entry>, minId: nat, level: int, max: nat, id: nat, found: seq<Entry>)
    requires Start(log, minId) <= id
    requires found == Matching(log, Start(log, minId), id, level)
    requires if id <= |log| then |found| == max else |found| <= max && (id == |log| + 1 || id == Start(log, minId))
    ensures found == Queried(log, minId, level, max)
  {
    if id <= |log| {
      KeptSplit(log, Start(log, minId), id, |log| + 1, level, {});
    }
  }

  /** The messages at or above the floor, in order. */
  function Admitted(floor: int, ms: seq<Message>): seq<Message> {
    if ms == [] then []
    else Admitted(floor, ms[..|ms| - 1]) + if ms[|ms| - 1].level >= floor then [ms[|ms| - 1]] else []
  }

  lemma {:induction false} AppendedLast(log: seq<Entry>, floor: int, ms: seq<Message>)
    requires ms != []
    ensures AppendedAll(log, floor, ms) == Appended(AppendedAll(log, floor, ms[..|ms| - 1]), floor, ms[|ms| - 1])
    decreases |ms|
  {
    if |ms| == 1 {
      assert ms[1..] == [] && ms[..0] == [];
    } else {
      AppendedLast(Appended(log, floor, ms[0]), floor, ms[1..]);
      assert ms[1..][..|ms| - 2] == ms[..|ms| - 1][1..];
    }
  }

  /** What is logged of a series of messages are those at or above the floor, in order, under consecutive ids. */
  lemma {:induction false} LoggedExactly(log: seq<Entry>, floor: int, ms: seq<Message>)
    ensures var all, admitted := AppendedAll(log, floor, ms), Admitted(floor, ms);
            && |all| == |log| + |admitted|
            && forall i | 0 <= i < |admitted| :: all[|log| + i] == Entry(|log| + i + 1, admitted[i])
    decreases |ms|
  {
    if ms != [] {
      AppendedLast(log, floor, ms);
      LoggedExactly(log, floor, ms[..|ms| - 1]);
    }
  }

  lemma {:induction false} AppendedAllNumbered(log: seq<Entry>, floor: int, ms: seq<Message>)
    requires Numbered(log)
    ensures Numbered(AppendedAll(log, floor, ms))
    decreases |ms|
  {
    if ms != [] { AppendedAllNumbered(Appended(log, floor, ms[0]), floor, ms[1..]); }
  }

  // ---------------------------------------------------------------- the ring

  class Ring {
    const ring: array<Entry>
    var nextId: nat
    var floor: int
    ghost var log: seq<Entry>

    ghost predicate Valid()
      reads this, ring
    {
      ring.Length == RING_SIZE &&
      nextId == |log| + 1 &&
      Numbered(log) &&
      (forall id :: Oldest(log) <= id <= |log| ==> ring[id % RING_SIZE] == log[id - 1])
    }

    constructor (floor: int)
      ensures Valid() && fresh(ring)
      ensures log == [] && this.floor == floor
    {
      ring := new Entry[RING_SIZE](_ => Entry(0, Message(0, "")));
      nextId := 1;
      this.floor := floor;
      log := [];
    }

    method Log(m: Message)
      requires Valid()
      modifies this`nextId, this`log, ring
      ensures Valid()
      ensures log == Appended(old(log), floor, m)
    {
      if m.level < floor { return; }
      var e := Entry(nextId, m);
      nextId := nextId + 1;
      ring[e.id % RING_SIZE] := e;
      log := log + [e];
      forall id | Oldest(log) <= id <= |log| ensures ring[id % RING_SIZE] == log[id - 1] {
        SlotsApart(id, e.id);
      }
    }

    method OldestId() returns (id: nat)
      requires Valid()
      ensures id == Oldest(log)
    {
      id := if nextId > RING_SIZE then nextId - RING_SIZE else 1;
    }

    /** `edog_log_query`: fills `out` and returns how many entries it put there. */
    method Query(minId: nat, level: int, out: array<Entry>, max: nat) returns (n: nat)
      requires Valid()
      requires max <= out.Length && out != ring
      modifies out
      ensures n <= max
      ensures out[..n] == Queried(log, minId, level, max)
      ensures Valid()
    {
      n := 0;
      var id := OldestId();
      if minId >= id { id := minId; }
      ghost var start := id;
      while id < nextId && n < max
        invariant start == Start(log, minId) <= id
        invariant id <= nextId || id == start
        invariant n <= max
        invariant Valid()
        invariant out[..n] == Matching(log, start, id, level)
      {
        var e := ring[id % RING_SIZE];
        assert e == log[id - 1];
        if e.message.level >= level {
          out[n] := e;
          n := n + 1;
        }
        id := id + 1;
      }
      StoppedWalk(log, minId, level, max, id, out[..n]);
    }

    /**
     * `logs_response`.  `between` is what other threads log after the query has
     * returned and before `edog_log_next_id` reads the next id.
     */
    method Respond(minId: nat, level: int, max: int, between: seq<Message>) returns (page: seq<Entry>, next: nat)
      requires Valid()
      modifies this`nextId, this`log, ring
      ensures Valid()
      ensures log == AppendedAll(old(log), floor, between)
      ensures page == Queried(old(log), minId, level, Limit(max))
      ensures next == NextCursor(page, log)
    {
      var limit := Limit(max);
      var entries := new Entry[RING_SIZE](_ => Entry(0, Message(0, "")));
      var n := Query(minId, level, entries, limit);
      page := entries[..n];
      var i := 0;
      assert between[0..] == between;
      while i < |between|
        invariant 0 <= i <= |between|
        invariant Valid()
        invariant AppendedAll(log, floor, between[i..]) == AppendedAll(old(log), floor, between)
      {
        assert between[i..][1..] == between[i + 1..];
        Log(between[i]);
        i := i + 1;
      }
      next := if |page| > 0 then page[|page| - 1].id + 1 else nextId;
    }
  }

  lemma SlotsApart(a: nat, b: nat)
    requires b < a + RING_SIZE && a <= b
    ensures a % RING_SIZE == b % RING_SIZE <==> a == b
  {
  }

  // ---------------------------------------------------------------- paging runs

  /** A step of a run: a message is logged, or the client asks for its next page. */
  datatype Step = Logged(message: Message) | Paged(max: int, between: seq<Message>)

  /**
   * The unbounded log, the client's cursor, all it received, and two histories:
   * the matching ids that had left the ring when a page would have reached them,
   * and the matching ids logged behind the back of an empty page.
   */
  datatype State = State(log: seq<Entry>, cursor: nat, got: seq<Entry>, overwritten: set<nat>, slipped: set<nat>)

  function HitsIn(log: seq<Entry>, level: int, lo: nat, hi: nat): set<nat> {
    set id: nat | lo <= id < hi && Hit(log, level, id)
  }

  function Page(s: State, level: int, max: int): seq<Entry> {
    Queried(s.log, s.cursor, level, Limit(max))
  }

  function Next(s: State, floor: int, level: int, step: Step): State {
    match step
    case Logged(m) => s.(log := Appended(s.log, floor, m))
    case Paged(max, between) =>
      var page := Page(s, level, max);
      var log := AppendedAll(s.log, floor, between);
      State(log, NextCursor(page, log), s.got + page,
            s.overwritten + HitsIn(s.log, level, s.cursor, Oldest(s.log)),
            s.slipped + if page == [] then HitsIn(log, level, |s.log| + 1, |log| + 1) else {})
  }

  function Run(s: State, floor: int, level: int, steps: seq<Step>): State
    decreases |steps|
  {
    if steps == [] then s else Run(Next(s, floor, level, steps[0]), floor, level, steps[1..])
  }

  predicate Exact(s: State, first: nat, level: int) {
    Numbered(s.log) &&
    first <= s.cursor <= |s.log| + 1 &&
    (forall id :: id in s.overwritten + s.slipped ==> first <= id < s.cursor && Hit(s.log, level, id)) &&
    s.got == Kept(s.log, first, s.cursor, level, s.overwritten + s.slipped)
  }

  lemma LoggedKeeps(s: State, first: nat, floor: int, level: int, m: Message)
    requires Exact(s, first, level)
    ensures Exact(Next(s, floor, level, Logged(m)), first, level)
  {
    var gone := s.overwritten + s.slipped;
    KeptSame(s.log, Appended(s.log, floor, m), first, s.cursor, level, gone, gone);
  }

  // A page is all matches up to the id it ends with.
  lemma PageIsRange(log: seq<Entry>, cursor: nat, level: int, n: nat)
    requires Numbered(log) && cursor <= |log| + 1 && 1 <= n
    ensures var page := Queried(log, cursor, level, n);
            var end := if page == [] then |log| + 1 else page[|page| - 1].id + 1;
            Start(log, cursor) <= end <= |log| + 1 && page == Matching(log, Start(log, cursor), end, level)
  {
    if Matching(log, Start(log, cursor), |log| + 1, level) != [] {
      TakeIsPrefix(log, Start(log, cursor), |log| + 1, level, n);
    }
  }

  // Between two cursors only the page is kept, if nothing in front of it or behind it is.
  lemma OnlyMiddle(log: seq<Entry>, lo: nat, start: nat, end: nat, hi: nat, level: int, gone: set<nat>)
    requires lo <= start <= end <= hi
    requires forall id: nat :: lo <= id < start ==> !Hit(log, level, id) || id in gone
    requires forall id: nat :: end <= id < hi ==> !Hit(log, level, id) || id in gone
    ensures Kept(log, lo, hi, level, gone) == Kept(log, start, end, level, gone)
  {
    KeptNothing(log, lo, start, level, gone);
    KeptNothing(log, end, hi, level, gone);
    KeptSplit(log, lo, start, hi, level, gone);
    KeptSplit(log, start, end, hi, level, gone);
  }

  /**
   * A page holds exactly the matches between the old cursor and the new one that
   * are neither overwritten nor slipped: `gone` has those below the oldest id and,
   * after an empty page, those logged since, and none of those in the log from
   * where the page starts.
   */
  lemma PageFills(log: seq<Entry>, log': seq<Entry>, cursor: nat, level: int, n: nat, gone: set<nat>)
    requires Numbered(log) && cursor <= |log| + 1 && 1 <= n
    requires |log| <= |log'| && log'[..|log|] == log
    requires HitsIn(log, level, cursor, Oldest(log)) <= gone
    requires Queried(log, cursor, level, n) == [] ==> HitsIn(log', level, |log| + 1, |log'| + 1) <= gone
    requires forall id :: id in gone ==> id < Start(log, cursor) || id > |log|
    ensures var page := Queried(log, cursor, level, n);
            var next := NextCursor(page, log');
            cursor <= next <= |log'| + 1 && Oldest(log) <= next &&
            Kept(log', cursor, next, level, gone) == page
  {
    var page := Queried(log, cursor, level, n);
    var start, next := Start(log, cursor), NextCursor(page, log');
    var end := if page == [] then |log| + 1 else next;
    PageIsRange(log, cursor, level, n);
    KeptSame(log, log', start, end, level, {}, gone);
    forall id: nat | cursor <= id < start && Hit(log', level, id) ensures id in gone {
      assert log'[id - 1] == log'[..|log|][id - 1];
      assert id in HitsIn(log, level, cursor, Oldest(log));
    }
    forall id: nat | end <= id < next && Hit(log', level, id) ensures id in gone {
      assert id in HitsIn(log', level, |log| + 1, |log'| + 1);
    }
    OnlyMiddle(log', cursor, start, end, next, level, gone);
  }

  lemma PagedGone(s: State, first: nat, floor: int, level: int, max: int, between: seq<Message>)
    requires Exact(s, first, level)
    ensures var t := Next(s, floor, level, Paged(max, between));
            forall id :: id in t.overwritten + t.slipped ==>
              first <= id && Hit(t.log, level, id) &&
              (id < Start(s.log, s.cursor) || (Page(s, level, max) == [] && id > |s.log|))
  {
    var t := Next(s, floor, level, Paged(max, between));
    forall id: nat | Hit(s.log, level, id) ensures Hit(t.log, level, id) {
      assert t.log[id - 1] == t.log[..|s.log|][id - 1];
    }
  }

  lemma PagedGot(s: State, first: nat, level: int, log: seq<Entry>, cursor: nat, page: seq<Entry>, gone: set<nat>)
    requires Exact(s, first, level) && s.cursor <= cursor
    requires |s.log| <= |log| && log[..|s.log|] == s.log
    requires forall id: nat :: id < s.cursor ==> (id in gone <==> id in s.overwritten + s.slipped)
    requires Kept(log, s.cursor, cursor, level, gone) == page
    ensures s.got + page == Kept(log, first, cursor, level, gone)
  {
    KeptSame(s.log, log, first, s.cursor, level, s.overwritten + s.slipped, gone);
    KeptSplit(log, first, s.cursor, cursor, level, gone);
  }

  lemma PagedKeeps(s: State, first: nat, floor: int, level: int, max: int, between: seq<Message>)
    requires Exact(s, first, level)
    ensures Exact(Next(s, floor, level, Paged(max, between)), first, level)
  {
    var t := Next(s, floor, level, Paged(max, between));
    PagedGone(s, first, floor, level, max, between);
    PageFills(s.log, t.log, s.cursor, level, Limit(max), t.overwritten + t.slipped);
    AppendedAllNumbered(s.log, floor, between);
    PagedGot(s, first, level, t.log, t.cursor, Page(s, level, max), t.overwritten + t.slipped);
  }

  /**
   * Over every run of log calls and pages, what the client received is exactly
   * the matching entries it has paged past, in order and once each, without the
   * overwritten and the slipped ones.
   */
  lemma {:induction false} PagingIsExact(s: State, first: nat, floor: int, level: int, steps: seq<Step>)
    requires Exact(s, first, level)
    ensures Exact(Run(s, floor, level, steps), first, level)
    decreases |steps|
  {
    if steps != [] {
      match steps[0] {
        case Logged(m) => LoggedKeeps(s, first, floor, level, m);
        case Paged(max, between) => PagedKeeps(s, first, floor, level, max, between);
      }
      PagingIsExact(Next(s, floor, level, steps[0]), first, floor, level, steps[1..]);
    }
  }

  /** No message of ms is logged at or above the level. */
  predicate Unmatched(ms: seq<Message>, floor: int, level: int) {
    ms == [] || ((ms[0].level < floor || ms[0].level < level) && Unmatched(ms[1..], floor, level))
  }

  /** The page arrives empty and a matching entry is logged before the next id is read. */
  predicate Slips(s: State, floor: int, level: int, step: Step) {
    step.Paged? && Page(s, level, step.max) == [] && !Unmatched(step.between, floor, level)
  }

  /** A matching entry between the client's cursor and the oldest retained one has left the ring. */
  predicate TooLate(s: State, level: int, step: Step) {
    step.Paged? && exists id: nat :: s.cursor <= id < Oldest(s.log) && Hit(s.log, level, id)
  }

  predicate NeverSlips(s: State, floor: int, level: int, steps: seq<Step>)
    decreases |steps|
  {
    steps == [] ||
    (!Slips(s, floor, level, steps[0]) && NeverSlips(Next(s, floor, level, steps[0]), floor, level, steps[1..]))
  }

  predicate NeverLate(s: State, floor: int, level: int, steps: seq<Step>)
    decreases |steps|
  {
    steps == [] ||
    (!TooLate(s, level, steps[0]) && NeverLate(Next(s, floor, level, steps[0]), floor, level, steps[1..]))
  }

  lemma {:induction false} HitsAppended(log: seq<Entry>, floor: int, ms: seq<Message>, level: int, from: nat)
    requires from <= |log|
    ensures HitsIn(AppendedAll(log, floor, ms), level, from + 1, |AppendedAll(log, floor, ms)| + 1) == {} <==>
            HitsIn(log, level, from + 1, |log| + 1) == {} && Unmatched(ms, floor, level)
    decreases |ms|
  {
    if ms != [] {
      HitsAppended(Appended(log, floor, ms[0]), floor, ms[1..], level, from);
      HitsExtend(log, floor, ms[0], level, from);
    }
  }

  lemma HitsExtend(log: seq<Entry>, floor: int, m: Message, level: int, from: nat)
    requires from <= |log|
    ensures var log' := Appended(log, floor, m);
            HitsIn(log', level, from + 1, |log'| + 1) == {} <==>
            HitsIn(log, level, from + 1, |log| + 1) == {} && (m.level < floor || m.level < level)
  {
    var log' := Appended(log, floor, m);
    var before, after := HitsIn(log, level, from + 1, |log| + 1), HitsIn(log', level, from + 1, |log'| + 1);
    assert forall id :: id in before ==> id in after;
    if m.level >= floor && m.level >= level {
      assert |log| + 1 in after;
    } else {
      assert forall id :: id in after ==> id in before;
    }
  }

  lemma SlipsExactly(s: State, floor: int, level: int, step: Step)
    ensures Next(s, floor, level, step).slipped == s.slipped || Slips(s, floor, level, step)
    ensures Slips(s, floor, level, step) ==> Next(s, floor, level, step).slipped != {}
  {
    if step.Paged? && Page(s, level, step.max) == [] {
      HitsAppended(s.log, floor, step.between, level, |s.log|);
      assert HitsIn(s.log, level, |s.log| + 1, |s.log| + 1) == {};
    }
  }

  lemma HistoryGrows(s: State, floor: int, level: int, step: Step)
    ensures s.slipped <= Next(s, floor, level, step).slipped
    ensures s.overwritten <= Next(s, floor, level, step).overwritten
  {
  }

  /**
   * A matching entry slips past the client exactly when some page of the run is
   * empty and a matching message is logged before its next id is read.
   */
  lemma {:induction false} SlippedExactly(s: State, floor: int, level: int, steps: seq<Step>)
    ensures Run(s, floor, level, steps).slipped == {} <==> s.slipped == {} && NeverSlips(s, floor, level, steps)
    decreases |steps|
  {
    if steps != [] {
      var t := Next(s, floor, level, steps[0]);
      SlipsExactly(s, floor, level, steps[0]);
      HistoryGrows(s, floor, level, steps[0]);
      SlippedExactly(t, floor, level, steps[1..]);
    }
  }

  /** Matching entries are lost to the ring exactly when some page comes too late for one. */
  lemma {:induction false} OverwrittenExactly(s: State, floor: int, level: int, steps: seq<Step>)
    ensures Run(s, floor, level, steps).overwritten == {} <==>
            s.overwritten == {} && NeverLate(s, floor, level, steps)
    decreases |steps|
  {
    if steps != [] {
      var t := Next(s, floor, level, steps[0]);
      HistoryGrows(s, floor, level, steps[0]);
      if TooLate(s, level, steps[0]) {
        var id: nat :| s.cursor <= id < Oldest(s.log) && Hit(s.log, level, id);
        assert id in t.overwritten;
      } else if steps[0].Paged? {
        assert HitsIn(s.log, level, s.cursor, Oldest(s.log)) == {};
      }
      OverwrittenExactly(t, floor, level, steps[1..]);
    }
  }

  /** The client has every matching entry it paged past exactly when none was overwritten and none slipped. */
  lemma CompleteExactly(s: State, first: nat, level: int)
    requires Exact(s, first, level)
    ensures s.got == Matching(s.log, first, s.cursor, level) <==> s.overwritten == {} && s.slipped == {}
  {
    var gone := s.overwritten + s.slipped;
    if gone == {} {
      assert s.overwritten == {} && s.slipped == {};
    } else {
      var id :| id in gone;
      KeptMembers(s.log, first, s.cursor, level, gone, s.log[id - 1]);
      KeptMembers(s.log, first, s.cursor, level, {}, s.log[id - 1]);
      assert s.log[id - 1].id == id;
    }
  }

  /**
   * The exact condition for paging to deliver everything, from any first id on, id
   * 0 of a client that names none included: the client has received every matching
   * entry below its cursor if and only if no page came too late for a matching
   * entry and none was overtaken between query and next id.
   */
  lemma NothingMissed(log: seq<Entry>, first: nat, floor: int, level: int, steps: seq<Step>)
    requires Numbered(log) && first <= |log| + 1
    ensures var s := State(log, first, [], {}, {});
            var t := Run(s, floor, level, steps);
            t.got == Matching(t.log, first, t.cursor, level) <==>
            NeverSlips(s, floor, level, steps) && NeverLate(s, floor, level, steps)
  {
    var s := State(log, first, [], {}, {});
    PagingIsExact(s, first, floor, level, steps);
    SlippedExactly(s, floor, level, steps);
    OverwrittenExactly(s, floor, level, steps);
    CompleteExactly(Run(s, floor, level, steps), first, level);
  }

  /** A first id beyond the log is answered with an empty page and the next id to be assigned. */
  lemma AheadIsReset(s: State, floor: int, level: int, max: int, between: seq<Message>)
    requires s.cursor > |s.log| + 1
    ensures var t := Next(s, floor, level, Paged(max, between));
            t.got == s.got && t.cursor == |t.log| + 1
  {
    assert Matching(s.log, Start(s.log, s.cursor), |s.log| + 1, level) == [];
  }

  /** What the client is missing was really overwritten, or really slipped: a received entry is neither. */
  lemma ReceivedOnce(s: State, first: nat, level: int, e: Entry)
    requires Exact(s, first, level)
    ensures e in s.got <==>
            first <= e.id < s.cursor && 1 <= e.id <= |s.log| && s.log[e.id - 1] == e && e.message.level >= level &&
            e.id !in s.overwritten && e.id !in s.slipped
    ensures forall i, j :: 0 <= i < j < |s.got| ==> s.got[i].id < s.got[j].id
  {
    KeptMembers(s.log, first, s.cursor, level, s.overwritten + s.slipped, e);
    KeptRises(s.log, first, s.cursor, level, s.overwritten + s.slipped);
  }

  function Polls(max: int, n: nat): seq<Step> {
    if n == 0 then [] else [Paged(max, [])] + Polls(max, n - 1)
  }

  lemma PollFirst(s: State, first: nat, floor: int, level: int, max: int, n: nat)
    requires Exact(s, first, level) && n > 0
    ensures var t := Next(s, floor, level, Paged(max, []));
            Exact(t, first, level) && t.log == s.log &&
            t.cursor == NextCursor(Queried(s.log, s.cursor, level, Limit(max)), s.log) &&
            Run(s, floor, level, Polls(max, n)) == Run(t, floor, level, Polls(max, n - 1))
  {
    assert Polls(max, n)[0] == Paged(max, []) && Polls(max, n)[1..] == Polls(max, n - 1);
    PagedKeeps(s, first, floor, level, max, []);
  }

  /**
   * Paging catches up: while nothing is logged, one page more than there are
   * matches left brings the cursor to the next id to be assigned.
   */
  lemma {:induction false} PagingCatchesUp(s: State, first: nat, floor: int, level: int, max: int, n: nat)
    requires Exact(s, first, level)
    requires n > |Matching(s.log, Start(s.log, s.cursor), |s.log| + 1, level)|
    ensures Run(s, floor, level, Polls(max, n)).cursor == |s.log| + 1
    ensures Run(s, floor, level, Polls(max, n)).log == s.log
    decreases n
  {
    PollFirst(s, first, floor, level, max, n);
    var t := Next(s, floor, level, Paged(max, []));
    if Matching(s.log, Start(s.log, s.cursor), |s.log| + 1, level) == [] {
      StaysCaughtUp(t, first, floor, level, max, n - 1);
    } else {
      PageLeavesLess(s.log, s.cursor, level, Limit(max));
      assert Start(t.log, t.cursor) == t.cursor;
      PagingCatchesUp(t, first, floor, level, max, n - 1);
    }
  }

  lemma LessBehind(log: seq<Entry>, start: nat, end: nat, hi: nat, level: int)
    requires start <= end <= hi && Matching(log, start, end, level) != []
    ensures |Matching(log, end, hi, level)| < |Matching(log, start, hi, level)|
  {
    KeptSplit(log, start, end, hi, level, {});
  }

  lemma PageLeavesLess(log: seq<Entry>, cursor: nat, level: int, n: nat)
    requires Numbered(log) && cursor <= |log| + 1 && 1 <= n
    requires Matching(log, Start(log, cursor), |log| + 1, level) != []
    ensures var page := Queried(log, cursor, level, n);
            page != [] && Start(log, cursor) < page[|page| - 1].id + 1 <= |log| + 1 &&
            |Matching(log, page[|page| - 1].id + 1, |log| + 1, level)| <
              |Matching(log, Start(log, cursor), |log| + 1, level)|
  {
    var page, start, hi := Queried(log, cursor, level, n), Start(log, cursor), |log| + 1;
    TakeIsPrefix(log, start, hi, level, n);
    LessBehind(log, start, page[|page| - 1].id + 1, hi, level);
  }

  lemma {:induction false} StaysCaughtUp(s: State, first: nat, floor: int, level: int, max: int, n: nat)
    requires Exact(s, first, level) && s.cursor == |s.log| + 1
    ensures Run(s, floor, level, Polls(max, n)).cursor == |s.log| + 1
    ensures Run(s, floor, level, Polls(max, n)).log == s.log
    decreases n
  {
    if n > 0 {
      PollFirst(s, first, floor, level, max, n);
      assert Matching(s.log, |s.log| + 1, |s.log| + 1, level) == [];
      StaysCaughtUp(Next(s, floor, level, Paged(max, [])), first, floor, level, max, n - 1);
    }
  }

  /** One message logged between an empty page and its next id is never delivered. */
  lemma SlipLosesAnEntry(m: Message)
    ensures var s := State([], 1, [], {}, {});
            var t := Run(s, m.level, m.level, [Paged(500, [m]), Paged(500, [])]);
            t.log == [Entry(1, m)] && t.cursor == 2 && t.got == [] && t.slipped == {1} && t.overwritten == {}
  {
    var s := State([], 1, [], {}, {});
    var first, second := Paged(500, [m]), Paged(500, []);
    assert AppendedAll([], m.level, [m]) == [Entry(1, m)];
    var t := Next(s, m.level, m.level, first);
    assert Page(s, m.level, 500) == [];
    assert t.log == [Entry(1, m)] && t.cursor == 2;
    assert HitsIn(t.log, m.level, 1, 2) == {1} by { assert Hit(t.log, m.level, 1); }
    assert HitsIn([], m.level, 1, 1) == {} && HitsIn(t.log, m.level, 2, 1) == {};
    assert Page(t, m.level, 500) == [];
    assert [first, second][1..] == [second] && [second][1..] == [];
    var u := Next(t, m.level, m.level, second);
    assert Run(s, m.level, m.level, [first, second]) == Run(t, m.level, m.level, [second]) == u;
    assert u.log == t.log && u.cursor == 2;
  }
}
