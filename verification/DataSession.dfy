/**
 One master's cyclic data session: the bus thread drains the client's output frames and writes the
 newest into the output region, or drives the safe state; the control thread opens and closes.
 */
module DataSession {
  import opened Basics
  import opened Frame

  const DATA_TIMEOUT_MS := 100

  datatype Config = Config(outBytes: nat, master: Byte, cycleTimeUs: int)

  /** A datagram as it was sent, and whether its sender is the session's client. */
  datatype Datagram = Datagram(bytes: seq<Byte>, fromPeer: bool)

  /** What can be seen of a session from outside. */
  datatype View = View(
    open: bool, session: U64, rxSeen: bool, rxLastSeq: U32, quiet: U32, zeroed: bool,
    region: seq<Byte>, framesRx: nat, framesDropped: nat, watchdogTrips: nat)

  /** An output frame with the whole output image and any flags. */
  function FlaggedFrame(c: Config, session: U64, sequence: U32, flags: Byte, payload: seq<Byte>): Datagram
    requires c.outBytes <= MAX_PAYLOAD
  {
    Datagram(HeaderBytes(OutputHeader(c, session, sequence, flags)) + payload, true)
  }

  function OutputHeader(c: Config, session: U64, sequence: U32, flags: Byte): Header
    requires c.outBytes <= MAX_PAYLOAD
  {
    Header(PROTOCOL_VERSION, KIND_OUTPUTS, c.master, flags, session, sequence, c.outBytes, 0)
  }

  /** The output frame the client sends: always VALID. */
  function OutputFrame(c: Config, session: U64, sequence: U32, payload: seq<Byte>): Datagram
    requires c.outBytes <= MAX_PAYLOAD
  {
    FlaggedFrame(c, session, sequence, FLAG_VALID, payload)
  }

  function Zeros(n: nat): (z: seq<Byte>)
    ensures |z| == n && forall i | 0 <= i < n :: z[i] == 0
  {
    seq(n, _ => 0)
  }

  /** `timeout_cycles` */
  function TimeoutCycles(c: Config): (n: nat)
    ensures 3 <= n <= 100_000
    // as many whole cycles as fit into 100 ms, but at least 3
    ensures var us := if c.cycleTimeUs > 0 then c.cycleTimeUs else 1000;
            100_000 < (n + 1) * us && (n > 3 ==> n * us <= 100_000)
  {
    var cycleUs := if c.cycleTimeUs > 0 then c.cycleTimeUs else 1000;
    var cycles := DATA_TIMEOUT_MS * 1000 / cycleUs;
    if cycles < 3 then 3 else cycles
  }

  // ---------------------------------------------------------------------------------------------
  // Immediate application: the specification
  // ---------------------------------------------------------------------------------------------

  /** Whether a datagram, at its true length, is an output frame of the session, new or not. */
  predicate Addressed(c: Config, session: U64, d: Datagram) {
    var h := ParseHeader(d.bytes);
    && h.Some? && h.value.kind == KIND_OUTPUTS && h.value.master == c.master
    && h.value.session == session && h.value.payloadLen == c.outBytes && d.fromPeer
  }

  /** Whether it is the next one. */
  predicate Acceptable(c: Config, v: View, d: Datagram) {
    Addressed(c, v.session, d) && (v.rxSeen ==> Newer(ParseHeader(d.bytes).value.sequence, v.rxLastSeq))
  }

  predicate IsValid(d: Datagram)
    requires ParseHeader(d.bytes).Some?
  {
    ParseHeader(d.bytes).value.flags % 2 == FLAG_VALID
  }

  function Payload(d: Datagram): seq<Byte>
    requires ParseHeader(d.bytes).Some?
  {
    d.bytes[HEADER_SIZE..]
  }

  /** The session had it applied the datagram the moment it arrived. */
  function Arrive(c: Config, v: View, d: Datagram): View {
    if !Acceptable(c, v, d) then v.(framesDropped := v.framesDropped + 1)
    else v.(rxSeen := true, rxLastSeq := ParseHeader(d.bytes).value.sequence, quiet := 0,
            region := if IsValid(d) then Payload(d) else Zeros(c.outBytes), zeroed := !IsValid(d),
            framesRx := v.framesRx + 1)
  }

  function ArriveAll(c: Config, v: View, queue: seq<Datagram>): View {
    if queue == [] then v else Arrive(c, ArriveAll(c, v, queue[..|queue| - 1]), queue[|queue| - 1])
  }

  /** A lock-holding cycle of an open session without a new frame. */
  function QuietCycle(c: Config, v: View): View {
    var quiet := (v.quiet + 1) % 0x1_0000_0000;
    if quiet > TimeoutCycles(c) && !v.zeroed then
      v.(quiet := quiet, region := Zeros(c.outBytes), zeroed := true, watchdogTrips := v.watchdogTrips + 1)
    else v.(quiet := quiet)
  }

  function Cycle(c: Config, v: View, queue: seq<Datagram>): View {
    if !v.open then v.(region := if v.zeroed then v.region else Zeros(c.outBytes), zeroed := true)
    else
      var w := ArriveAll(c, v, queue);
      if w.framesRx > v.framesRx then w else QuietCycle(c, w)
  }

  /** `close_locked` */
  function Close(v: View): View {
    v.(open := false, session := 0, rxSeen := false)
  }

  /** `ecat_data_open` once the endpoint is parsed; `id` is missing when the socket or buffers are. */
  function Open(v: View, id: Option<U64>): View {
    if id.None? then Close(v)
    else View(true, id.value, false, 0, 0, false, v.region, v.framesRx, v.framesDropped, v.watchdogTrips)
  }

  /**
   An output frame of the session, by the bytes of the datagram: it comes from the client, its length
   is right, and magic, version, kind, master, session and payload length stand where they should.
   */
  predicate OutputBytes(c: Config, session: U64, d: Datagram) {
    && d.fromPeer && |d.bytes| == 24 + c.outBytes
    && d.bytes[0] == 'E' as int && d.bytes[1] == 'D' as int && d.bytes[2] == 'O' as int && d.bytes[3] == 'G' as int
    && d.bytes[4] == 1 && d.bytes[5] == 1 && d.bytes[6] == c.master
    && FromLe(d.bytes[8..16]) == session && FromLe(d.bytes[20..22]) == c.outBytes && c.outBytes <= 65483
  }

  lemma AddressedBytes(c: Config, session: U64, d: Datagram)
    ensures Addressed(c, session, d) <==> OutputBytes(c, session, d)
  {
    ParsedBytes(d.bytes);
  }

  /** Exactly which datagrams are accepted, and all that an arrival changes, by the bytes of the datagram. */
  lemma AcceptedExactly(c: Config, v: View, d: Datagram)
    ensures Acceptable(c, v, d) <==>
              OutputBytes(c, v.session, d) && (v.rxSeen ==> Newer(U(d.bytes[16..20]), v.rxLastSeq))
    ensures !Acceptable(c, v, d) ==> Arrive(c, v, d) == v.(framesDropped := v.framesDropped + 1)
    ensures Acceptable(c, v, d) ==>
              var valid := d.bytes[7] % 2 == 1;
              Arrive(c, v, d) == v.(rxSeen := true, rxLastSeq := U(d.bytes[16..20]), quiet := 0, zeroed := !valid,
                                    region := if valid then d.bytes[24..] else Zeros(c.outBytes),
                                    framesRx := v.framesRx + 1)
  {
    Widths();
    ParsedBytes(d.bytes);
  }

  // ---------------------------------------------------------------------------------------------
  // The session as the code keeps it
  // ---------------------------------------------------------------------------------------------

  /** A datagram longer than the receive buffer arrives cut, and is refused just as it would be whole. */
  lemma CutChangesNothing(c: Config, bytes: seq<Byte>, cut: seq<Byte>)
    requires cut == if |bytes| <= HEADER_SIZE + c.outBytes + 1 then bytes else bytes[..HEADER_SIZE + c.outBytes + 1]
    ensures cut == bytes
            || (&& (ParseHeader(cut).Some? ==> ParseHeader(cut).value.payloadLen != c.outBytes)
                && (ParseHeader(bytes).Some? ==> ParseHeader(bytes).value.payloadLen != c.outBytes))
  {
  }

  lemma FrameParses(c: Config, session: U64, sequence: U32, flags: Byte, payload: seq<Byte>)
    requires |payload| == c.outBytes <= MAX_PAYLOAD
    ensures var d := FlaggedFrame(c, session, sequence, flags, payload);
            && ParseHeader(d.bytes) == Some(OutputHeader(c, session, sequence, flags))
            && Addressed(c, session, d) && (IsValid(d) <==> flags % 2 == FLAG_VALID) && Payload(d) == payload
  {
    ParseEncoded(OutputHeader(c, session, sequence, flags), payload);
  }

  class Session {
    const c: Config
    var open: bool
    var session: U64
    var rxSeen: bool
    var rxLastSeq: U32
    var cyclesSinceOutput: U32
    var outputsZeroed: bool
    var framesRx: nat
    var framesDropped: nat
    var watchdogTrips: nat
    const rxBuf: array<Byte>
    const rxLatest: array<Byte>
    const region: array<Byte>

    ghost predicate Valid()
      reads this
    {
      && rxBuf.Length == HEADER_SIZE + c.outBytes + 1
      && rxLatest.Length == region.Length == c.outBytes
      && rxBuf != rxLatest && rxBuf != region && rxLatest != region
    }

    ghost function Viewed(): View
      reads this, region
    {
      View(open, session, rxSeen, rxLastSeq, cyclesSinceOutput, outputsZeroed, region[..],
           framesRx, framesDropped, watchdogTrips)
    }

    /** `ecat_data_init` and `ecat_data_alloc_buffers`, which refuses a larger image */
    constructor (c: Config)
      requires c.outBytes <= MAX_PAYLOAD
      ensures Valid() && fresh(rxBuf) && fresh(rxLatest) && fresh(region)
      ensures this.c == c && Viewed() == View(false, 0, false, 0, 0, false, Zeros(c.outBytes), 0, 0, 0)
    {
      this.c := c;
      open, session, rxSeen, rxLastSeq := false, 0, false, 0;
      cyclesSinceOutput, outputsZeroed := 0, false;
      framesRx, framesDropped, watchdogTrips := 0, 0, 0;
      rxBuf := new Byte[HEADER_SIZE + c.outBytes + 1](_ => 0);
      rxLatest := new Byte[c.outBytes](_ => 0);
      region := new Byte[c.outBytes](_ => 0);
      new;
      assert region[..] == Zeros(c.outBytes);
    }

    method CloseSession()
      requires Valid()
      modifies this
      ensures Valid() && Viewed() == Close(old(Viewed()))
      ensures !open && session == 0 && !rxSeen
      ensures Viewed() == old(Viewed()).(open := open, session := session, rxSeen := rxSeen)
    {
      open := false;
      session := 0;
      rxSeen := false;
    }

    method OpenSession(id: Option<U64>) returns (ok: bool)
      requires Valid()
      modifies this
      ensures Valid() && Viewed() == Open(old(Viewed()), id)
      ensures ok == id.Some?
    {
      CloseSession();
      match id {
        case None => ok := false;
        case Some(value) =>
          session := value;
          rxLastSeq := 0;
          rxSeen := false;
          cyclesSinceOutput := 0;
          outputsZeroed := false;
          open := true;
          ok := true;
      }
    }

    method ZeroRegion()
      requires Valid()
      modifies region
      ensures region[..] == Zeros(c.outBytes)
    {
      for i := 0 to region.Length
        invariant forall k | 0 <= k < i :: region[k] == 0
      {
        region[i] := 0;
      }
      assert region[..] == Zeros(c.outBytes);
    }

    /** `recvfrom` into the receive buffer: what does not fit is cut off. */
    method Receive(d: Datagram) returns (n: nat)
      requires Valid()
      modifies rxBuf
      ensures n <= rxBuf.Length
      ensures rxBuf[..n] == if |d.bytes| <= rxBuf.Length then d.bytes else d.bytes[..rxBuf.Length]
    {
      n := if |d.bytes| <= rxBuf.Length then |d.bytes| else rxBuf.Length;
      for i := 0 to n
        invariant forall k | 0 <= k < i :: rxBuf[k] == d.bytes[k]
      {
        rxBuf[i] := d.bytes[i];
      }
    }

    method Copy(dst: array<Byte>, src: array<Byte>, at: nat)
      requires dst != src && at + dst.Length <= src.Length
      modifies dst
      ensures dst[..] == src[at..at + dst.Length]
    {
      for i := 0 to dst.Length
        invariant forall k | 0 <= k < i :: dst[k] == src[at + k]
      {
        dst[i] := src[at + i];
      }
    }

    /** The decision on one received datagram: the accepted header, or None to drop it. */
    method Judge(d: Datagram) returns (r: Option<Header>)
      requires Valid()
      modifies rxBuf
      ensures r == if Acceptable(c, Viewed(), d) then ParseHeader(d.bytes) else None
      ensures r.Some? ==> rxBuf[HEADER_SIZE..HEADER_SIZE + c.outBytes] == Payload(d)
    {
      var n := Receive(d);
      var h := DecodeHeader(rxBuf, n);
      CutChangesNothing(c, d.bytes, rxBuf[..n]);
      if h.None? || h.value.kind != KIND_OUTPUTS || h.value.master != c.master || h.value.session != session
         || h.value.payloadLen != c.outBytes || !d.fromPeer
         || (rxSeen && !Newer(h.value.sequence, rxLastSeq)) {
        return None;
      }
      EncodeParsed(d.bytes);
      assert rxBuf[..n] == d.bytes;
      assert rxBuf[HEADER_SIZE..HEADER_SIZE + c.outBytes] == rxBuf[..n][HEADER_SIZE..];
      return h;
    }

    /**
     What the drain loop records of a datagram; w and w' are the session before and after it, with
     every datagram applied on arrival.
     */
    method Note(h: Option<Header>, haveNew: bool, latestValid: bool, ghost v: View, ghost w: View, ghost w': View)
      returns (haveNew': bool, latestValid': bool)
      requires Valid() && Drained(v, w, haveNew, latestValid)
      requires h.None? ==> w' == w.(framesDropped := w.framesDropped + 1)
      requires h.Some? ==>
                 var valid := h.value.flags % 2 == FLAG_VALID;
                 var payload := rxBuf[HEADER_SIZE..HEADER_SIZE + c.outBytes];
                 w' == w.(rxSeen := true, rxLastSeq := h.value.sequence, quiet := 0, zeroed := !valid,
                          region := if valid then payload else Zeros(c.outBytes), framesRx := w.framesRx + 1)
      modifies this, rxLatest
      ensures Valid() && Drained(v, w', haveNew', latestValid')
    {
      haveNew', latestValid' := haveNew, latestValid;
      if h.None? {
        framesDropped := framesDropped + 1;
        return;
      }
      rxSeen := true;
      rxLastSeq := h.value.sequence;
      latestValid' := h.value.flags % 2 == FLAG_VALID;
      if latestValid' {
        Copy(rxLatest, rxBuf, HEADER_SIZE);
      }
      haveNew' := true;
      framesRx := framesRx + 1;
    }

    method Drain(queue: seq<Datagram>) returns (haveNew: bool, latestValid: bool)
      requires Valid()
      modifies this, rxBuf, rxLatest
      ensures Valid() && Drained(old(Viewed()), ArriveAll(c, old(Viewed()), queue), haveNew, latestValid)
    {
      ghost var v := Viewed();
      haveNew, latestValid := false, false;
      for i := 0 to |queue|
        invariant Valid()
        invariant Drained(v, ArriveAll(c, v, queue[..i]), haveNew, latestValid)
      {
        ghost var w := ArriveAll(c, v, queue[..i]);
        assert queue[..i + 1][..i] == queue[..i];
        assert Acceptable(c, Viewed(), queue[i]) == Acceptable(c, w, queue[i]);
        var h := Judge(queue[i]);
        haveNew, latestValid := Note(h, haveNew, latestValid, v, w, Arrive(c, w, queue[i]));
      }
      assert queue[..|queue|] == queue;
    }

    /**
     `ecat_data_apply_outputs`: drain the socket, then apply the newest accepted frame. The outcome is
     the one of applying every datagram, uncut, on arrival.
     */
    method ApplyOutputs(lockFree: bool, queue: seq<Datagram>)
      requires Valid()
      modifies this, rxBuf, rxLatest, region
      ensures Valid()
      ensures Viewed() == if lockFree then Cycle(c, old(Viewed()), queue) else old(Viewed())
    {
      if !lockFree {
        return;
      }
      if !open {
        if !outputsZeroed {
          ZeroRegion();
          outputsZeroed := true;
        }
        return;
      }
      var haveNew, latestValid := Drain(queue);
      if haveNew {
        if latestValid {
          Copy(region, rxLatest, 0);
          outputsZeroed := false;
        } else {
          ZeroRegion();
          outputsZeroed := true;
        }
        cyclesSinceOutput := 0;
      } else {
        cyclesSinceOutput := (cyclesSinceOutput + 1) % 0x1_0000_0000;
        if cyclesSinceOutput > TimeoutCycles(c) && !outputsZeroed {
          ZeroRegion();
          outputsZeroed := true;
          watchdogTrips := watchdogTrips + 1;
        }
      }
    }

    /** Part-way through the drain: w is the session with the datagrams so far applied on arrival. */
    ghost predicate Drained(v: View, w: View, haveNew: bool, latestValid: bool)
      requires Valid()
      reads this, rxLatest
    {
      && w.open == v.open == open && w.session == v.session == session
      && w.watchdogTrips == v.watchdogTrips == watchdogTrips
      && w.rxSeen == rxSeen && w.rxLastSeq == rxLastSeq
      && w.framesRx == framesRx && w.framesDropped == framesDropped
      && cyclesSinceOutput == v.quiet && outputsZeroed == v.zeroed
      && framesRx >= v.framesRx && (haveNew <==> framesRx > v.framesRx)
      && (!haveNew ==> w.region == v.region && w.zeroed == v.zeroed && w.quiet == v.quiet)
      && (haveNew ==> w.quiet == 0 && w.zeroed == !latestValid
                      && w.region == if latestValid then rxLatest[..] else Zeros(c.outBytes))
    }
  }
}
