/**
 Request lines on a control connection: bytes arrive in chunks of any size, and each complete line,
 without its line end, is handled once.
 */
module LineFraming {
  import opened Basics

  const NUL: Byte := 0
  const NEWLINE: Byte := 10
  const CR: Byte := 13

  const MAX_LINE := 64 * 1024
  /** What the buffer holds beside the terminating NUL. */
  const ROOM := MAX_LINE - 1

  type Line = seq<Byte>

  /** What handling a line led to: go on, close the connection, or exit the server. */
  datatype Response = Continue | Drop | Exit

  datatype Status = Live | Dropped | Exiting

  /** The lines handled so far, the unfinished line, and whether the connection goes on. */
  datatype Conn = Conn(handled: seq<Line>, rest: seq<Byte>, status: Status)

  // ---------------------------------------------------------------------------------------------
  // The reference: a whole stream at once
  // ---------------------------------------------------------------------------------------------

  /** Where the line that starts at i ends: its newline, unless a NUL comes first. */
  function LineEnd(s: seq<Byte>, i: nat): (end: Option<nat>)
    requires i <= |s|
    ensures end.Some? ==> i <= end.value < |s| && s[end.value] == NEWLINE
    decreases |s| - i
  {
    if i == |s| || s[i] == NUL then None
    else if s[i] == NEWLINE then Some(i)
    else LineEnd(s, i + 1)
  }

  /** Without one trailing CR. */
  function Strip(line: Line): Line {
    if line != [] && line[|line| - 1] == CR then line[..|line| - 1] else line
  }

  /**
   A stream of bytes after some handled lines. `respond` gives the response to the last of a list of
   lines. A line that reaches ROOM bytes without a line end closes the connection.
   */
  function Consume(respond: seq<Line> -> Response, handled: seq<Line>, s: seq<Byte>): Conn
    decreases |s|
  {
    var end := LineEnd(s, 0);
    if end.None? then
      if |s| >= ROOM then Conn(handled, [], Dropped) else Conn(handled, s, Live)
    else if end.value >= ROOM then
      Conn(handled, [], Dropped)
    else
      var line, after := Strip(s[..end.value]), s[end.value + 1..];
      if line == [] then Consume(respond, handled, after)
      else
        match respond(handled + [line])
        case Continue => Consume(respond, handled + [line], after)
        case Drop => Conn(handled + [line], [], Dropped)
        case Exit => Conn(handled + [line], [], Exiting)
  }

  lemma ConsumeLine(respond: seq<Line> -> Response, handled: seq<Line>, s: seq<Byte>, end: nat, line: Line,
                    after: seq<Byte>)
    requires LineEnd(s, 0) == Some(end) && end < ROOM && line == Strip(s[..end]) && after == s[end + 1..]
    ensures line == [] ==> Consume(respond, handled, s) == Consume(respond, handled, after)
    ensures line != [] && respond(handled + [line]) == Continue ==>
              Consume(respond, handled, s) == Consume(respond, handled + [line], after)
    ensures line != [] && respond(handled + [line]) == Drop ==>
              Consume(respond, handled, s) == Conn(handled + [line], [], Dropped)
    ensures line != [] && respond(handled + [line]) == Exit ==>
              Consume(respond, handled, s) == Conn(handled + [line], [], Exiting)
  {
  }

  lemma {:induction false} LineEndExtends(s: seq<Byte>, t: seq<Byte>, i: nat)
    requires i <= |s|
    ensures LineEnd(s, i).Some? ==> LineEnd(s + t, i) == LineEnd(s, i)
    ensures LineEnd(s, i).None? && LineEnd(s + t, i).Some? ==> LineEnd(s + t, i).value >= |s|
    decreases |s| - i
  {
    if i < |s| {
      assert (s + t)[i] == s[i];
      if s[i] != NUL && s[i] != NEWLINE { LineEndExtends(s, t, i + 1); }
    }
  }

  /** Consuming a stream in two pieces is consuming it whole. */
  lemma {:induction false} ConsumeSplit(respond: seq<Line> -> Response, handled: seq<Line>, s: seq<Byte>, t: seq<Byte>)
    ensures var c := Consume(respond, handled, s);
            Consume(respond, handled, s + t) == if c.status.Live? then Consume(respond, c.handled, c.rest + t) else c
    decreases |s|
  {
    LineEndExtends(s, t, 0);
    var end := LineEnd(s, 0);
    if end.Some? && end.value < ROOM {
      var line, after := Strip(s[..end.value]), s[end.value + 1..];
      assert (s + t)[..end.value] == s[..end.value];
      assert (s + t)[end.value + 1..] == after + t;
      if line == [] {
        ConsumeSplit(respond, handled, after, t);
      } else if respond(handled + [line]) == Continue {
        ConsumeSplit(respond, handled + [line], after, t);
      }
    }
  }

  // ---------------------------------------------------------------------------------------------
  // Chunks
  // ---------------------------------------------------------------------------------------------

  /** One received chunk; nothing is read once the connection is closed or the server exits. */
  function Serve(respond: seq<Line> -> Response, c: Conn, chunk: seq<Byte>): Conn {
    if c.status.Live? then Consume(respond, c.handled, c.rest + chunk) else c
  }

  function ServeAll(respond: seq<Line> -> Response, chunks: seq<seq<Byte>>): Conn {
    if chunks == [] then Conn([], [], Live)
    else Serve(respond, ServeAll(respond, chunks[..|chunks| - 1]), chunks[|chunks| - 1])
  }

  function Stream(chunks: seq<seq<Byte>>): seq<Byte> {
    if chunks == [] then [] else Stream(chunks[..|chunks| - 1]) + chunks[|chunks| - 1]
  }

  /**
   Framing does not depend on how the stream was cut: the lines handled, the unfinished line and the
   fate of the connection are those of the whole stream.
   */
  lemma {:induction false} ChunkingIsInvisible(respond: seq<Line> -> Response, chunks: seq<seq<Byte>>)
    ensures ServeAll(respond, chunks) == Consume(respond, [], Stream(chunks))
  {
    if chunks == [] {
      assert LineEnd([], 0).None?;
    } else {
      var before := chunks[..|chunks| - 1];
      ChunkingIsInvisible(respond, before);
      ConsumeSplit(respond, [], Stream(before), chunks[|chunks| - 1]);
    }
  }

  // ---------------------------------------------------------------------------------------------
  // The newline split
  // ---------------------------------------------------------------------------------------------

  /** The complete lines of a stream, stripped, without the empty ones. */
  function Lines(s: seq<Byte>): seq<Line>
    decreases |s|
  {
    var end := LineEnd(s, 0);
    if end.None? then []
    else
      var line, rest := Strip(s[..end.value]), Lines(s[end.value + 1..]);
      if line == [] then rest else [line] + rest
  }

  /** Without NULs a line ends at the first newline. */
  lemma {:induction false} EndIsFirstNewline(s: seq<Byte>, i: nat)
    requires i <= |s| && NUL !in s
    ensures LineEnd(s, i).None? <==> NEWLINE !in s[i..]
    ensures LineEnd(s, i).Some? ==> NEWLINE !in s[i..LineEnd(s, i).value]
    decreases |s| - i
  {
    if i < |s| {
      assert s[i..] == [s[i]] + s[i + 1..] && s[i] in s;
      if s[i] != NEWLINE {
        EndIsFirstNewline(s, i + 1);
        if LineEnd(s, i).Some? {
          assert s[i..LineEnd(s, i).value] == [s[i]] + s[i + 1..LineEnd(s, i).value];
        }
      }
    }
  }

  /** Some line, finished or not, reaches ROOM bytes. */
  predicate HasLongLine(s: seq<Byte>)
    decreases |s|
  {
    var end := LineEnd(s, 0);
    if end.None? then |s| >= ROOM else end.value >= ROOM || HasLongLine(s[end.value + 1..])
  }

  /** The lines before the first that reaches ROOM bytes. */
  function ShortLines(s: seq<Byte>): seq<Line>
    decreases |s|
  {
    var end := LineEnd(s, 0);
    if end.None? || end.value >= ROOM then []
    else
      var line, rest := Strip(s[..end.value]), ShortLines(s[end.value + 1..]);
      if line == [] then rest else [line] + rest
  }

  /** They are a beginning of the newline split, and all of it when no line is long. */
  lemma {:induction false} ShortLinesBegin(s: seq<Byte>)
    ensures ShortLines(s) <= Lines(s)
    ensures !HasLongLine(s) ==> ShortLines(s) == Lines(s)
    decreases |s|
  {
    var end := LineEnd(s, 0);
    if end.Some? && end.value < ROOM { ShortLinesBegin(s[end.value + 1..]); }
  }

  // What a client sends, and what is made of it

  /** A request line with its line end, LF or CR LF, or a line end alone. */
  datatype Sent = Request(text: Line, crlf: bool) | Blank(crlf: bool)

  /** A text that is one line: not empty, without NUL or LF, and not ending in the CR that would be taken off. */
  predicate OneLine(text: Line) {
    text != [] && text[|text| - 1] != 13 && forall i | 0 <= i < |text| :: text[i] != 0 && text[i] != 10
  }

  predicate WellSent(sent: seq<Sent>) {
    forall i | 0 <= i < |sent| :: sent[i].Request? ==> OneLine(sent[i].text) && |sent[i].text| < 65534
  }

  function LineBytes(s: Sent): seq<Byte> {
    (if s.Request? then s.text else []) + (if s.crlf then [13, 10] else [10])
  }

  function SentBytes(sent: seq<Sent>): seq<Byte> {
    if sent == [] then [] else LineBytes(sent[0]) + SentBytes(sent[1..])
  }

  function Texts(sent: seq<Sent>): seq<Line> {
    if sent == [] then []
    else (if sent[0].Request? then [sent[0].text] else []) + Texts(sent[1..])
  }

  lemma {:induction false} LineEndAt(s: seq<Byte>, i: nat, end: nat)
    requires i <= end < |s| && s[end] == 10 && forall k | i <= k < end :: s[k] != 0 && s[k] != 10
    ensures LineEnd(s, i) == Some(end)
    decreases end - i
  {
    if i < end { LineEndAt(s, i + 1, end); }
  }

  /** The first line sent: it ends at its LF, and its text is what is left without CR and LF. */
  lemma FirstSent(first: Sent, rest: seq<Byte>)
    requires first.Request? ==> OneLine(first.text)
    ensures var s, end := LineBytes(first) + rest, |LineBytes(first)| - 1;
            && LineEnd(s, 0) == Some(end) && s[end + 1..] == rest
            && Strip(s[..end]) == if first.Request? then first.text else []
  {
    var text: Line := if first.Request? then first.text else [];
    var s, end := LineBytes(first) + rest, |LineBytes(first)| - 1;
    LineEndAt(s, 0, end);
    assert s[..end] == text + if first.crlf then [13] else [];
    assert s[end + 1..] == rest;
  }

  /**
   Every request sent arrives as one line, whatever line ends the client uses and however many empty
   lines stand between requests; a beginning of a next line behind them is kept.
   */
  lemma {:induction false} RequestsArrive(sent: seq<Sent>, tail: seq<Byte>)
    requires WellSent(sent) && |tail| < 65535 && forall i | 0 <= i < |tail| :: tail[i] != 10
    ensures ShortLines(SentBytes(sent) + tail) == Lines(SentBytes(sent) + tail) == Texts(sent)
    ensures !HasLongLine(SentBytes(sent) + tail)
    decreases |sent|
  {
    if sent == [] {
      assert SentBytes(sent) + tail == tail;
      NoLineEnd(tail, 0);
    } else {
      var rest := SentBytes(sent[1..]) + tail;
      assert SentBytes(sent) + tail == LineBytes(sent[0]) + rest;
      FirstSent(sent[0], rest);
      RequestsArrive(sent[1..], tail);
    }
  }

  lemma {:induction false} NoLineEnd(s: seq<Byte>, i: nat)
    requires i <= |s| && forall k | i <= k < |s| :: s[k] != 10
    ensures LineEnd(s, i).None?
    decreases |s| - i
  {
    if i < |s| { NoLineEnd(s, i + 1); }
  }

  /** The first k lines of u, after those handled, with every response before the k-th to go on. */
  predicate GoneOn(respond: seq<Line> -> Response, handled: seq<Line>, u: seq<Line>, k: nat) {
    k <= |u| && forall j | 1 <= j < k :: respond(handled + u[..j]) == Continue
  }

  lemma GoneOnAfter(respond: seq<Line> -> Response, handled: seq<Line>, line: Line, u: seq<Line>, k: nat)
    requires respond(handled + [line]) == Continue && GoneOn(respond, handled + [line], u, k)
    ensures GoneOn(respond, handled, [line] + u, k + 1)
    ensures handled + ([line] + u)[..k + 1] == handled + [line] + u[..k]
  {
    forall j | 1 <= j < k + 1 ensures respond(handled + ([line] + u)[..j]) == Continue {
      assert handled + ([line] + u)[..j] == handled + [line] + u[..j - 1];
      if j == 1 { assert handled + [line] + u[..0] == handled + [line]; }
    }
  }

  /**
   Where handling stops. The handled lines are the first k of those before a long one; every response
   before the k-th was to go on, and unless all were handled, the k-th was not.
   */
  lemma {:induction false} HandledIsPrefix(respond: seq<Line> -> Response, handled: seq<Line>, s: seq<Byte>)
    returns (k: nat)
    ensures var u := ShortLines(s);
            && GoneOn(respond, handled, u, k)
            && Consume(respond, handled, s).handled == handled + u[..k]
            && (k < |u| ==> k > 0 && respond(handled + u[..k]) != Continue)
    decreases |s|
  {
    var end := LineEnd(s, 0);
    if end.None? || end.value >= ROOM {
      k := 0;
    } else {
      var line, after := Strip(s[..end.value]), s[end.value + 1..];
      ConsumeLine(respond, handled, s, end.value, line, after);
      if line == [] {
        k := HandledIsPrefix(respond, handled, after);
      } else if respond(handled + [line]) == Continue {
        k := HandledIsPrefix(respond, handled + [line], after);
        GoneOnAfter(respond, handled, line, ShortLines(after), k);
        assert ShortLines(s) == [line] + ShortLines(after);
        k := k + 1;
      } else {
        k := 1;
        assert ShortLines(s)[..1] == [line];
      }
    }
  }

  function StatusAfter(r: Response): Status {
    match r
    case Continue => Live
    case Drop => Dropped
    case Exit => Exiting
  }

  /**
   How a connection ends: as the response to the last handled line says, if that was not to go on;
   otherwise it is dropped if some line is long, and alive if none is.
   */
  predicate EndedBy(respond: seq<Line> -> Response, handled: seq<Line>, c: Conn, long: bool) {
    c.status == if |c.handled| > |handled| && respond(c.handled) != Continue then StatusAfter(respond(c.handled))
                else if long then Dropped else Live
  }

  lemma EndedAfter(respond: seq<Line> -> Response, handled: seq<Line>, line: Line, c: Conn, long: bool)
    requires respond(handled + [line]) == Continue && handled + [line] <= c.handled
    requires EndedBy(respond, handled + [line], c, long)
    ensures EndedBy(respond, handled, c, long)
  {
    if |c.handled| == |handled| + 1 { assert c.handled == handled + [line]; }
  }

  lemma {:induction false} EndsForAReason(respond: seq<Line> -> Response, handled: seq<Line>, s: seq<Byte>)
    ensures EndedBy(respond, handled, Consume(respond, handled, s), HasLongLine(s))
    decreases |s|
  {
    var end := LineEnd(s, 0);
    if end.Some? && end.value < ROOM {
      var line, after := Strip(s[..end.value]), s[end.value + 1..];
      if line == [] {
        EndsForAReason(respond, handled, after);
      } else if respond(handled + [line]) == Continue {
        EndsForAReason(respond, handled + [line], after);
        NothingMore(respond, handled + [line], after);
        EndedAfter(respond, handled, line, Consume(respond, handled + [line], after), HasLongLine(after));
      }
    }
  }

  /** As many handled lines as before are the same lines. */
  lemma {:induction false} NothingMore(respond: seq<Line> -> Response, handled: seq<Line>, s: seq<Byte>)
    ensures handled <= Consume(respond, handled, s).handled
    decreases |s|
  {
    var end := LineEnd(s, 0);
    if end.Some? && end.value < ROOM {
      var line, after := Strip(s[..end.value]), s[end.value + 1..];
      ConsumeLine(respond, handled, s, end.value, line, after);
      if line == [] {
        NothingMore(respond, handled, after);
      } else if respond(handled + [line]) == Continue {
        NothingMore(respond, handled + [line], after);
        assert handled <= handled + [line];
      }
    }
  }

  // ---------------------------------------------------------------------------------------------
  // The connection as the server keeps it
  // ---------------------------------------------------------------------------------------------

  class Client {
    const respond: seq<Line> -> Response
    const buf: array<Byte>
    var used: nat
    var status: Status
    var handled: seq<Line>

    ghost predicate Valid()
      reads this
    {
      buf.Length == MAX_LINE && used <= ROOM && (status.Live? ==> used < ROOM)
    }

    ghost function Viewed(): Conn
      requires Valid()
      reads this, buf
    {
      Conn(handled, if status.Live? then buf[..used] else [], status)
    }

    constructor (respond: seq<Line> -> Response)
      ensures Valid() && Viewed() == Conn([], [], Live) && this.respond == respond && fresh(buf)
    {
      this.respond := respond;
      buf := new Byte[MAX_LINE](_ => 0);
      used, status, handled := 0, Live, [];
    }

    /** `strchr` for a newline; the NUL behind the received bytes keeps it inside them. */
    function NewlineFrom(start: nat): (r: Option<nat>)
      requires start <= used < buf.Length && buf[used] == NUL
      reads this, buf
    {
      var end := LineEnd(buf[start..used], 0);
      if end.None? then None else Some(start + end.value)
    }

    /** `recv` appends the chunk to the buffer and terminates it. */
    method Receive(chunk: seq<Byte>)
      requires Valid() && status.Live? && used + |chunk| <= ROOM
      modifies this`used, buf
      ensures buf.Length == MAX_LINE && used <= ROOM
      ensures used == old(used) + |chunk| && buf[used] == NUL && buf[..used] == old(buf[..used]) + chunk
    {
      for i := 0 to |chunk|
        invariant used == old(used) && buf[..used] == old(buf[..used])
        invariant forall k | 0 <= k < i :: buf[used + k] == chunk[k]
      {
        buf[used + i] := chunk[i];
      }
      used := used + |chunk|;
      buf[used] := NUL;
    }

    /** The line from start to its newline at nl becomes a C string, without a trailing CR. */
    method Terminate(start: nat, nl: nat) returns (line: Line)
      requires start <= nl < used <= ROOM && buf.Length == MAX_LINE
      requires LineEnd(buf[start..used], 0) == Some(nl - start)
      modifies buf
      ensures line == Strip(old(buf[start..nl]))
      ensures buf[start] == NUL <==> line == []
      ensures buf[nl + 1..] == old(buf[nl + 1..])
      ensures buf[used] == old(buf[used])
    {
      ghost var s, whole := buf[start..used], buf[start..nl];
      NoNulBefore(s, 0);
      assert forall k | start <= k < nl :: buf[k] == s[k - start] != NUL;
      var stop := nl;
      buf[nl] := NUL;
      if nl > start && buf[nl - 1] == CR {
        buf[nl - 1] := NUL;
        stop := nl - 1;
      }
      line := buf[start..stop];
      assert line == whole[..stop - start] == Strip(whole);
    }

    /** The same, said of the bytes s from start on and of those after the line. */
    method CutLine(start: nat, nl: nat, ghost s: seq<Byte>, ghost after: seq<Byte>) returns (line: Line)
      requires start <= nl < used <= ROOM && buf.Length == MAX_LINE
      requires s == buf[start..used] && after == buf[nl + 1..used] && LineEnd(s, 0) == Some(nl - start)
      modifies buf
      ensures line == Strip(s[..nl - start]) && after == s[nl - start + 1..]
      ensures buf[start] == NUL <==> line == []
      ensures after == buf[nl + 1..used] && buf[used] == old(buf[used])
    {
      assert s[..nl - start] == buf[start..nl];
      assert after == buf[nl + 1..][..used - nl - 1];
      line := Terminate(start, nl);
      assert after == buf[nl + 1..][..used - nl - 1];
    }

    /** `handle_line`, by its effect on the connection. */
    method Handle(line: Line) returns (exit: bool)
      requires status.Live?
      modifies this`handled, this`status, this`used
      ensures handled == old(handled) + [line]
      ensures match respond(handled)
              case Continue => !exit && status.Live? && used == old(used)
              case Drop => !exit && status.Dropped? && used == 0
              case Exit => exit && status.Live? && used == old(used)
    {
      handled := handled + [line];
      exit := false;
      match respond(handled) {
        case Continue =>
        case Drop =>
          status := Dropped;
          used := 0;
        case Exit =>
          exit := true;
      }
    }

    /** How far the splitting loop has come: all that is left to do with `was` is the rest from `start` on. */
    ghost predicate Reached(was: Conn, start: nat, exit: bool)
      reads this, buf
    {
      if exit then 0 < start <= used && status.Live? && was == Conn(handled, [], Exiting)
      else if status.Live? then start <= used <= buf.Length && was == Consume(respond, handled, buf[start..used])
      else status.Dropped? && used == 0 && was == Conn(handled, [], Dropped)
    }

    /** One pass of the splitting loop: the line from start to its newline at nl. */
    method TakeLine(start: nat, nl: nat, ghost was: Conn) returns (exit: bool)
      requires status.Live? && start <= nl < used <= ROOM && buf.Length == MAX_LINE
      requires LineEnd(buf[start..used], 0) == Some(nl - start) && Reached(was, start, false)
      modifies this, buf
      ensures status.Live? ==> used == old(used)
      ensures buf[old(used)] == old(buf[used])
      ensures Reached(was, nl + 1, exit)
    {
      ghost var s, after := buf[start..used], buf[nl + 1..used];
      var line := CutLine(start, nl, s, after);
      ConsumeLine(respond, handled, s, nl - start, line, after);
      exit := false;
      if buf[start] != NUL {
        exit := Handle(line);
      }
    }

    /** `memmove` of what is left to the front of the buffer. */
    method KeepRest(start: nat)
      requires start <= used <= ROOM && buf.Length == MAX_LINE
      modifies this`used, buf
      ensures used == old(used) - start && buf[..used] == old(buf[start..used])
    {
      var rest := used - start;
      for i := 0 to rest
        invariant used == old(used)
        invariant forall k | 0 <= k < i :: buf[k] == old(buf[start + k])
        invariant forall k | start + i <= k < used :: buf[k] == old(buf[k])
      {
        buf[i] := buf[start + i];
      }
      used := rest;
    }

    /** One turn of the splitting loop, which is over when no further line is complete. */
    method Turn(start: nat, ghost was: Conn) returns (more: bool, next: nat, exit: bool)
      requires status.Live? && used <= ROOM && buf.Length == MAX_LINE && buf[used] == NUL && Reached(was, start, false)
      modifies this, buf
      ensures status.Live? ==> used == old(used) && buf[used] == NUL
      ensures Reached(was, next, exit)
      ensures if more then start < next <= old(used) else !exit && status.Live? && LineEnd(buf[next..used], 0).None?
    {
      var nl := NewlineFrom(start);
      if nl.None? {
        return false, start, false;
      }
      exit := TakeLine(start, nl.value, was);
      more, next := true, nl.value + 1;
    }

    /** The splitting loop, until an exit or a close, or until no further line is complete. */
    method SplitLines(ghost was: Conn) returns (start: nat, exit: bool)
      requires status.Live? && used <= ROOM && buf.Length == MAX_LINE && buf[used] == NUL && Reached(was, 0, false)
      modifies this, buf
      ensures status.Live? ==> used == old(used)
      ensures Reached(was, start, exit)
      ensures !exit && status.Live? ==> LineEnd(buf[start..used], 0).None?
    {
      start, exit := 0, false;
      var more := true;
      while more && !exit && status.Live?
        invariant status.Live? ==> used == old(used) && buf[used] == NUL
        invariant Reached(was, start, exit) && start <= ROOM
        invariant !more ==> !exit && status.Live? && LineEnd(buf[start..used], 0).None?
        decreases more, ROOM - start
      {
        more, start, exit := Turn(start, was);
      }
    }

    /**
     `service_client` on what `recv` returned, an empty chunk being end of file or an error. The
     outcome is that of consuming the stream so far and the chunk together.
     */
    method ServiceClient(chunk: seq<Byte>) returns (exit: bool)
      requires Valid() && status.Live? && used + |chunk| <= ROOM
      modifies this, buf
      ensures Valid()
      ensures exit == status.Exiting?
      ensures Viewed() == if chunk == [] then old(Viewed()).(rest := [], status := Dropped)
                          else Serve(respond, old(Viewed()), chunk)
    {
      if |chunk| == 0 {
        status, used := Dropped, 0;
        return false;
      }
      Receive(chunk);
      ghost var was := Consume(respond, handled, buf[..used]);
      assert buf[..used] == buf[0..used];
      var start;
      start, exit := SplitLines(was);
      if !status.Live? {
        return;
      }
      KeepRest(start);
      if used >= ROOM {
        status, used := Dropped, 0;
      }
      if exit {
        status := Exiting;
      }
    }
  }

  lemma {:induction false} NoNulBefore(s: seq<Byte>, i: nat)
    requires i <= |s| && LineEnd(s, i).Some?
    ensures forall k | i <= k < LineEnd(s, i).value :: s[k] != NUL && s[k] != NEWLINE
    decreases |s| - i
  {
    if s[i] != NEWLINE { NoNulBefore(s, i + 1); }
  }
}
