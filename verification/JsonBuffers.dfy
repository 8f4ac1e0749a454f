/**
 * The loops of cJSON's parser and printer (src/cjson/cJSON.c): the parse buffer
 * with its offset and depth, the string buffers sized before they are filled,
 * and the output that grows while a value is printed.
 */
module JsonBuffers {
  import opened Basics
  import opened JsonText
  import opened Json
  import opened JsonDoc

  // ---------------------------------------------------------------- how much a string needs

  /** The plain bytes and escape pairs before the closing quote: what the sizing loop counts. */
  function Units(buf: seq<Byte>, p: nat): nat
    requires p <= |buf|
    decreases |buf| - p
  {
    if p == |buf| || buf[p] == QUOTE then 0
    else if buf[p] != BACKSLASH then 1 + Units(buf, p + 1)
    else if p + 1 == |buf| then 0
    else 1 + Units(buf, p + 2)
  }

  /**
   * From a place where the sizing loop stood, n bytes further the same loop
   * stands there or one byte on, and has counted at least half of the bytes.
   */
  lemma {:induction false} Walk(buf: seq<Byte>, a: nat, n: nat, end: nat) returns (a': nat)
    requires a + n <= end < |buf| && StringEnd(buf, a) == end
    ensures a + n <= a' <= a + n + 1 && a' <= |buf| && StringEnd(buf, a') == end
    ensures 2 * Units(buf, a) >= 2 * Units(buf, a') + (a' - a)
    decreases n
  {
    if n == 0 {
      a' := a;
    } else if buf[a] != BACKSLASH {
      a' := Walk(buf, a + 1, n - 1, end);
    } else if n == 1 {
      a' := a + 2;
    } else {
      a' := Walk(buf, a + 2, n - 2, end);
    }
  }

  /**
   * The copy loop stands at p with room for `room` more bytes.  The sizing loop
   * stood at p too, or at the byte after it, and what it counted from there on
   * fits into the room.
   */
  ghost predicate Fits(buf: seq<Byte>, p: nat, end: nat, room: int)
    requires end < |buf|
  {
    0 <= room &&
    (p < end ==>
       (StringEnd(buf, p) == end && Units(buf, p) <= room) ||
       (StringEnd(buf, p + 1) == end && Units(buf, p + 1) + 1 <= room))
  }

  lemma StepFits(buf: seq<Byte>, p: nat, end: nat, room: int, n: nat, written: nat)
    requires p < end < |buf| && Fits(buf, p, end, room)
    requires if n <= 2 then written == 1 <= n && (n == 1 ==> buf[p] != BACKSLASH)
             else p + n <= end && 6 <= n && 2 * written <= n
    ensures Fits(buf, p + n, end, room - written)
  {
    if n == 1 {
    } else if StringEnd(buf, p) == end && Units(buf, p) <= room {
      if p + n <= end { var a := Walk(buf, p, n, end); }
    } else {
      if p + n <= end { var a := Walk(buf, p + 1, n - 1, end); }
    }
  }

  // ---------------------------------------------------------------- UTF-16 literals

  function Utf8Length(cp: nat): (n: nat)
    requires cp < 0x110000
    ensures n == |Utf8(cp)| && 1 <= n <= 4
  {
    if cp < 0x80 then 1 else if cp < 0x800 then 2 else if cp < 0x10000 then 3 else 4
  }

  function FirstByteMark(n: nat): int {
    if n == 2 then 0xC0 else if n == 3 then 0xE0 else if n == 4 then 0xF0 else 0
  }

  function Shifted(cp: nat, n: nat): nat {
    if n == 0 then cp else Shifted(cp / 64, n - 1)
  }

  lemma {:induction false} ShiftedOnce(cp: nat, n: nat)
    ensures Shifted(cp, n + 1) == Shifted(cp, n) / 64
    decreases n
  {
    if n > 0 { ShiftedOnce(cp / 64, n - 1); }
  }

  lemma Utf8Bytes(cp: nat)
    requires cp < 0x110000
    ensures var n := |Utf8(cp)|;
            Utf8(cp)[0] == Shifted(cp, n - 1) + FirstByteMark(n) &&
            forall k: nat :: 1 <= k < n ==> Utf8(cp)[k] == 0x80 + Shifted(cp, n - 1 - k) % 64
  {
    ShiftedOnce(cp, 0);
    ShiftedOnce(cp, 1);
    ShiftedOnce(cp, 2);
    assert cp / 4096 == cp / 64 / 64;
    assert cp / 262144 == cp / 64 / 64 / 64;
  }

  /**
   * Encodes from the last byte to the first, six bits at a time.  Setting the
   * mark bits of a byte is addition here, since they are clear in what remains.
   */
  method WriteUtf8(cp: nat, out: array<Byte>, at: nat) returns (n: nat)
    requires cp < 0x110000
    requires at + |Utf8(cp)| <= out.Length
    modifies out
    ensures n == |Utf8(cp)|
    ensures out[..at] == old(out[..at])
    ensures out[at..at + n] == Utf8(cp)
  {
    n := Utf8Length(cp);
    Utf8Bytes(cp);
    var rest := cp;
    var k := n - 1;
    while k > 0
      invariant 0 <= k < n
      invariant rest == Shifted(cp, n - 1 - k)
      invariant out[..at] == old(out[..at])
      invariant forall j :: k < j < n ==> out[at + j] == Utf8(cp)[j]
    {
      out[at + k] := 0x80 + rest % 64;
      ShiftedOnce(cp, n - 1 - k);
      rest := rest / 64;
      k := k - 1;
    }
    out[at] := rest + FirstByteMark(n);
  }

  function HexPrefix(buf: seq<Byte>, p: nat, n: nat): int
    requires p + n <= |buf|
  {
    if n == 0 then 0 else HexPrefix(buf, p, n - 1) * 16 + HexValue(buf[p + n - 1])
  }

  lemma HexPrefixIsHex4(buf: seq<Byte>, p: nat)
    requires p + 4 <= |buf|
    requires forall i :: p <= i < p + 4 ==> HexValue(buf[i]) >= 0
    ensures HexPrefix(buf, p, 4) == Hex4(buf, p)
  {
    assert HexPrefix(buf, p, 1) == HexValue(buf[p]);
    assert HexPrefix(buf, p, 2) == HexValue(buf[p]) * 16 + HexValue(buf[p + 1]);
  }

  /** `parse_hex4` */
  method ReadHex4(buf: seq<Byte>, p: nat) returns (h: nat)
    requires p + 4 <= |buf|
    ensures h == Hex4(buf, p)
  {
    h := 0;
    var i := 0;
    while i < 4
      invariant 0 <= i <= 4
      invariant forall k :: p <= k < p + i ==> HexValue(buf[k]) >= 0
      invariant h == HexPrefix(buf, p, i) * (if i == 0 || i == 4 then 1 else 16)
    {
      var digit := HexValue(buf[p + i]);
      if digit < 0 { return 0; }
      h := h + digit;
      if i < 3 { h := h * 16; }
      i := i + 1;
    }
    HexPrefixIsHex4(buf, p);
  }

  /** The code point of a literal and how many bytes it takes; length 0 stands for failure. */
  method ReadLiteral(buf: seq<Byte>, p: nat, end: nat) returns (length: nat, cp: nat)
    requires p < end < |buf|
    ensures length == 0 <==> Utf16Literal(buf, p, end).Failed?
    ensures length > 0 ==>
      cp < 0x110000 && Utf16Literal(buf, p, end) == Parsed(Utf8(cp), p + length) &&
      6 <= length && p + length <= end && 2 * |Utf8(cp)| <= length
  {
    length, cp := 0, 0;
    if end - p < 6 { return; }
    var first := ReadHex4(buf, p + 2);
    if 0xDC00 <= first <= 0xDFFF { return; }
    if 0xD800 <= first <= 0xDBFF {
      if end - (p + 6) < 6 { return; }
      if buf[p + 6] != BACKSLASH || buf[p + 7] != LOWER_U { return; }
      var second := ReadHex4(buf, p + 8);
      if second < 0xDC00 || second > 0xDFFF { return; }
      length, cp := 12, 0x10000 + first % 1024 * 1024 + second % 1024;
    } else {
      length, cp := 6, first;
    }
  }

  /** `utf16_literal_to_utf8`: what is written stays inside the room. */
  method WriteLiteral(buf: seq<Byte>, p: nat, end: nat, out: array<Byte>, at: nat, ghost room: int)
    returns (length: nat, n: nat)
    requires p < end < |buf| && Fits(buf, p, end, room) && at + room <= out.Length
    modifies out
    ensures length == 0 <==> Utf16Literal(buf, p, end).Failed?
    ensures length > 0 ==>
      n <= room && at + n <= out.Length && Fits(buf, p + length, end, room - n) &&
      Utf16Literal(buf, p, end) == Parsed(out[at..at + n], p + length)
    ensures out[..at] == old(out[..at])
  {
    var cp;
    n := 0;
    length, cp := ReadLiteral(buf, p, end);
    if length == 0 { return; }
    StepFits(buf, p, end, room, length, |Utf8(cp)|);
    n := WriteUtf8(cp, out, at);
  }

  // ---------------------------------------------------------------- string buffers

  /** The sizing loop: the closing quote, or failure, and how many backslashes were skipped. */
  method FindEnd(buf: seq<Byte>, start: nat) returns (ok: bool, end: nat, skipped: nat)
    requires start <= |buf|
    ensures ok <==> StringEnd(buf, start) < |buf|
    ensures ok ==> end == StringEnd(buf, start) && end - start - skipped == Units(buf, start)
  {
    end, skipped := start, 0;
    while end < |buf| && buf[end] != QUOTE
      invariant start <= end <= |buf|
      invariant StringEnd(buf, end) == StringEnd(buf, start)
      invariant end - start - skipped + Units(buf, end) == Units(buf, start)
      decreases |buf| - end
    {
      if buf[end] == BACKSLASH {
        if end + 1 >= |buf| { return false, end, skipped; }
        skipped := skipped + 1;
        end := end + 1;
      }
      end := end + 1;
    }
    ok := end < |buf|;
  }

  /** One turn of the copy loop. */
  method CopyOne(buf: seq<Byte>, p: nat, end: nat, out: array<Byte>, at: nat, ghost room: int)
    returns (length: nat, n: nat)
    requires p < end < |buf| && Fits(buf, p, end, room) && at + room <= out.Length
    modifies out
    ensures length == 0 ==> Unescape(buf, p, end).Failed?
    ensures length > 0 ==>
      n <= room && Fits(buf, p + length, end, room - n) &&
      Unescape(buf, p, end) == Prefixed(out[at..at + n], Unescape(buf, p + length, end))
    ensures out[..at] == old(out[..at])
  {
    if buf[p] == BACKSLASH && buf[p + 1] == LOWER_U {
      LiteralStep(buf, p, end);
      length, n := WriteLiteral(buf, p, end, out, at, room);
    } else {
      length, n := if buf[p] == BACKSLASH then 2 else 1, 1;
      var c := if buf[p] == BACKSLASH then ShortMeaning(buf[p + 1]) else buf[p];
      ByteStep(buf, p, end, c, length);
      if length == 2 && c == 0 { return 0, 0; }
      StepFits(buf, p, end, room, length, 1);
      out[at] := c;
      assert out[at..at + n] == [c];
    }
  }

  lemma LiteralStep(buf: seq<Byte>, p: nat, end: nat)
    requires p < end < |buf| && buf[p] == BACKSLASH && buf[p + 1] == LOWER_U
    ensures var r := Utf16Literal(buf, p, end);
            Unescape(buf, p, end) == if r.Failed? then Failed else Prefixed(r.value, Unescape(buf, r.end, end))
  {
    assert Unescape(buf, p, end) == UnescapeEscape(buf, p, end) == UnescapeLiteral(buf, p, end);
  }

  lemma ByteStep(buf: seq<Byte>, p: nat, end: nat, c: Byte, length: nat)
    requires p < end < |buf|
    requires if buf[p] == BACKSLASH then length == 2 && buf[p + 1] != LOWER_U && c == ShortMeaning(buf[p + 1])
             else length == 1 && c == buf[p]
    ensures Unescape(buf, p, end) ==
            if length == 2 && c == 0 then Failed else Prefixed([c], Unescape(buf, p + length, end))
  {
  }

  lemma PrefixedNothing(a: seq<Byte>, r: Parsed<seq<Byte>>)
    requires a == []
    ensures Prefixed(a, r) == r
  {
    if r.Parsed? { assert a + r.value == r.value; }
  }

  lemma PrefixedTwice(a: seq<Byte>, b: seq<Byte>, r: Parsed<seq<Byte>>)
    ensures Prefixed(a, Prefixed(b, r)) == Prefixed(a + b, r)
  {
    if r.Parsed? { assert a + (b + r.value) == a + b + r.value; }
  }

  /**
   * The copy loop.  The buffer is as large as the sizing loop asked for, and
   * whatever the text between the quotes, writes stay inside it with a byte left
   * for the terminating NUL.
   */
  method CopyString(buf: seq<Byte>, start: nat, end: nat, out: array<Byte>) returns (ok: bool, n: nat)
    requires start <= end < |buf| && StringEnd(buf, start) == end
    requires out.Length == Units(buf, start) + 2
    modifies out
    ensures ok <==> Unescape(buf, start, end).Parsed?
    ensures ok ==> n < out.Length && out[..n] == Unescape(buf, start, end).value && out[n] == 0
  {
    n := 0;
    var p := start;
    ghost var whole := Unescape(buf, start, end);
    ghost var units := Units(buf, start);
    PrefixedNothing(out[..n], whole);
    while p < end
      invariant n <= units && Fits(buf, p, end, units - n)
      invariant Prefixed(out[..n], Unescape(buf, p, end)) == whole
      decreases end - p
    {
      var length, written := CopyOne(buf, p, end, out, n, units - n);
      if length == 0 { return false, n; }
      PrefixedTwice(out[..n], out[n..n + written], Unescape(buf, p + length, end));
      assert out[..n] + out[n..n + written] == out[..n + written];
      p, n := p + length, n + written;
    }
    assert out[..n] + [] == out[..n];
    assert whole == Parsed(out[..n], end);
    out[n] := 0;
    assert whole.value == out[..n];
    ok := true;
  }

  // ---------------------------------------------------------------- the parser

  function Completed<T>(done: seq<T>, r: Parsed<seq<T>>): Parsed<seq<T>> {
    if r.Failed? then Failed else Parsed(done + r.value, r.end)
  }

  function Closed<T>(buf: seq<Byte>, off: nat, close: Byte, done: seq<T>): Parsed<seq<T>> {
    if ByteAt(buf, off, close) then Parsed(done, off + 1) else Failed
  }

  lemma CompletedNothing<T>(r: Parsed<seq<T>>)
    ensures Completed([], r) == r
  {
    if r.Parsed? { assert [] + r.value == r.value; }
  }

  lemma CompletedOne<T>(done: seq<T>, one: T, r: Parsed<seq<T>>)
    ensures Completed(done + [one], r) == Completed(done, Completed([one], r))
  {
    if r.Parsed? { assert done + [one] + r.value == done + ([one] + r.value); }
  }

  /** What a parse method reports against what the text holds. */
  predicate Agrees<T(==)>(ok: bool, value: T, offset: nat, r: Parsed<T>) {
    ok == r.Parsed? && (ok ==> value == r.value && offset == r.end)
  }

  class Parser {
    const content: seq<Byte>
    var offset: nat
    var depth: nat

    constructor (content: seq<Byte>)
      ensures this.content == content && offset == 0 && depth == 0
    {
      this.content := content;
      offset := 0;
      depth := 0;
    }

    /** `buffer_skip_whitespace` */
    method SkipWhitespace()
      requires offset <= |content|
      modifies this`offset
      ensures offset == Skip(content, old(offset))
    {
      if offset >= |content| { return; }
      while offset < |content| && content[offset] <= 32
        invariant old(offset) <= offset <= |content|
        invariant Spaces(content, offset) == Spaces(content, old(offset))
      {
        offset := offset + 1;
      }
      if offset == |content| { offset := offset - 1; }
    }

    /** `parse_string` */
    method ReadString() returns (ok: bool, text: CString)
      requires offset < |content|
      modifies this`offset
      ensures offset <= |content|
      ensures Agrees(ok, text, offset, ParseString(content, old(offset)))
    {
      text := [];
      if content[offset] != QUOTE { return false, []; }
      var found, end, skipped := FindEnd(content, offset + 1);
      if !found { return false, []; }
      var out := new Byte[end - offset - skipped + 1];
      var n;
      ok, n := CopyString(content, offset + 1, end, out);
      if !ok { return false, []; }
      text := UpToNul(out[..n]);
      offset := end + 1;
    }

    /** `parse_value` */
    method ReadValue() returns (ok: bool, v: Value)
      requires offset <= |content|
      modifies this
      ensures offset <= |content|
      ensures Agrees(ok, v, offset, ParseValue(content, old(offset), old(depth)))
      ensures ok ==> depth == old(depth)
      decreases |content| - offset, 3
    {
      if At(content, offset, NULL_TEXT) {
        offset := offset + 4;
        return true, Null;
      }
      if At(content, offset, FALSE_TEXT) {
        offset := offset + 5;
        return true, False;
      }
      if At(content, offset, TRUE_TEXT) {
        offset := offset + 4;
        return true, True;
      }
      if ByteAt(content, offset, QUOTE) {
        var text;
        ok, text := ReadString();
        return ok, Str(text);
      }
      if ByteAt(content, offset, OPEN_ARRAY) {
        ok, v := ReadArray();
        return;
      }
      if ByteAt(content, offset, OPEN_OBJECT) {
        ok, v := ReadObject();
        return;
      }
      return false, Null;
    }

    /** `parse_array` */
    method ReadArray() returns (ok: bool, v: Value)
      requires offset < |content|
      modifies this
      ensures offset <= |content|
      ensures Agrees(ok, v, offset, ParseArray(content, old(offset), old(depth)))
      ensures ok ==> depth == old(depth)
      decreases |content| - offset, 2
    {
      if depth >= NESTING_LIMIT { return false, Null; }
      depth := depth + 1;
      offset := offset + 1;
      SkipWhitespace();
      if ByteAt(content, offset, CLOSE_ARRAY) {
        depth := depth - 1;
        offset := offset + 1;
        return true, Arr([]);
      }
      if offset >= |content| { return false, Null; }
      offset := offset - 1;
      var items;
      ok, items := ReadItems();
      if !ok { return false, Null; }
      depth := depth - 1;
      return true, Arr(items);
    }

    /** The element loop of `parse_array`, up to and including the closing bracket. */
    method ReadItems() returns (ok: bool, items: seq<Value>)
      requires offset < |content|
      modifies this
      ensures offset <= |content|
      ensures Agrees(ok, items, offset, ParseItems(content, old(offset), old(depth)))
      ensures ok ==> depth == old(depth)
      decreases |content| - offset, 1
    {
      items := [];
      ghost var whole := ParseItems(content, offset, depth);
      CompletedNothing(whole);
      var more := true;
      while more
        invariant old(offset) <= offset <= |content|
        invariant depth == old(depth)
        invariant more ==> offset < |content| && Completed(items, ParseItems(content, offset, depth)) == whole
        invariant !more ==> whole == Closed(content, offset, CLOSE_ARRAY, items)
        decreases more, |content| - offset
      {
        ghost var done := items;
        offset := offset + 1;
        SkipWhitespace();
        var item;
        ok, item := ReadValue();
        if !ok { return false, []; }
        SkipWhitespace();
        items := items + [item];
        more := ByteAt(content, offset, COMMA);
        if more { CompletedOne(done, item, ParseItems(content, offset, depth)); }
      }
      if !ByteAt(content, offset, CLOSE_ARRAY) { return false, []; }
      offset := offset + 1;
      ok := true;
    }

    /** `parse_object` */
    method ReadObject() returns (ok: bool, v: Value)
      requires offset < |content|
      modifies this
      ensures offset <= |content|
      ensures Agrees(ok, v, offset, ParseObject(content, old(offset), old(depth)))
      ensures ok ==> depth == old(depth)
      decreases |content| - offset, 2
    {
      if depth >= NESTING_LIMIT { return false, Null; }
      depth := depth + 1;
      offset := offset + 1;
      SkipWhitespace();
      if ByteAt(content, offset, CLOSE_OBJECT) {
        depth := depth - 1;
        offset := offset + 1;
        return true, Obj([]);
      }
      if offset >= |content| { return false, Null; }
      offset := offset - 1;
      var members;
      ok, members := ReadMembers();
      if !ok { return false, Null; }
      depth := depth - 1;
      return true, Obj(members);
    }

    /** A name, a colon and a value. */
    method ReadMember() returns (ok: bool, m: Member)
      requires offset < |content|
      modifies this
      ensures offset <= |content|
      ensures Agrees(ok, m, offset, ParseMember(content, old(offset), old(depth)))
      ensures ok ==> depth == old(depth)
      decreases |content| - offset, 0
    {
      m := Member([], Null);
      if offset + 1 >= |content| { return false, m; }
      offset := offset + 1;
      SkipWhitespace();
      var name;
      ok, name := ReadString();
      if !ok { return false, m; }
      SkipWhitespace();
      if !ByteAt(content, offset, COLON) { return false, m; }
      offset := offset + 1;
      SkipWhitespace();
      var value;
      ok, value := ReadValue();
      m := Member(name, value);
    }

    /** The member loop of `parse_object`, up to and including the closing brace. */
    method ReadMembers() returns (ok: bool, members: seq<Member>)
      requires offset < |content|
      modifies this
      ensures offset <= |content|
      ensures Agrees(ok, members, offset, ParseMembers(content, old(offset), old(depth)))
      ensures ok ==> depth == old(depth)
      decreases |content| - offset, 1
    {
      members := [];
      ghost var whole := ParseMembers(content, offset, depth);
      CompletedNothing(whole);
      var more := true;
      while more
        invariant old(offset) <= offset <= |content|
        invariant depth == old(depth)
        invariant more ==> offset < |content| && Completed(members, ParseMembers(content, offset, depth)) == whole
        invariant !more ==> whole == Closed(content, offset, CLOSE_OBJECT, members)
        decreases more, |content| - offset
      {
        ghost var done := members;
        var m;
        ok, m := ReadMember();
        if !ok { return false, []; }
        SkipWhitespace();
        members := members + [m];
        more := ByteAt(content, offset, COMMA);
        if more { CompletedOne(done, m, ParseMembers(content, offset, depth)); }
      }
      if !ByteAt(content, offset, CLOSE_OBJECT) { return false, []; }
      offset := offset + 1;
      ok := true;
    }
  }

  /** `cJSON_Parse` */
  method ParseText(text: CString) returns (ok: bool, v: Value)
    ensures ok == Parse(text).Parsed?
    ensures ok ==> v == Parse(text).value
  {
    var parser := new Parser(text + [0]);
    parser.offset := SkipMark(parser.content);
    parser.SkipWhitespace();
    ok, v := parser.ReadValue();
  }

  // ---------------------------------------------------------------- printing a string

  /** The additional bytes that escaping needs, as the sizing loop of `print_string_ptr` counts them. */
  function Extra(b: Byte): (n: nat)
    ensures n + 1 == |EscapeByte(b)|
  {
    if b == QUOTE || b == BACKSLASH || b == 8 || b == 12 || b == 10 || b == 13 || b == 9 then 1
    else if b < 32 then 5
    else 0
  }

  lemma Regrouped(t: seq<Byte>, a: seq<Byte>, b: seq<Byte>, c: seq<Byte>, bc: seq<Byte>)
    requires t == a + bc && bc == b + c
    ensures t == (a + b) + c
  {
  }

  lemma {:induction false} EscapeJoins(a: seq<Byte>, b: seq<Byte>)
    ensures Escape(a + b) == Escape(a) + Escape(b)
    decreases |a|
  {
    if a == [] {
      assert a + b == b;
    } else {
      EscapeUnfolds(a);
      EscapeUnfolds(a + b);
      EscapeJoins(a[1..], b);
      assert (a + b)[1..] == a[1..] + b && (a + b)[0] == a[0];
      Regrouped(Escape(a + b), EscapeByte(a[0]), Escape(a[1..]), Escape(b), Escape(a[1..] + b));
    }
  }

  lemma EscapeNext(s: seq<Byte>, i: nat)
    requires i < |s|
    ensures Escape(s[..i + 1]) == Escape(s[..i]) + EscapeByte(s[i])
    ensures |Escape(s[..i + 1])| <= |Escape(s)|
  {
    EscapeJoins(s[..i], [s[i]]);
    assert s[..i + 1] == s[..i] + [s[i]];
    assert [s[i]][1..] == [];
    EscapeJoins(s[..i + 1], s[i + 1..]);
    assert s == s[..i + 1] + s[i + 1..];
  }

  lemma {:induction false} EscapeGrows(s: seq<Byte>)
    ensures |Escape(s)| >= |s|
    ensures |Escape(s)| == |s| ==> Escape(s) == s
    decreases |s|
  {
    if s != [] {
      EscapeGrows(s[1..]);
      assert Extra(s[0]) + 1 == |EscapeByte(s[0])|;
      assert s == [s[0]] + s[1..];
    }
  }

  method CountEscapes(s: CString) returns (extra: nat)
    ensures |s| + extra == |Escape(s)|
  {
    extra := 0;
    for i := 0 to |s|
      invariant i + extra == |Escape(s[..i])|
    {
      EscapeNext(s, i);
      extra := extra + Extra(s[i]);
    }
    assert s[..|s|] == s;
  }

  /** Writes the escape of one byte and returns where the next one goes. */
  method WriteEscape(b: Byte, out: array<Byte>, at: nat) returns (next: nat)
    requires at + |EscapeByte(b)| <= out.Length
    modifies out
    ensures next == at + |EscapeByte(b)|
    ensures out[..next] == old(out[..at]) + EscapeByte(b)
  {
    if b > 31 && b != QUOTE && b != BACKSLASH {
      out[at] := b;
      return at + 1;
    }
    out[at] := BACKSLASH;
    var letter := ShortEscape(b);
    if letter != 0 {
      out[at + 1] := letter;
      return at + 2;
    }
    out[at + 1], out[at + 2], out[at + 3] := LOWER_U, 48, 48;
    out[at + 4], out[at + 5] := HexDigit(b / 16), HexDigit(b % 16);
    return at + 6;
  }

  method FillEscaped(s: CString, out: array<Byte>)
    requires out.Length == |Escape(s)| + 3 && out[0] == QUOTE
    modifies out
    ensures out[..|Escape(s)| + 1] == [QUOTE] + Escape(s)
  {
    var at := 1;
    for i := 0 to |s|
      invariant at == 1 + |Escape(s[..i])| && at < out.Length
      invariant out[..at] == [QUOTE] + Escape(s[..i])
    {
      EscapeNext(s, i);
      ghost var before := out[..at];
      at := WriteEscape(s[i], out, at);
      Regrouped(out[..at], [QUOTE], Escape(s[..i]), EscapeByte(s[i]), Escape(s[..i + 1]));
    }
    assert s[..|s|] == s;
  }

  /** `print_string_ptr`: the buffer has exactly the counted size and is filled to its last byte. */
  method FillString(s: CString) returns (out: array<Byte>)
    ensures out[..] == PrintString(s) + [0]
  {
    var extra := CountEscapes(s);
    var length := |s| + extra;
    out := new Byte[length + 3];
    out[0] := QUOTE;
    if extra == 0 {
      EscapeGrows(s);
      forall i | 0 <= i < |s| { out[i + 1] := s[i]; }
      assert out[..length + 1] == [QUOTE] + s;
    } else {
      FillEscaped(s, out);
    }
    ghost var done := out[..length + 1];
    out[length + 1] := QUOTE;
    out[length + 2] := 0;
    assert out[..] == done + [QUOTE] + [0];
  }

  // ---------------------------------------------------------------- the printer

  class Printer {
    var output: seq<Byte>

    constructor ()
      ensures output == []
    {
      output := [];
    }

    method WriteString(s: CString)
      modifies this
      ensures output == old(output) + PrintString(s)
    {
      var out := FillString(s);
      output := output + out[..out.Length - 1];
    }

    /** `print_value` */
    method WriteValue(v: Value)
      modifies this
      ensures output == old(output) + Print(v)
      decreases v, 1
    {
      match v
      case Null => output := output + NULL_TEXT;
      case False => output := output + FALSE_TEXT;
      case True => output := output + TRUE_TEXT;
      case Str(s) => WriteString(s);
      case Arr(items) => WriteArray(items);
      case Obj(members) => WriteObject(members);
    }

    /** `print_array` */
    method WriteArray(items: seq<Value>)
      modifies this
      ensures output == old(output) + Print(Arr(items))
      decreases items, 1
    {
      output := output + [OPEN_ARRAY];
      WriteItems(items);
      output := output + [CLOSE_ARRAY];
      assert output == old(output) + ([OPEN_ARRAY] + PrintItems(items) + [CLOSE_ARRAY]);
    }

    method WriteItems(items: seq<Value>)
      modifies this
      ensures output == old(output) + PrintItems(items)
      decreases items, 0
    {
      var i := 0;
      assert items[0..] == items;
      while i < |items|
        invariant 0 <= i <= |items|
        invariant output + PrintItems(items[i..]) == old(output) + PrintItems(items)
      {
        ghost var before := output;
        WriteValue(items[i]);
        if i + 1 < |items| { output := output + [COMMA]; }
        ItemsFrom(items, i, before, output);
        i := i + 1;
      }
    }

    /** `print_object` */
    method WriteObject(members: seq<Member>)
      modifies this
      ensures output == old(output) + Print(Obj(members))
      decreases members, 1
    {
      output := output + [OPEN_OBJECT];
      WriteMembers(members);
      output := output + [CLOSE_OBJECT];
      assert output == old(output) + ([OPEN_OBJECT] + PrintMembers(members) + [CLOSE_OBJECT]);
    }

    method WriteMember(m: Member)
      modifies this
      ensures output == old(output) + PrintMember(m)
      decreases m, 2
    {
      WriteString(m.name);
      output := output + [COLON];
      WriteValue(m.value);
      assert output == old(output) + (PrintString(m.name) + ([COLON] + Print(m.value)));
    }

    method WriteMembers(members: seq<Member>)
      modifies this
      ensures output == old(output) + PrintMembers(members)
      decreases members, 0
    {
      var i := 0;
      assert members[0..] == members;
      while i < |members|
        invariant 0 <= i <= |members|
        invariant output + PrintMembers(members[i..]) == old(output) + PrintMembers(members)
      {
        ghost var before := output;
        WriteMember(members[i]);
        if i + 1 < |members| { output := output + [COMMA]; }
        MembersFrom(members, i, before, output);
        i := i + 1;
      }
    }
  }

  lemma ItemsFrom(items: seq<Value>, i: nat, before: seq<Byte>, after: seq<Byte>)
    requires i < |items|
    requires after == before + Print(items[i]) + if i + 1 < |items| then [COMMA] else []
    ensures after + PrintItems(items[i + 1..]) == before + PrintItems(items[i..])
  {
  }

  lemma MembersFrom(members: seq<Member>, i: nat, before: seq<Byte>, after: seq<Byte>)
    requires i < |members|
    requires after == before + PrintMember(members[i]) + if i + 1 < |members| then [COMMA] else []
    ensures after + PrintMembers(members[i + 1..]) == before + PrintMembers(members[i..])
  {
  }

  /** `cJSON_PrintUnformatted` */
  method PrintText(v: Value) returns (text: seq<Byte>)
    ensures text == Print(v)
  {
    var printer := new Printer();
    printer.WriteValue(v);
    text := printer.output;
  }

  /** The compiled loops, one after the other, give back the value they were given, or refuse it for its depth. */
  method PrintAndParse(v: Value) returns (ok: bool, back: Value)
    ensures ok <==> Depth(v) <= NESTING_LIMIT
    ensures ok ==> back == v
  {
    var text := PrintText(v);
    PrintThenParse(v);
    ok, back := ParseText(text);
  }
}
