/**
 * JSON values as cJSON prints them without formatting and parses them
 * (src/cjson/cJSON.c).  The functions here say which text is printed and which
 * value is read at an offset; JsonBuffers holds the loops that compute them.
 */
module Json {
  import opened Basics
  import opened JsonText

  const NESTING_LIMIT: nat := 1000

  const COMMA: Byte := 44
  const COLON: Byte := 58
  const OPEN_ARRAY: Byte := 91
  const CLOSE_ARRAY: Byte := 93
  const OPEN_OBJECT: Byte := 123
  const CLOSE_OBJECT: Byte := 125

  const NULL_TEXT: seq<Byte> := [110, 117, 108, 108]
  const FALSE_TEXT: seq<Byte> := [102, 97, 108, 115, 101]
  const TRUE_TEXT: seq<Byte> := [116, 114, 117, 101]

  datatype Value = Null | False | True | Str(text: CString) | Arr(items: seq<Value>) | Obj(members: seq<Member>)
  datatype Member = Member(name: CString, value: Value)

  // ---------------------------------------------------------------- printing

  function Print(v: Value): (r: seq<Byte>)
    ensures r != [] && 32 < r[0] < 128 && r[0] != CLOSE_ARRAY
  {
    match v
    case Null => NULL_TEXT
    case False => FALSE_TEXT
    case True => TRUE_TEXT
    case Str(s) => PrintString(s)
    case Arr(items) => [OPEN_ARRAY] + PrintItems(items) + [CLOSE_ARRAY]
    case Obj(members) => [OPEN_OBJECT] + PrintMembers(members) + [CLOSE_OBJECT]
  }

  function PrintItems(items: seq<Value>): (r: seq<Byte>)
    ensures items != [] ==> r != [] && r[0] > 32 && r[0] != CLOSE_ARRAY
  {
    if items == [] then []
    else if |items| == 1 then Print(items[0])
    else Print(items[0]) + ([COMMA] + PrintItems(items[1..]))
  }

  function PrintMember(m: Member): (r: seq<Byte>)
    ensures r != [] && r[0] == QUOTE
  {
    PrintString(m.name) + ([COLON] + Print(m.value))
  }

  function PrintMembers(members: seq<Member>): (r: seq<Byte>)
    ensures members != [] ==> r != [] && r[0] == QUOTE
  {
    if members == [] then []
    else if |members| == 1 then PrintMember(members[0])
    else PrintMember(members[0]) + ([COMMA] + PrintMembers(members[1..]))
  }

  // ---------------------------------------------------------------- parsing

  /** The first byte above 32, or the end of the buffer. */
  function Spaces(buf: seq<Byte>, off: nat): (r: nat)
    requires off <= |buf|
    ensures off <= r <= |buf|
    decreases |buf| - off
  {
    if off < |buf| && buf[off] <= 32 then Spaces(buf, off + 1) else off
  }

  /** `buffer_skip_whitespace`: stays on the last byte when only white space is left. */
  function Skip(buf: seq<Byte>, off: nat): (r: nat)
    requires off <= |buf|
    ensures off <= r <= |buf|
    ensures off < |buf| ==> r < |buf|
    ensures off < |buf| && buf[off] > 32 ==> r == off
  {
    if off == |buf| then off
    else if Spaces(buf, off) == |buf| then |buf| - 1
    else Spaces(buf, off)
  }

  /** It passes bytes up to 32 only, and stops at the first above 32 unless there is none. */
  lemma {:induction false} SpacesExactly(buf: seq<Byte>, off: nat)
    requires off <= |buf|
    ensures forall i :: off <= i < Spaces(buf, off) ==> buf[i] <= 32
    ensures Spaces(buf, off) < |buf| ==> buf[Spaces(buf, off)] > 32
    decreases |buf| - off
  {
    if off < |buf| && buf[off] <= 32 { SpacesExactly(buf, off + 1); }
  }

  lemma SkipExactly(buf: seq<Byte>, off: nat)
    requires off < |buf|
    ensures forall i :: off <= i < Skip(buf, off) ==> buf[i] <= 32
    ensures buf[Skip(buf, off)] > 32 || Skip(buf, off) == |buf| - 1
  {
    SpacesExactly(buf, off);
  }

  predicate ByteAt(buf: seq<Byte>, off: nat, b: Byte) {
    off < |buf| && buf[off] == b
  }

  /** `parse_value`, without numbers. */
  function ParseValue(buf: seq<Byte>, off: nat, depth: nat): (r: Parsed<Value>)
    requires off <= |buf|
    ensures r.Parsed? ==> off < r.end <= |buf|
    decreases |buf| - off, 3
  {
    if At(buf, off, NULL_TEXT) then Parsed(Null, off + 4)
    else if At(buf, off, FALSE_TEXT) then Parsed(False, off + 5)
    else if At(buf, off, TRUE_TEXT) then Parsed(True, off + 4)
    else if ByteAt(buf, off, QUOTE) then
      var s := ParseString(buf, off);
      if s.Failed? then Failed else Parsed(Str(s.value), s.end)
    else if ByteAt(buf, off, OPEN_ARRAY) then ParseArray(buf, off, depth)
    else if ByteAt(buf, off, OPEN_OBJECT) then ParseObject(buf, off, depth)
    else Failed
  }

  function ParseArray(buf: seq<Byte>, off: nat, depth: nat): (r: Parsed<Value>)
    requires off < |buf|
    ensures r.Parsed? ==> off < r.end <= |buf|
    decreases |buf| - off, 2
  {
    if depth >= NESTING_LIMIT then Failed
    else
      var p := Skip(buf, off + 1);
      if ByteAt(buf, p, CLOSE_ARRAY) then Parsed(Arr([]), p + 1)
      else if p == |buf| then Failed
      else
        var items := ParseItems(buf, p - 1, depth + 1);
        if items.Failed? then Failed else Parsed(Arr(items.value), items.end)
  }

  /** The elements that follow the byte at `off`, up to and including the closing bracket. */
  function ParseItems(buf: seq<Byte>, off: nat, depth: nat): (r: Parsed<seq<Value>>)
    requires off < |buf|
    ensures r.Parsed? ==> off < r.end <= |buf|
    decreases |buf| - off, 0
  {
    var item := ParseValue(buf, Skip(buf, off + 1), depth);
    if item.Failed? then Failed
    else
      var q := Skip(buf, item.end);
      if ByteAt(buf, q, COMMA) then
        var rest := ParseItems(buf, q, depth);
        if rest.Failed? then Failed else Parsed([item.value] + rest.value, rest.end)
      else if ByteAt(buf, q, CLOSE_ARRAY) then Parsed([item.value], q + 1)
      else Failed
  }

  function ParseObject(buf: seq<Byte>, off: nat, depth: nat): (r: Parsed<Value>)
    requires off < |buf|
    ensures r.Parsed? ==> off < r.end <= |buf|
    decreases |buf| - off, 2
  {
    if depth >= NESTING_LIMIT then Failed
    else
      var p := Skip(buf, off + 1);
      if ByteAt(buf, p, CLOSE_OBJECT) then Parsed(Obj([]), p + 1)
      else if p == |buf| then Failed
      else
        var members := ParseMembers(buf, p - 1, depth + 1);
        if members.Failed? then Failed else Parsed(Obj(members.value), members.end)
  }

  /** A name, a colon and a value after the byte at `off`. */
  function ParseMember(buf: seq<Byte>, off: nat, depth: nat): (r: Parsed<Member>)
    requires off < |buf|
    ensures r.Parsed? ==> off < r.end <= |buf|
    decreases |buf| - off, 0
  {
    if off + 1 >= |buf| then Failed
    else
      var name := ParseString(buf, Skip(buf, off + 1));
      if name.Failed? then Failed
      else
        var q := Skip(buf, name.end);
        if !ByteAt(buf, q, COLON) then Failed
        else
          var value := ParseValue(buf, Skip(buf, q + 1), depth);
          if value.Failed? then Failed else Parsed(Member(name.value, value.value), value.end)
  }

  function ParseMembers(buf: seq<Byte>, off: nat, depth: nat): (r: Parsed<seq<Member>>)
    requires off < |buf|
    ensures r.Parsed? ==> off < r.end <= |buf|
    decreases |buf| - off, 1
  {
    var m := ParseMember(buf, off, depth);
    if m.Failed? then Failed
    else
      var q := Skip(buf, m.end);
      if ByteAt(buf, q, COMMA) then
        var rest := ParseMembers(buf, q, depth);
        if rest.Failed? then Failed else Parsed([m.value] + rest.value, rest.end)
      else if ByteAt(buf, q, CLOSE_OBJECT) then Parsed([m.value], q + 1)
      else Failed
  }

  function SkipMark(buf: seq<Byte>): (r: nat)
    ensures r <= |buf|
  {
    if |buf| > 4 && buf[0] == 0xEF && buf[1] == 0xBB && buf[2] == 0xBF then 3 else 0
  }

  /** `cJSON_Parse`: bytes after the value are not looked at. */
  function Parse(text: CString): Parsed<Value> {
    var buf: seq<Byte> := text + [0];
    ParseValue(buf, Skip(buf, SkipMark(buf)), 0)
  }

  // ---------------------------------------------------------------- nesting

  function Max(a: nat, b: nat): nat {
    if a < b then b else a
  }

  function Depth(v: Value): nat {
    match v
    case Arr(items) => 1 + ItemsDepth(items)
    case Obj(members) => 1 + MembersDepth(members)
    case _ => 0
  }

  function ItemsDepth(items: seq<Value>): nat {
    if items == [] then 0 else Max(Depth(items[0]), ItemsDepth(items[1..]))
  }

  function MembersDepth(members: seq<Member>): nat {
    if members == [] then 0 else Max(Depth(members[0].value), MembersDepth(members[1..]))
  }
}
