/**
 * JSON strings as cJSON prints and parses them (src/cjson/cJSON.c): escapes,
 * UTF-16 literals turned into UTF-8, and the C string that results.
 *
 * A parse buffer is a byte sequence; its last byte is the terminating NUL.
 */
module JsonText {
  import opened Basics

  const QUOTE: Byte := 34
  const BACKSLASH: Byte := 92
  const LOWER_U: Byte := 117

  predicate NulFree(s: seq<Byte>) {
    forall i :: 0 <= i < |s| ==> s[i] != 0
  }

  type CString = s: seq<Byte> | NulFree(s)

  /** What a C string function sees of a byte buffer. */
  function UpToNul(s: seq<Byte>): CString {
    if s == [] || s[0] == 0 then [] else [s[0]] + UpToNul(s[1..])
  }

  lemma {:induction false} UpToNulKeeps(s: CString)
    ensures UpToNul(s) == s
  {
    if s != [] {
      assert NulFree(s[1..]);
      UpToNulKeeps(s[1..]);
    }
  }

  /** A NUL ends the string, whatever follows it. */
  lemma {:induction false} NulEnds(s: CString, t: seq<Byte>)
    ensures UpToNul(s + [0] + t) == s
  {
    if s != [] {
      assert NulFree(s[1..]);
      NulEnds(s[1..], t);
      assert (s + [0] + t)[1..] == s[1..] + [0] + t;
    }
  }

  datatype Parsed<+T> = Failed | Parsed(value: T, end: nat)

  predicate Reads<T(==)>(r: Parsed<T>, value: T, end: nat) {
    r.Parsed? && r.value == value && r.end == end
  }

  predicate At(buf: seq<Byte>, off: nat, t: seq<Byte>) {
    off + |t| <= |buf| && buf[off..off + |t|] == t
  }

  lemma AtSplit(buf: seq<Byte>, off: nat, a: seq<Byte>, b: seq<Byte>)
    requires At(buf, off, a + b)
    ensures At(buf, off, a) && At(buf, off + |a|, b)
  {
    var t := a + b;
    assert buf[off..off + |a|] == t[..|a|] == a;
    assert buf[off + |a|..off + |t|] == t[|a|..] == b;
  }

  lemma AtByte(buf: seq<Byte>, off: nat, t: seq<Byte>, i: nat)
    requires At(buf, off, t) && i < |t|
    ensures buf[off + i] == t[i]
  {
  }

  // ---------------------------------------------------------------- printing

  function HexDigit(n: nat): Byte
    requires n < 16
  {
    if n < 10 then 48 + n else 87 + n
  }

  /** The letter of a two-byte escape, or 0 where `print_string_ptr` uses none. */
  function ShortEscape(b: Byte): Byte {
    if b == BACKSLASH || b == QUOTE then b
    else if b == 8 then 98
    else if b == 12 then 102
    else if b == 10 then 110
    else if b == 13 then 114
    else if b == 9 then 116
    else 0
  }

  function EscapeByte(b: Byte): (r: seq<Byte>)
    ensures r != []
  {
    if b > 31 && b != QUOTE && b != BACKSLASH then [b]
    else if ShortEscape(b) != 0 then [BACKSLASH, ShortEscape(b)]
    else [BACKSLASH, LOWER_U, 48, 48, HexDigit(b / 16), HexDigit(b % 16)]
  }

  function Escape(s: seq<Byte>): seq<Byte> {
    if s == [] then [] else EscapeByte(s[0]) + Escape(s[1..])
  }

  function PrintString(s: seq<Byte>): (r: seq<Byte>)
    ensures |r| >= 2 && r[0] == QUOTE
  {
    [QUOTE] + Escape(s) + [QUOTE]
  }

  // ---------------------------------------------------------------- parsing

  /** -1 where the byte is no hexadecimal digit. */
  function HexValue(b: Byte): int {
    if 48 <= b <= 57 then b - 48
    else if 65 <= b <= 70 then b - 55
    else if 97 <= b <= 102 then b - 87
    else -1
  }

  /** `parse_hex4`: anything but four digits reads as 0. */
  function Hex4(buf: seq<Byte>, p: nat): (r: nat)
    requires p + 4 <= |buf|
    ensures r < 0x10000
  {
    var a, b, c, d := HexValue(buf[p]), HexValue(buf[p + 1]), HexValue(buf[p + 2]), HexValue(buf[p + 3]);
    if a < 0 || b < 0 || c < 0 || d < 0 then 0 else ((a * 16 + b) * 16 + c) * 16 + d
  }

  function Utf8(cp: nat): seq<Byte>
    requires cp < 0x110000
  {
    if cp < 0x80 then [cp]
    else if cp < 0x800 then [0xC0 + cp / 64, 0x80 + cp % 64]
    else if cp < 0x10000 then [0xE0 + cp / 4096, 0x80 + cp / 64 % 64, 0x80 + cp % 64]
    else [0xF0 + cp / 262144, 0x80 + cp / 4096 % 64, 0x80 + cp / 64 % 64, 0x80 + cp % 64]
  }

  /** `utf16_literal_to_utf8`: the bytes written, and where the literal ends. */
  function Utf16Literal(buf: seq<Byte>, p: nat, end: nat): (r: Parsed<seq<Byte>>)
    requires end <= |buf|
    ensures r.Parsed? ==> (r.end == p + 6 || r.end == p + 12) && r.end <= end
  {
    if p + 6 > end then Failed
    else
      var first := Hex4(buf, p + 2);
      if 0xDC00 <= first <= 0xDFFF then Failed
      else if 0xD800 <= first <= 0xDBFF then
        if p + 12 > end || buf[p + 6] != BACKSLASH || buf[p + 7] != LOWER_U then Failed
        else
          var second := Hex4(buf, p + 8);
          if second < 0xDC00 || second > 0xDFFF then Failed
          else Parsed(Utf8(0x10000 + first % 1024 * 1024 + second % 1024), p + 12)
      else Parsed(Utf8(first), p + 6)
  }

  /** What a one-letter escape stands for, or 0 if it is none. */
  function ShortMeaning(c: Byte): Byte {
    if c == 98 then 8
    else if c == 102 then 12
    else if c == 110 then 10
    else if c == 114 then 13
    else if c == 116 then 9
    else if c == QUOTE || c == BACKSLASH || c == 47 then c
    else 0
  }

  /** The closing quote found by skipping escapes in pairs, or the buffer's length if there is none. */
  function StringEnd(buf: seq<Byte>, p: nat): (r: nat)
    requires p <= |buf|
    ensures r <= |buf|
    ensures r < |buf| ==> p <= r && buf[r] == QUOTE
    decreases |buf| - p
  {
    if p == |buf| || buf[p] == QUOTE then p
    else if buf[p] != BACKSLASH then StringEnd(buf, p + 1)
    else if p + 1 == |buf| then |buf|
    else StringEnd(buf, p + 2)
  }

  function Prefixed(bytes: seq<Byte>, rest: Parsed<seq<Byte>>): Parsed<seq<Byte>> {
    if rest.Failed? then Failed else Parsed(bytes + rest.value, rest.end)
  }

  /** The copy loop of `parse_string` from p up to the closing quote at `end`. */
  function Unescape(buf: seq<Byte>, p: nat, end: nat): Parsed<seq<Byte>>
    requires end < |buf|
    decreases end - p, 2
  {
    if p >= end then Parsed([], end)
    else if buf[p] != BACKSLASH then Prefixed([buf[p]], Unescape(buf, p + 1, end))
    else UnescapeEscape(buf, p, end)
  }

  function UnescapeEscape(buf: seq<Byte>, p: nat, end: nat): Parsed<seq<Byte>>
    requires p < end < |buf|
    decreases end - p, 1
  {
    if buf[p + 1] == LOWER_U then UnescapeLiteral(buf, p, end)
    else if ShortMeaning(buf[p + 1]) == 0 then Failed
    else Prefixed([ShortMeaning(buf[p + 1])], Unescape(buf, p + 2, end))
  }

  function UnescapeLiteral(buf: seq<Byte>, p: nat, end: nat): Parsed<seq<Byte>>
    requires p < end < |buf|
    decreases end - p, 0
  {
    var literal := Utf16Literal(buf, p, end);
    if literal.Failed? then Failed else Prefixed(literal.value, Unescape(buf, literal.end, end))
  }

  /** `parse_string`; an escaped NUL ends the C string it produces. */
  function ParseString(buf: seq<Byte>, off: nat): (r: Parsed<CString>)
    requires off < |buf|
    ensures r.Parsed? ==> off < r.end <= |buf|
  {
    if buf[off] != QUOTE then Failed
    else
      var end := StringEnd(buf, off + 1);
      if end == |buf| then Failed
      else
        var text := Unescape(buf, off + 1, end);
        if text.Failed? then Failed else Parsed(UpToNul(text.value), end + 1)
  }

  // ---------------------------------------------------------------- UTF-16 literals

  predicate Scalar(cp: nat) {
    cp < 0xD800 || 0xE000 <= cp < 0x110000
  }

  predicate Trail(b: Byte) {
    0x80 <= b < 0xC0
  }

  function Less(b: Byte, mark: int): int {
    b - mark
  }

  /** A strict UTF-8 decoder after RFC 3629: shortest form, no surrogates; -1 for anything else. */
  function DecodeUtf8(t: seq<Byte>): int {
    if |t| == 1 && t[0] < 0x80 then t[0]
    else if |t| == 2 && 0xC2 <= t[0] < 0xE0 && Trail(t[1]) then Less(t[0], 0xC0) * 64 + Less(t[1], 0x80)
    else if |t| == 3 && 0xE0 <= t[0] < 0xF0 && Trail(t[1]) && Trail(t[2]) then
      var cp := (Less(t[0], 0xE0) * 64 + Less(t[1], 0x80)) * 64 + Less(t[2], 0x80);
      if cp >= 0x800 && !(0xD800 <= cp < 0xE000) then cp else -1
    else if |t| == 4 && 0xF0 <= t[0] < 0xF5 && Trail(t[1]) && Trail(t[2]) && Trail(t[3]) then
      var cp := ((Less(t[0], 0xF0) * 64 + Less(t[1], 0x80)) * 64 + Less(t[2], 0x80)) * 64 + Less(t[3], 0x80);
      if 0x10000 <= cp < 0x110000 then cp else -1
    else -1
  }

  lemma Utf8Decodes(cp: nat)
    requires Scalar(cp)
    ensures DecodeUtf8(Utf8(cp)) == cp
  {
    assert cp / 4096 == cp / 64 / 64;
    assert cp / 262144 == cp / 64 / 64 / 64;
  }

  /** A hexadecimal digit in either case. */
  function HexIn(n: nat, upper: bool): Byte
    requires n < 16
  {
    if n < 10 then '0' as int + n else (if upper then 'A' as int else 'a' as int) + (n - 10)
  }

  lemma HexReads(n: nat, upper: bool)
    requires n < 16
    ensures HexValue(HexIn(n, upper)) == n
    ensures HexIn(n, upper) != QUOTE && HexIn(n, upper) != BACKSLASH && HexIn(n, upper) > 31
  {
  }

  /** The case of each digit of a literal. */
  datatype Cases = Cases(a: bool, b: bool, c: bool, d: bool)

  function Hex4Text(n: nat, u: Cases): (t: seq<Byte>)
    requires n < 0x10000
    ensures |t| == 6
  {
    [BACKSLASH, LOWER_U,
     HexIn(n / 4096, u.a), HexIn(n / 256 % 16, u.b), HexIn(n / 16 % 16, u.c), HexIn(n % 16, u.d)]
  }

  /** RFC 8259, section 7: one literal in the basic plane, a surrogate pair above it. */
  function Utf16Text(cp: nat, u: Cases, u': Cases): seq<Byte>
    requires Scalar(cp)
  {
    if cp < 0x10000 then Hex4Text(cp, u)
    else Hex4Text(0xD800 + (cp - 0x10000) / 1024, u) + Hex4Text(0xDC00 + (cp - 0x10000) % 1024, u')
  }

  lemma {:induction false} PlainBytes(buf: seq<Byte>, p: nat, n: nat)
    requires p + n <= |buf|
    requires forall i :: p <= i < p + n ==> buf[i] != QUOTE && buf[i] != BACKSLASH
    ensures StringEnd(buf, p) == StringEnd(buf, p + n)
    decreases n
  {
    if n > 0 { PlainBytes(buf, p + 1, n - 1); }
  }

  /** A literal as it stands in the buffer. */
  predicate Hex4At(buf: seq<Byte>, p: nat, n: nat) {
    p + 6 <= |buf| && buf[p] == BACKSLASH && buf[p + 1] == LOWER_U && Hex4(buf, p + 2) == n &&
    StringEnd(buf, p) == StringEnd(buf, p + 6)
  }

  lemma Hex4Reads(buf: seq<Byte>, p: nat, n: nat, u: Cases)
    requires n < 0x10000 && At(buf, p, Hex4Text(n, u))
    ensures Hex4At(buf, p, n)
  {
    var t := Hex4Text(n, u);
    AtByte(buf, p, t, 0);
    AtByte(buf, p, t, 1);
    AtByte(buf, p, t, 2);
    AtByte(buf, p, t, 3);
    AtByte(buf, p, t, 4);
    AtByte(buf, p, t, 5);
    FourDigits(buf, p + 2, n, u);
    PlainBytes(buf, p + 2, 4);
  }

  lemma FourDigits(buf: seq<Byte>, p: nat, n: nat, u: Cases)
    requires n < 0x10000 && p + 4 <= |buf|
    requires buf[p] == HexIn(n / 4096, u.a) && buf[p + 1] == HexIn(n / 256 % 16, u.b)
    requires buf[p + 2] == HexIn(n / 16 % 16, u.c) && buf[p + 3] == HexIn(n % 16, u.d)
    ensures Hex4(buf, p) == n
    ensures forall i :: p <= i < p + 4 ==> buf[i] != QUOTE && buf[i] != BACKSLASH
  {
    HexReads(n / 4096, u.a);
    HexReads(n / 256 % 16, u.b);
    HexReads(n / 16 % 16, u.c);
    HexReads(n % 16, u.d);
    assert n / 256 == n / 16 / 16;
    assert n / 4096 == n / 16 / 16 / 16;
  }

  lemma PairReads(buf: seq<Byte>, p: nat, end: nat, n: nat)
    requires n < 0x100000
    requires Hex4At(buf, p, 0xD800 + n / 1024) && Hex4At(buf, p + 6, 0xDC00 + n % 1024)
    requires p + 12 <= end <= |buf|
    ensures Utf16Literal(buf, p, end) == Parsed(Utf8(0x10000 + n), p + 12)
  {
    SurrogatesJoin(n);
  }

  lemma SurrogatesJoin(n: nat)
    requires n < 0x100000
    ensures (0xD800 + n / 1024) % 1024 * 1024 + (0xDC00 + n % 1024) % 1024 == n
  {
  }

  /** The literal of every Unicode scalar value, its digits in any case, is read as that value's UTF-8 encoding. */
  lemma LiteralReads(buf: seq<Byte>, p: nat, end: nat, cp: nat, u: Cases, u': Cases)
    requires Scalar(cp)
    requires At(buf, p, Utf16Text(cp, u, u')) && p + |Utf16Text(cp, u, u')| <= end <= |buf|
    ensures var r := Utf16Literal(buf, p, end);
            r == Parsed(Utf8(cp), p + |Utf16Text(cp, u, u')|) && DecodeUtf8(r.value) == cp
    ensures buf[p] == BACKSLASH && buf[p + 1] == LOWER_U
    ensures StringEnd(buf, p) == StringEnd(buf, p + |Utf16Text(cp, u, u')|)
  {
    if cp < 0x10000 {
      Hex4Reads(buf, p, cp, u);
    } else {
      var n := cp - 0x10000;
      AtSplit(buf, p, Hex4Text(0xD800 + n / 1024, u), Hex4Text(0xDC00 + n % 1024, u'));
      Hex4Reads(buf, p, 0xD800 + n / 1024, u);
      Hex4Reads(buf, p + 6, 0xDC00 + n % 1024, u');
      PairReads(buf, p, end, n);
    }
    Utf8Decodes(cp);
  }

  /** Whatever the text, an accepted literal writes the UTF-8 encoding of some scalar value. */
  lemma LiteralIsWellFormed(buf: seq<Byte>, p: nat, end: nat)
    requires end <= |buf|
    ensures var r := Utf16Literal(buf, p, end);
            r.Parsed? ==> DecodeUtf8(r.value) >= 0 && Scalar(DecodeUtf8(r.value))
  {
    if p + 6 <= end {
      var first := Hex4(buf, p + 2);
      if Scalar(first) {
        Utf8Decodes(first);
      } else if p + 12 <= end {
        Utf8Decodes(0x10000 + first % 1024 * 1024 + Hex4(buf, p + 8) % 1024);
      }
    }
  }

  // ---------------------------------------------------------------- spelled strings

  /** RFC 8259, section 7: a character as it is, with a letter behind a backslash, or as a UTF-16 literal. */
  datatype Spelling = Raw(b: Byte) | Letter(c: char) | Unicode(cp: nat, u: Cases, u': Cases)

  predicate Spells(sp: Spelling) {
    match sp
    case Raw(b) => b != 0 && b != QUOTE && b != BACKSLASH
    case Letter(c) => c in {'"', '\\', '/', 'b', 'f', 'n', 'r', 't'}
    case Unicode(cp, _, _) => Scalar(cp)
  }

  type Spelled = s: seq<Spelling> | forall i :: 0 <= i < |s| ==> Spells(s[i])

  function SpellingText(sp: Spelling): (t: seq<Byte>)
    requires Spells(sp)
    ensures t != []
  {
    match sp
    case Raw(b) => [b]
    case Letter(c) => [BACKSLASH, c as int]
    case Unicode(cp, u, u') => Utf16Text(cp, u, u')
  }

  function LetterMeaning(c: char): Byte {
    match c
    case 'b' => 0x08
    case 'f' => 0x0C
    case 'n' => '\n' as int
    case 'r' => '\r' as int
    case 't' => '\t' as int
    case _ => if c as int < 256 then c as int else 0
  }

  function SpellingMeaning(sp: Spelling): seq<Byte>
    requires Spells(sp)
  {
    match sp
    case Raw(b) => [b]
    case Letter(c) => [LetterMeaning(c)]
    case Unicode(cp, _, _) => Utf8(cp)
  }

  function SpelledText(sps: Spelled): seq<Byte> {
    if sps == [] then [] else SpellingText(sps[0]) + SpelledText(sps[1..])
  }

  function SpelledMeaning(sps: Spelled): seq<Byte> {
    if sps == [] then [] else SpellingMeaning(sps[0]) + SpelledMeaning(sps[1..])
  }

  /** The C string that a spelled string is read as. */
  function StringMeaning(sps: Spelled): CString {
    UpToNul(SpelledMeaning(sps))
  }

  /** A spelled string between its quotes. */
  function Quoted(sps: Spelled): (t: seq<Byte>)
    ensures |t| >= 2 && t[0] == QUOTE
  {
    [QUOTE] + SpelledText(sps) + [QUOTE]
  }

  lemma SpellingReads(buf: seq<Byte>, p: nat, sp: Spelling, t: seq<Byte>, end: nat)
    requires Spells(sp) && t == SpellingText(sp)
    requires At(buf, p, t) && p + |t| <= end < |buf|
    ensures Unescape(buf, p, end) == Prefixed(SpellingMeaning(sp), Unescape(buf, p + |t|, end))
    ensures StringEnd(buf, p) == StringEnd(buf, p + |t|)
  {
    match sp {
      case Raw(b) => AtByte(buf, p, t, 0);
      case Letter(c) =>
        AtByte(buf, p, t, 0);
        AtByte(buf, p, t, 1);
        LetterReads(buf, p, c, end);
      case Unicode(cp, u, u') =>
        LiteralReads(buf, p, end, cp, u, u');
        assert Unescape(buf, p, end) == UnescapeEscape(buf, p, end) == UnescapeLiteral(buf, p, end);
    }
  }

  lemma LetterReads(buf: seq<Byte>, p: nat, c: char, end: nat)
    requires Spells(Letter(c)) && p + 2 <= end < |buf| && buf[p] == BACKSLASH && buf[p + 1] == c as int
    ensures Unescape(buf, p, end) == Prefixed([LetterMeaning(c)], Unescape(buf, p + 2, end))
    ensures StringEnd(buf, p) == StringEnd(buf, p + 2)
  {
    assert Unescape(buf, p, end) == UnescapeEscape(buf, p, end);
  }

  lemma AtParts(buf: seq<Byte>, p: nat, t: seq<Byte>, a: seq<Byte>, b: seq<Byte>)
    requires t == a + b && At(buf, p, t)
    ensures At(buf, p, a) && At(buf, p + |a|, b) && p + |a| + |b| == p + |t|
  {
    AtSplit(buf, p, a, b);
  }

  lemma SpelledPlace(buf: seq<Byte>, p: nat, sps: Spelled) returns (t: seq<Byte>)
    requires sps != [] && At(buf, p, SpelledText(sps))
    ensures t == SpellingText(sps[0]) && At(buf, p, t)
    ensures At(buf, p + |t|, SpelledText(sps[1..])) && p + |t| + |SpelledText(sps[1..])| == p + |SpelledText(sps)|
  {
    t := SpellingText(sps[0]);
    AtParts(buf, p, SpelledText(sps), t, SpelledText(sps[1..]));
  }

  lemma PrefixedReads(r: Parsed<seq<Byte>>, a: seq<Byte>, b: seq<Byte>, end: nat)
    requires Reads(r, b, end)
    ensures Reads(Prefixed(a, r), a + b, end)
  {
  }

  lemma {:induction false} SpelledReads(buf: seq<Byte>, p: nat, sps: Spelled, end: nat)
    requires At(buf, p, SpelledText(sps))
    requires end == p + |SpelledText(sps)| < |buf| && buf[end] == QUOTE
    ensures StringEnd(buf, p) == end
    ensures Reads(Unescape(buf, p, end), SpelledMeaning(sps), end)
    decreases |sps|
  {
    if sps != [] {
      var t := SpelledPlace(buf, p, sps);
      SpellingReads(buf, p, sps[0], t, end);
      SpelledReads(buf, p + |t|, sps[1..], end);
      PrefixedReads(Unescape(buf, p + |t|, end), SpellingMeaning(sps[0]), SpelledMeaning(sps[1..]), end);
    }
  }

  /** Every string of RFC 8259, however it is spelled, is read as the characters it stands for, up to the first NUL. */
  lemma QuotedReads(buf: seq<Byte>, off: nat, sps: Spelled)
    requires At(buf, off, Quoted(sps))
    ensures off < |buf|
    ensures Reads(ParseString(buf, off), StringMeaning(sps), off + |Quoted(sps)|)
  {
    var end := off + 1 + |SpelledText(sps)|;
    QuotesAt(buf, off, SpelledText(sps));
    SpelledReads(buf, off + 1, sps, end);
    BetweenQuotes(buf, off, SpelledMeaning(sps), end);
  }

  lemma QuotesAt(buf: seq<Byte>, off: nat, t: seq<Byte>)
    requires At(buf, off, [QUOTE] + t + [QUOTE])
    ensures off + 1 + |t| < |buf| && buf[off] == QUOTE && At(buf, off + 1, t) && buf[off + 1 + |t|] == QUOTE
  {
    assert [QUOTE] + t + [QUOTE] == [QUOTE] + (t + [QUOTE]);
    AtSplit(buf, off, [QUOTE], t + [QUOTE]);
    AtByte(buf, off, [QUOTE], 0);
    AtSplit(buf, off + 1, t, [QUOTE]);
    AtByte(buf, off + 1 + |t|, [QUOTE], 0);
  }

  lemma BetweenQuotes(buf: seq<Byte>, off: nat, meaning: seq<Byte>, end: nat)
    requires off < end < |buf| && buf[off] == QUOTE && StringEnd(buf, off + 1) == end
    requires Reads(Unescape(buf, off + 1, end), meaning, end)
    ensures Reads(ParseString(buf, off), UpToNul(meaning), end + 1)
  {
  }

  // ---------------------------------------------------------------- round trip

  /** How `print_string_ptr` spells a byte. */
  function SpellingOf(b: Byte): (sp: Spelling)
    requires b != 0
    ensures Spells(sp)
  {
    if b > 31 && b != QUOTE && b != BACKSLASH then Raw(b)
    else if b == QUOTE then Letter('"')
    else if b == BACKSLASH then Letter('\\')
    else if b == 8 then Letter('b')
    else if b == 12 then Letter('f')
    else if b == 10 then Letter('n')
    else if b == 13 then Letter('r')
    else if b == 9 then Letter('t')
    else Unicode(b, Cases(false, false, false, false), Cases(false, false, false, false))
  }

  function SpellingsOf(s: CString): Spelled {
    if s == [] then [] else [SpellingOf(s[0])] + SpellingsOf(s[1..])
  }

  lemma ByteIsSpelled(b: Byte)
    requires b != 0
    ensures EscapeByte(b) == SpellingText(SpellingOf(b)) && SpellingMeaning(SpellingOf(b)) == [b]
  {
    if b < 32 { ControlIsSpelled(b); }
  }

  lemma ControlIsSpelled(b: Byte)
    requires b < 32
    ensures var lower := Cases(false, false, false, false);
            Utf16Text(b, lower, lower) == [BACKSLASH, LOWER_U, 48, 48, HexDigit(b / 16), HexDigit(b % 16)]
    ensures Utf8(b) == [b]
  {
    assert b / 4096 == 0 && b / 256 % 16 == 0 && b / 16 % 16 == b / 16;
    assert HexIn(b / 16, false) == HexDigit(b / 16) && HexIn(b % 16, false) == HexDigit(b % 16);
  }

  lemma EscapeUnfolds(s: seq<Byte>)
    requires s != []
    ensures Escape(s) == EscapeByte(s[0]) + Escape(s[1..])
  {
  }

  lemma SpelledUnfolds(sps: Spelled)
    requires sps != []
    ensures SpelledText(sps) == SpellingText(sps[0]) + SpelledText(sps[1..])
    ensures SpelledMeaning(sps) == SpellingMeaning(sps[0]) + SpelledMeaning(sps[1..])
  {
  }

  /** What is printed is one way to spell the string. */
  lemma {:induction false} PrintedIsSpelled(s: CString)
    ensures Escape(s) == SpelledText(SpellingsOf(s)) && SpelledMeaning(SpellingsOf(s)) == s
    decreases |s|
  {
    if s != [] {
      var sps := SpellingsOf(s);
      assert sps[0] == SpellingOf(s[0]) && sps[1..] == SpellingsOf(s[1..]);
      ByteIsSpelled(s[0]);
      EscapeUnfolds(s);
      SpelledUnfolds(sps);
      PrintedIsSpelled(s[1..]);
      assert s == [s[0]] + s[1..];
    }
  }

  /** Every C string, whatever bytes it holds, is read back from what was printed. */
  lemma StringRoundTrip(buf: seq<Byte>, off: nat, s: CString)
    requires At(buf, off, PrintString(s))
    ensures off < |buf|
    ensures Reads(ParseString(buf, off), s, off + |PrintString(s)|)
  {
    PrintedIsSpelled(s);
    QuotedReads(buf, off, SpellingsOf(s));
    UpToNulKeeps(s);
  }

  /** Nothing below the space is printed: no line end, no NUL. */
  lemma {:induction false} PrintedIsClean(s: CString)
    ensures forall i :: 0 <= i < |Escape(s)| ==> Escape(s)[i] > 31
    decreases |s|
  {
    if s != [] {
      PrintedIsClean(s[1..]);
      EscapeUnfolds(s);
      var e := EscapeByte(s[0]);
      assert forall i :: 0 <= i < |e| ==> e[i] > 31;
    }
  }
}
