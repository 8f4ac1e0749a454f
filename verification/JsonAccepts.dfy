/**
 * The other direction: what cJSON's parser accepts is a document (src/cjson/cJSON.c).
 *
 * One leniency is set aside: behind `\u`, four bytes that are not all hexadecimal
 * digits are read as the character NUL.  Of all other texts exactly the documents
 * are accepted, up to the nesting limit and apart from numbers.
 */
module JsonAccepts {
  import opened Basics
  import opened JsonText
  import opened Json
  import opened JsonDoc

  /** Four hexadecimal digits stand behind every `\u`. */
  predicate WellHex(buf: seq<Byte>) {
    forall i :: 0 <= i && i + 5 < |buf| && buf[i] == BACKSLASH && buf[i + 1] == LOWER_U ==> Digits4(buf, i + 2)
  }

  predicate Digits4(buf: seq<Byte>, p: nat) {
    p + 4 <= |buf| && HexValue(buf[p]) >= 0 && HexValue(buf[p + 1]) >= 0 &&
    HexValue(buf[p + 2]) >= 0 && HexValue(buf[p + 3]) >= 0
  }

  /** A C string with its NUL, without that leniency. */
  predicate Strict(buf: seq<Byte>) {
    buf != [] && (forall i :: 0 <= i < |buf| - 1 ==> buf[i] != 0) && WellHex(buf)
  }

  lemma Slices(buf: seq<Byte>, a: nat, b: nat, c: nat)
    requires a <= b <= c <= |buf|
    ensures buf[a..c] == buf[a..b] + buf[b..c]
  {
  }

  // ---------------------------------------------------------------- strings

  lemma HexBack(b: Byte)
    requires HexValue(b) >= 0
    ensures HexValue(b) < 16 && HexIn(HexValue(b), b < 97) == b
  {
  }

  function CasesAt(buf: seq<Byte>, p: nat): Cases
    requires p + 4 <= |buf|
  {
    Cases(buf[p] < 97, buf[p + 1] < 97, buf[p + 2] < 97, buf[p + 3] < 97)
  }

  lemma DigitsBack(a: nat, b: nat, c: nat, d: nat)
    requires a < 16 && b < 16 && c < 16 && d < 16
    ensures var n := ((a * 16 + b) * 16 + c) * 16 + d;
            n / 4096 == a && n / 256 % 16 == b && n / 16 % 16 == c && n % 16 == d
  {
  }

  lemma Hex4Back(buf: seq<Byte>, p: nat)
    requires p + 6 <= |buf| && buf[p] == BACKSLASH && buf[p + 1] == LOWER_U && Digits4(buf, p + 2)
    ensures Hex4Text(Hex4(buf, p + 2), CasesAt(buf, p + 2)) == buf[p..p + 6]
    ensures StringEnd(buf, p) == StringEnd(buf, p + 6)
  {
    FourBack(buf, p + 2);
    var t := Hex4Text(Hex4(buf, p + 2), CasesAt(buf, p + 2));
    assert t == [buf[p], buf[p + 1], buf[p + 2], buf[p + 3], buf[p + 4], buf[p + 5]];
    PlainBytes(buf, p + 2, 4);
  }

  lemma FourBack(buf: seq<Byte>, p: nat)
    requires Digits4(buf, p)
    ensures var n, u := Hex4(buf, p), CasesAt(buf, p);
            HexIn(n / 4096, u.a) == buf[p] && HexIn(n / 256 % 16, u.b) == buf[p + 1] &&
            HexIn(n / 16 % 16, u.c) == buf[p + 2] && HexIn(n % 16, u.d) == buf[p + 3]
    ensures forall i :: p <= i < p + 4 ==> buf[i] != QUOTE && buf[i] != BACKSLASH
  {
    HexBack(buf[p]);
    HexBack(buf[p + 1]);
    HexBack(buf[p + 2]);
    HexBack(buf[p + 3]);
    DigitsBack(HexValue(buf[p]), HexValue(buf[p + 1]), HexValue(buf[p + 2]), HexValue(buf[p + 3]));
  }

  /** A spelling that stands at p and is read as a result says. */
  predicate SpelledAt(buf: seq<Byte>, p: nat, sp: Spelling, r: Parsed<seq<Byte>>) {
    Spells(sp) && r.Parsed? && p <= r.end <= |buf| && SpellingText(sp) == buf[p..r.end] &&
    SpellingMeaning(sp) == r.value && StringEnd(buf, p) == StringEnd(buf, r.end)
  }

  /** The code point of an accepted literal: n above the basic plane if it is a pair. */
  lemma LiteralIs(buf: seq<Byte>, p: nat, end: nat, r: Parsed<seq<Byte>>) returns (pair: bool, n: nat)
    requires WellHex(buf) && p + 2 <= end < |buf| && buf[p] == BACKSLASH && buf[p + 1] == LOWER_U
    requires r == Utf16Literal(buf, p, end) && r.Parsed?
    ensures p + 6 <= |buf| && Digits4(buf, p + 2)
    ensures !pair ==> Scalar(n) && n == Hex4(buf, p + 2) && r == Parsed(Utf8(n), p + 6)
    ensures pair ==>
              && n < 0x100000 && p + 12 <= |buf| && r == Parsed(Utf8(0x10000 + n), p + 12)
              && buf[p + 6] == BACKSLASH && buf[p + 7] == LOWER_U && Digits4(buf, p + 8)
              && Hex4(buf, p + 2) == 0xD800 + n / 1024 && Hex4(buf, p + 8) == 0xDC00 + n % 1024
  {
    n := Hex4(buf, p + 2);
    pair := 0xD800 <= n <= 0xDBFF;
    if pair {
      var first, second := n, Hex4(buf, p + 8);
      n := (first - 0xD800) * 1024 + (second - 0xDC00);
      PairBack(first, second, n);
    }
  }

  /** The spelling of the literal at p. */
  lemma LiteralBack(buf: seq<Byte>, p: nat, end: nat, r: Parsed<seq<Byte>>) returns (sp: Spelling)
    requires WellHex(buf) && p + 2 <= end < |buf| && buf[p] == BACKSLASH && buf[p + 1] == LOWER_U
    requires r == Utf16Literal(buf, p, end) && r.Parsed?
    ensures SpelledAt(buf, p, sp, r)
  {
    var pair, n := LiteralIs(buf, p, end, r);
    if pair {
      sp := PairLiteralBack(buf, p, n);
    } else {
      sp := OneLiteralBack(buf, p, n);
    }
  }

  lemma OneLiteralBack(buf: seq<Byte>, p: nat, cp: nat) returns (sp: Spelling)
    requires p + 6 <= |buf| && buf[p] == BACKSLASH && buf[p + 1] == LOWER_U && Digits4(buf, p + 2)
    requires cp == Hex4(buf, p + 2) && Scalar(cp)
    ensures SpelledAt(buf, p, sp, Parsed(Utf8(cp), p + 6))
  {
    Hex4Back(buf, p);
    sp := Unicode(cp, CasesAt(buf, p + 2), CasesAt(buf, p + 2));
  }

  lemma PairLiteralBack(buf: seq<Byte>, p: nat, n: nat) returns (sp: Spelling)
    requires n < 0x100000 && p + 12 <= |buf|
    requires buf[p] == BACKSLASH && buf[p + 1] == LOWER_U && Digits4(buf, p + 2)
    requires buf[p + 6] == BACKSLASH && buf[p + 7] == LOWER_U && Digits4(buf, p + 8)
    requires Hex4(buf, p + 2) == 0xD800 + n / 1024 && Hex4(buf, p + 8) == 0xDC00 + n % 1024
    ensures SpelledAt(buf, p, sp, Parsed(Utf8(0x10000 + n), p + 12))
  {
    var u, u' := CasesAt(buf, p + 2), CasesAt(buf, p + 8);
    Hex4Back(buf, p);
    Hex4Back(buf, p + 6);
    sp := Unicode(0x10000 + n, u, u');
    PairText(n, u, u');
    Slices(buf, p, p + 6, p + 12);
  }

  lemma PairText(n: nat, u: Cases, u': Cases)
    requires n < 0x100000
    ensures Utf16Text(0x10000 + n, u, u') == Hex4Text(0xD800 + n / 1024, u) + Hex4Text(0xDC00 + n % 1024, u')
  {
  }

  lemma PairBack(first: nat, second: nat, n: nat)
    requires 0xD800 <= first <= 0xDBFF && 0xDC00 <= second <= 0xDFFF
    requires n == (first - 0xD800) * 1024 + (second - 0xDC00)
    ensures n < 0x100000 && n / 1024 == first - 0xD800 && n % 1024 == second - 0xDC00
    ensures first % 1024 * 1024 + second % 1024 == n
  {
  }

  lemma LetterBack(c: Byte)
    requires c != LOWER_U && ShortMeaning(c) != 0
    ensures var sp := Letter(c as char);
            Spells(sp) && SpellingText(sp) == [BACKSLASH, c] && SpellingMeaning(sp) == [ShortMeaning(c)]
  {
  }

  /** The spelling at p and the place behind it. */
  lemma SpellingBack(buf: seq<Byte>, p: nat, end: nat) returns (sp: Spelling, next: nat)
    requires Strict(buf) && p < end < |buf| && StringEnd(buf, p) == end && Unescape(buf, p, end).Parsed?
    ensures Spells(sp) && p < next <= end && SpellingText(sp) == buf[p..next] && StringEnd(buf, next) == end
    ensures Unescape(buf, p, end) == Prefixed(SpellingMeaning(sp), Unescape(buf, next, end))
  {
    if buf[p] != BACKSLASH {
      sp, next := Raw(buf[p]), p + 1;
    } else if buf[p + 1] == LOWER_U {
      assert Unescape(buf, p, end) == UnescapeEscape(buf, p, end) == UnescapeLiteral(buf, p, end);
      sp := LiteralBack(buf, p, end, Utf16Literal(buf, p, end));
      next := Utf16Literal(buf, p, end).end;
    } else {
      assert Unescape(buf, p, end) == UnescapeEscape(buf, p, end);
      LetterBack(buf[p + 1]);
      sp, next := Letter(buf[p + 1] as char), p + 2;
    }
  }

  lemma {:induction false} SpelledBack(buf: seq<Byte>, p: nat, end: nat) returns (sps: Spelled)
    requires Strict(buf) && p <= end < |buf| && StringEnd(buf, p) == end && Unescape(buf, p, end).Parsed?
    ensures SpelledText(sps) == buf[p..end] && Unescape(buf, p, end).value == SpelledMeaning(sps)
    decreases end - p
  {
    if p == end {
      sps := [];
    } else {
      var sp, next := SpellingBack(buf, p, end);
      var rest := SpelledBack(buf, next, end);
      sps := [sp] + rest;
      assert sps[0] == sp && sps[1..] == rest;
      SpelledUnfolds(sps);
      Slices(buf, p, next, end);
    }
  }

  /** An accepted string is spelled as RFC 8259 has it, and read as it is spelled. */
  lemma StringBack(buf: seq<Byte>, off: nat) returns (sps: Spelled)
    requires Strict(buf) && off < |buf| && ParseString(buf, off).Parsed?
    ensures var r := ParseString(buf, off);
            Quoted(sps) == buf[off..r.end] && StringMeaning(sps) == r.value
  {
    var end := QuotesBack(buf, off);
    sps := SpelledBack(buf, off + 1, end);
    QuotedSlice(buf, off, end);
  }

  lemma QuotesBack(buf: seq<Byte>, off: nat) returns (end: nat)
    requires off < |buf| && ParseString(buf, off).Parsed?
    ensures off < end < |buf| && buf[off] == QUOTE && buf[end] == QUOTE && StringEnd(buf, off + 1) == end
    ensures Unescape(buf, off + 1, end).Parsed? && ParseString(buf, off).end == end + 1
    ensures ParseString(buf, off).value == UpToNul(Unescape(buf, off + 1, end).value)
  {
    end := StringEnd(buf, off + 1);
  }

  lemma QuotedSlice(buf: seq<Byte>, off: nat, end: nat)
    requires off < end < |buf| && buf[off] == QUOTE && buf[end] == QUOTE
    ensures buf[off..end + 1] == [QUOTE] + buf[off + 1..end] + [QUOTE]
  {
  }

  // ---------------------------------------------------------------- values

  lemma GapBack(buf: seq<Byte>, a: nat, p: nat) returns (gap: Space)
    requires Strict(buf) && a <= |buf| && p == Skip(buf, a) && p < |buf|
    ensures a <= p && gap == buf[a..p]
  {
    SkipExactly(buf, a);
    gap := buf[a..p];
  }

  lemma SkipTwice(buf: seq<Byte>, a: nat)
    requires a <= |buf| && Skip(buf, a) < |buf|
    ensures Skip(buf, Skip(buf, a)) == Skip(buf, a)
  {
    SkipExactly(buf, a);
    assert Spaces(buf, |buf|) == |buf|;
  }

  /** A document that stands at `off` and is read as a result says. */
  predicate DocAt(buf: seq<Byte>, off: nat, d: Doc, r: Parsed<Value>) {
    r.Parsed? && off <= r.end <= |buf| && Text(d) == buf[off..r.end] && Meaning(d) == r.value
  }

  lemma KeywordBack(buf: seq<Byte>, off: nat, depth: nat) returns (d: Doc)
    requires off <= |buf|
    requires At(buf, off, NULL_TEXT) || At(buf, off, FALSE_TEXT) || At(buf, off, TRUE_TEXT)
    ensures DocAt(buf, off, d, ParseValue(buf, off, depth))
  {
    d := if At(buf, off, NULL_TEXT) then DocNull else if At(buf, off, FALSE_TEXT) then DocFalse else DocTrue;
  }

  /** An accepted value is a document, and is read as what the document means. */
  lemma {:induction false} ValueBack(buf: seq<Byte>, off: nat, depth: nat) returns (d: Doc)
    requires Strict(buf) && off <= |buf| && ParseValue(buf, off, depth).Parsed?
    ensures DocAt(buf, off, d, ParseValue(buf, off, depth))
    decreases |buf| - off, 5
  {
    if At(buf, off, NULL_TEXT) || At(buf, off, FALSE_TEXT) || At(buf, off, TRUE_TEXT) {
      d := KeywordBack(buf, off, depth);
    } else if ByteAt(buf, off, QUOTE) {
      var sps := StringBack(buf, off);
      d := DocString(sps);
    } else if ByteAt(buf, off, OPEN_ARRAY) {
      d := ArrayBack(buf, off, depth);
    } else {
      d := ObjectBack(buf, off, depth);
    }
  }

  lemma BracketSlice(buf: seq<Byte>, off: nat, p: nat, end: nat, open: Byte)
    requires off < p <= end <= |buf| && buf[off] == open
    ensures buf[off..end] == [open] + buf[off + 1..p] + buf[p..end]
  {
  }

  lemma ArrayPlaces(buf: seq<Byte>, off: nat, depth: nat, whole: Parsed<Value>) returns (p: nat, r: Parsed<seq<Value>>)
    requires off < |buf| && whole == ParseArray(buf, off, depth) && whole.Parsed?
    ensures off < p < |buf| && p == Skip(buf, off + 1)
    ensures buf[p] == CLOSE_ARRAY ==> whole == Parsed(Arr([]), p + 1)
    ensures buf[p] != CLOSE_ARRAY ==>
              r == ParseItems(buf, p - 1, depth + 1) && r.Parsed? && whole == Parsed(Arr(r.value), r.end)
  {
    p := Skip(buf, off + 1);
    r := if p == |buf| then Failed else ParseItems(buf, p - 1, depth + 1);
  }

  lemma {:induction false} ArrayBack(buf: seq<Byte>, off: nat, depth: nat) returns (d: Doc)
    requires Strict(buf) && ByteAt(buf, off, OPEN_ARRAY) && ParseArray(buf, off, depth).Parsed?
    ensures DocAt(buf, off, d, ParseArray(buf, off, depth))
    decreases |buf| - off, 4
  {
    var p, r := ArrayPlaces(buf, off, depth, ParseArray(buf, off, depth));
    if buf[p] == CLOSE_ARRAY {
      d := EmptyArrayBack(buf, off, p);
    } else {
      SkipTwice(buf, off + 1);
      d := FilledArrayBack(buf, off, p, p - 1, depth + 1, r);
    }
  }

  lemma {:induction false} FilledArrayBack(buf: seq<Byte>, off: nat, p: nat, o: nat, depth: nat, r: Parsed<seq<Value>>)
    returns (d: Doc)
    requires Strict(buf) && ByteAt(buf, off, OPEN_ARRAY) && off < p < |buf| && o + 1 == p
    requires p == Skip(buf, off + 1) == Skip(buf, p) && r == ParseItems(buf, o, depth) && r.Parsed?
    ensures DocAt(buf, off, d, Parsed(Arr(r.value), r.end))
    decreases |buf| - o, 3
  {
    var items := ItemsBack(buf, off + 1, o, depth, p, r);
    d := DocArray([], items);
    ArrayText(buf, off, p, items, r.end);
  }

  lemma EmptyArrayBack(buf: seq<Byte>, off: nat, p: nat) returns (d: Doc)
    requires Strict(buf) && ByteAt(buf, off, OPEN_ARRAY) && p == Skip(buf, off + 1) && ByteAt(buf, p, CLOSE_ARRAY)
    ensures Text(d) == buf[off..p + 1] && Meaning(d) == Arr([])
  {
    var gap := GapBack(buf, off + 1, p);
    d := DocArray(gap, []);
    BracketSlice(buf, off, p, p + 1, OPEN_ARRAY);
  }

  /** Elements from q on, the white space in front of them from a on. */
  predicate ItemsAt(buf: seq<Byte>, a: nat, q: nat, items: seq<DocItem>, end: nat) {
    items != [] && a <= q < end <= |buf| && items[0].before == buf[a..q] &&
    ItemsText(items) + [CLOSE_ARRAY] == buf[q..end]
  }

  lemma ArrayText(buf: seq<Byte>, off: nat, q: nat, items: seq<DocItem>, end: nat)
    requires ByteAt(buf, off, OPEN_ARRAY) && ItemsAt(buf, off + 1, q, items, end)
    ensures Text(DocArray([], items)) == buf[off..end]
  {
    BracketSlice(buf, off, q, end, OPEN_ARRAY);
    assert [OPEN_ARRAY] + (items[0].before + ItemsText(items)) + [CLOSE_ARRAY]
        == [OPEN_ARRAY] + items[0].before + (ItemsText(items) + [CLOSE_ARRAY]);
  }

  /** An element from q to `end` with the white space around it, from a and up to `next`. */
  predicate ItemIn(buf: seq<Byte>, a: nat, q: nat, first: DocItem, end: nat, next: nat) {
    a <= q < end <= next < |buf| && first.before == buf[a..q] && Text(first.doc) == buf[q..end] &&
    first.after == buf[end..next]
  }

  lemma ItemsPlaces(buf: seq<Byte>, o: nat, depth: nat, q: nat, r: Parsed<seq<Value>>)
    returns (item: Parsed<Value>, next: nat, q': nat, rest: Parsed<seq<Value>>)
    requires o < |buf| && q == Skip(buf, o + 1) && r == ParseItems(buf, o, depth) && r.Parsed?
    ensures item == ParseValue(buf, q, depth) && item.Parsed? && next == Skip(buf, item.end) && o < next < |buf|
    ensures buf[next] == COMMA ==>
              && q' == Skip(buf, next + 1) && rest == ParseItems(buf, next, depth) && rest.Parsed?
              && r.value == [item.value] + rest.value && r.end == rest.end
    ensures buf[next] != COMMA ==> buf[next] == CLOSE_ARRAY && r.value == [item.value] && r.end == next + 1
  {
    item := ParseValue(buf, q, depth);
    next := Skip(buf, item.end);
    q' := Skip(buf, next + 1);
    rest := ParseItems(buf, next, depth);
  }

  lemma {:induction false} ItemsBack(buf: seq<Byte>, a: nat, o: nat, depth: nat, q: nat, r: Parsed<seq<Value>>)
    returns (items: seq<DocItem>)
    requires Strict(buf) && o < |buf| && a <= o + 1 && q == Skip(buf, a) == Skip(buf, o + 1)
    requires r == ParseItems(buf, o, depth) && r.Parsed?
    ensures ItemsAt(buf, a, q, items, r.end) && ItemsMeaning(items) == r.value
    decreases |buf| - o, 0
  {
    var item, next, q', rest := ItemsPlaces(buf, o, depth, q, r);
    var first := ItemPlaced(buf, a, q, depth, item, next);
    if buf[next] == COMMA {
      var more := ItemsBack(buf, next + 1, next, depth, q', rest);
      items := [first] + more;
      MoreItems(buf, a, q, first, item.end, next, more, q', r.end);
    } else {
      items := [first];
      LastItemText(buf, a, q, first, item.end, next);
    }
  }

  lemma {:induction false} ItemPlaced(buf: seq<Byte>, a: nat, q: nat, depth: nat, item: Parsed<Value>, next: nat)
    returns (first: DocItem)
    requires Strict(buf) && a <= q <= |buf| && Skip(buf, a) == q
    requires item == ParseValue(buf, q, depth) && item.Parsed? && next == Skip(buf, item.end) && next < |buf|
    ensures ItemIn(buf, a, q, first, item.end, next) && Meaning(first.doc) == item.value
    decreases |buf| - q, 6
  {
    var d := ValueBack(buf, q, depth);
    var before := GapBack(buf, a, q);
    var after := GapBack(buf, item.end, next);
    first := DocItem(before, d, after);
  }

  lemma LastItemText(buf: seq<Byte>, a: nat, q: nat, first: DocItem, end: nat, next: nat)
    requires ItemIn(buf, a, q, first, end, next) && buf[next] == CLOSE_ARRAY
    ensures ItemsAt(buf, a, q, [first], next + 1) && ItemsMeaning([first]) == [Meaning(first.doc)]
  {
    OneItem([first]);
    Slices(buf, q, end, next + 1);
    Slices(buf, end, next, next + 1);
    assert Text(first.doc) + (first.after + []) + [CLOSE_ARRAY] == Text(first.doc) + (first.after + [CLOSE_ARRAY]);
  }

  lemma MoreItems(buf: seq<Byte>, a: nat, q: nat, first: DocItem, end: nat, comma: nat, rest: seq<DocItem>, q': nat,
                  last: nat)
    requires ItemIn(buf, a, q, first, end, comma) && buf[comma] == COMMA
    requires ItemsAt(buf, comma + 1, q', rest, last)
    ensures ItemsAt(buf, a, q, [first] + rest, last)
    ensures ItemsMeaning([first] + rest) == [Meaning(first.doc)] + ItemsMeaning(rest)
  {
    var items := [first] + rest;
    assert items[1..] == rest && items[1] == rest[0];
    ManyItems(items);
    FourSlices(buf, q, end, comma, q', last);
    Regrouped(Text(first.doc), first.after, rest[0].before, ItemsText(rest), [CLOSE_ARRAY]);
  }

  lemma FourSlices(buf: seq<Byte>, q: nat, end: nat, comma: nat, q': nat, last: nat)
    requires q <= end <= comma < q' <= last <= |buf|
    ensures buf[q..last] == buf[q..end] + (buf[end..comma] + ([buf[comma]] + (buf[comma + 1..q'] + buf[q'..last])))
  {
  }

  lemma Regrouped(t: seq<Byte>, after: seq<Byte>, before: seq<Byte>, rest: seq<Byte>, close: seq<Byte>)
    ensures t + (after + ([COMMA] + (before + rest))) + close == t + (after + ([COMMA] + (before + (rest + close))))
  {
  }

  lemma ObjectPlaces(buf: seq<Byte>, off: nat, depth: nat, whole: Parsed<Value>)
    returns (p: nat, r: Parsed<seq<Member>>)
    requires off < |buf| && whole == ParseObject(buf, off, depth) && whole.Parsed?
    ensures off < p < |buf| && p == Skip(buf, off + 1)
    ensures buf[p] == CLOSE_OBJECT ==> whole == Parsed(Obj([]), p + 1)
    ensures buf[p] != CLOSE_OBJECT ==>
              r == ParseMembers(buf, p - 1, depth + 1) && r.Parsed? && whole == Parsed(Obj(r.value), r.end)
  {
    p := Skip(buf, off + 1);
    r := if p == |buf| then Failed else ParseMembers(buf, p - 1, depth + 1);
  }

  lemma {:induction false} ObjectBack(buf: seq<Byte>, off: nat, depth: nat) returns (d: Doc)
    requires Strict(buf) && ByteAt(buf, off, OPEN_OBJECT) && ParseObject(buf, off, depth).Parsed?
    ensures DocAt(buf, off, d, ParseObject(buf, off, depth))
    decreases |buf| - off, 4
  {
    var p, r := ObjectPlaces(buf, off, depth, ParseObject(buf, off, depth));
    if buf[p] == CLOSE_OBJECT {
      d := EmptyObjectBack(buf, off, p);
    } else {
      SkipTwice(buf, off + 1);
      d := FilledObjectBack(buf, off, p, p - 1, depth + 1, r);
    }
  }

  lemma {:induction false} FilledObjectBack(buf: seq<Byte>, off: nat, p: nat, o: nat, depth: nat,
                                            r: Parsed<seq<Member>>)
    returns (d: Doc)
    requires Strict(buf) && ByteAt(buf, off, OPEN_OBJECT) && off < p < |buf| && o + 1 == p
    requires p == Skip(buf, off + 1) == Skip(buf, p) && r == ParseMembers(buf, o, depth) && r.Parsed?
    ensures DocAt(buf, off, d, Parsed(Obj(r.value), r.end))
    decreases |buf| - o, 3
  {
    var members := MembersBack(buf, off + 1, o, depth, p, r);
    d := DocObject([], members);
    ObjectText(buf, off, p, members, r.end);
  }

  lemma EmptyObjectBack(buf: seq<Byte>, off: nat, p: nat) returns (d: Doc)
    requires Strict(buf) && ByteAt(buf, off, OPEN_OBJECT) && p == Skip(buf, off + 1) && ByteAt(buf, p, CLOSE_OBJECT)
    ensures Text(d) == buf[off..p + 1] && Meaning(d) == Obj([])
  {
    var gap := GapBack(buf, off + 1, p);
    d := DocObject(gap, []);
    BracketSlice(buf, off, p, p + 1, OPEN_OBJECT);
  }

  predicate MembersAt(buf: seq<Byte>, a: nat, q: nat, members: seq<DocMember>, end: nat) {
    members != [] && a <= q < end <= |buf| && members[0].before == buf[a..q] &&
    MembersText(members) + [CLOSE_OBJECT] == buf[q..end]
  }

  lemma ObjectText(buf: seq<Byte>, off: nat, q: nat, members: seq<DocMember>, end: nat)
    requires ByteAt(buf, off, OPEN_OBJECT) && MembersAt(buf, off + 1, q, members, end)
    ensures Text(DocObject([], members)) == buf[off..end]
  {
    BracketSlice(buf, off, q, end, OPEN_OBJECT);
    assert [OPEN_OBJECT] + (members[0].before + MembersText(members)) + [CLOSE_OBJECT]
        == [OPEN_OBJECT] + members[0].before + (MembersText(members) + [CLOSE_OBJECT]);
  }

  /** A member that stands at q, as far as its value goes. */
  predicate MemberAt(buf: seq<Byte>, q: nat, m: DocMember, r: Parsed<Member>) {
    r.Parsed? && q <= r.end <= |buf| && MemberText(m) == buf[q..r.end] && MemberMeaning(m) == r.value
  }

  /** Where the parts of an accepted member stand. */
  lemma MemberPlaces(buf: seq<Byte>, o: nat, depth: nat) returns (q: nat, colon: nat, v: nat)
    requires o < |buf| && ParseMember(buf, o, depth).Parsed?
    ensures o < q < |buf| && q == Skip(buf, o + 1) && ParseString(buf, q).Parsed?
    ensures colon == Skip(buf, ParseString(buf, q).end) && colon < |buf| && buf[colon] == COLON
    ensures v == Skip(buf, colon + 1) && ParseValue(buf, v, depth).Parsed?
    ensures ParseMember(buf, o, depth)
            == Parsed(Member(ParseString(buf, q).value, ParseValue(buf, v, depth).value), ParseValue(buf, v, depth).end)
  {
    q := Skip(buf, o + 1);
    colon := Skip(buf, ParseString(buf, q).end);
    v := Skip(buf, colon + 1);
  }

  lemma MemberOf(buf: seq<Byte>, q: nat, sps: Spelled, nameEnd: nat, afterName: Space, colon: nat, beforeValue: Space,
                 v: nat, d: Doc, end: nat)
    requires q <= nameEnd <= colon < v <= end <= |buf| && buf[colon] == COLON
    requires Quoted(sps) == buf[q..nameEnd] && afterName == buf[nameEnd..colon]
    requires beforeValue == buf[colon + 1..v] && Text(d) == buf[v..end]
    ensures MemberText(DocMember([], sps, afterName, beforeValue, d, [])) == buf[q..end]
  {
    FourSlices(buf, q, nameEnd, colon, v, end);
  }

  lemma {:induction false} MemberBack(buf: seq<Byte>, o: nat, depth: nat) returns (m: DocMember)
    requires Strict(buf) && o < |buf| && ParseMember(buf, o, depth).Parsed?
    ensures o + 1 <= |buf| && MemberAt(buf, Skip(buf, o + 1), m, ParseMember(buf, o, depth))
    decreases |buf| - o, 0
  {
    var q, colon, v := MemberPlaces(buf, o, depth);
    var nameEnd, end := ParseString(buf, q).end, ParseValue(buf, v, depth).end;
    var sps := StringBack(buf, q);
    var d := ValueBack(buf, v, depth);
    var afterName := GapBack(buf, nameEnd, colon);
    var beforeValue := GapBack(buf, colon + 1, v);
    m := DocMember([], sps, afterName, beforeValue, d, []);
    MemberOf(buf, q, sps, nameEnd, afterName, colon, beforeValue, v, d, end);
  }

  /** A member from q to `end` with the white space around it, from a and up to `next`. */
  predicate MemberIn(buf: seq<Byte>, a: nat, q: nat, first: DocMember, end: nat, next: nat) {
    a <= q < end <= next < |buf| && first.before == buf[a..q] && MemberText(first) == buf[q..end] &&
    first.after == buf[end..next]
  }

  /** Where an accepted list goes on. */
  lemma MembersPlaces(buf: seq<Byte>, o: nat, depth: nat, q: nat, r: Parsed<seq<Member>>)
    returns (m: Parsed<Member>, next: nat, q': nat, rest: Parsed<seq<Member>>)
    requires o < |buf| && q == Skip(buf, o + 1) && r == ParseMembers(buf, o, depth) && r.Parsed?
    ensures m == ParseMember(buf, o, depth) && m.Parsed? && next == Skip(buf, m.end) && o < next < |buf|
    ensures buf[next] == COMMA ==>
              && q' == Skip(buf, next + 1) && rest == ParseMembers(buf, next, depth) && rest.Parsed?
              && r.value == [m.value] + rest.value && r.end == rest.end
    ensures buf[next] != COMMA ==> buf[next] == CLOSE_OBJECT && r.value == [m.value] && r.end == next + 1
  {
    m := ParseMember(buf, o, depth);
    next := Skip(buf, m.end);
    q' := Skip(buf, next + 1);
    rest := ParseMembers(buf, next, depth);
  }

  lemma {:induction false} MembersBack(buf: seq<Byte>, a: nat, o: nat, depth: nat, q: nat, r: Parsed<seq<Member>>)
    returns (members: seq<DocMember>)
    requires Strict(buf) && o < |buf| && a <= o + 1 && q == Skip(buf, a) == Skip(buf, o + 1)
    requires r == ParseMembers(buf, o, depth) && r.Parsed?
    ensures MembersAt(buf, a, q, members, r.end) && MembersMeaning(members) == r.value
    decreases |buf| - o, 2
  {
    var member, next, q', rest := MembersPlaces(buf, o, depth, q, r);
    var first := MemberPlaced(buf, a, o, depth, q, member, next);
    if buf[next] == COMMA {
      var more := MembersBack(buf, next + 1, next, depth, q', rest);
      members := [first] + more;
      MoreMembers(buf, a, q, first, member.end, next, more, q', r.end);
    } else {
      members := [first];
      LastMemberText(buf, a, q, first, member.end, next);
    }
  }

  /** A member with the white space around it. */
  lemma {:induction false} MemberPlaced(buf: seq<Byte>, a: nat, o: nat, depth: nat, q: nat, r: Parsed<Member>,
                                        next: nat)
    returns (first: DocMember)
    requires Strict(buf) && o < |buf| && a <= o + 1 && q == Skip(buf, a) == Skip(buf, o + 1)
    requires r == ParseMember(buf, o, depth) && r.Parsed? && next == Skip(buf, r.end) && next < |buf|
    ensures MemberIn(buf, a, q, first, r.end, next) && MemberMeaning(first) == r.value
    decreases |buf| - o, 1
  {
    var m := MemberBack(buf, o, depth);
    var before := GapBack(buf, a, q);
    var after := GapBack(buf, r.end, next);
    first := m.(before := before, after := after);
  }

  lemma LastMemberText(buf: seq<Byte>, a: nat, q: nat, first: DocMember, end: nat, next: nat)
    requires MemberIn(buf, a, q, first, end, next) && buf[next] == CLOSE_OBJECT
    ensures MembersAt(buf, a, q, [first], next + 1) && MembersMeaning([first]) == [MemberMeaning(first)]
  {
    OneMember([first]);
    Slices(buf, q, end, next + 1);
    Slices(buf, end, next, next + 1);
    assert MemberText(first) + (first.after + []) + [CLOSE_OBJECT]
        == MemberText(first) + (first.after + [CLOSE_OBJECT]);
  }

  lemma MoreMembers(buf: seq<Byte>, a: nat, q: nat, first: DocMember, end: nat, comma: nat, rest: seq<DocMember>,
                    q': nat, last: nat)
    requires MemberIn(buf, a, q, first, end, comma) && buf[comma] == COMMA
    requires MembersAt(buf, comma + 1, q', rest, last)
    ensures MembersAt(buf, a, q, [first] + rest, last)
    ensures MembersMeaning([first] + rest) == [MemberMeaning(first)] + MembersMeaning(rest)
  {
    var members := [first] + rest;
    assert members[1..] == rest && members[1] == rest[0];
    ManyMembers(members);
    FourSlices(buf, q, end, comma, q', last);
    Regrouped(MemberText(first), first.after, rest[0].before, MembersText(rest), [CLOSE_OBJECT]);
  }

  // ---------------------------------------------------------------- whole texts

  /**
   * Every accepted text without the leniency is a document, behind a byte order mark
   * or none and with white space in front, followed by whatever the parser does not
   * look at; and the value is what the document means.
   */
  lemma AcceptedIsDocument(text: CString) returns (mark: bool, lead: Space, d: Doc, rest: CString)
    requires Strict(text + [0]) && Parse(text).Parsed?
    ensures text == Mark(mark) + lead + Text(d) + rest
    ensures Parse(text).value == Meaning(d) && Parse(text).end == |text| - |rest|
  {
    var buf: seq<Byte> := text + [0];
    var start := SkipMark(buf);
    var p, end := Skip(buf, start), Parse(text).end;
    mark := start == 3;
    lead := GapBack(buf, start, p);
    d := ValueBack(buf, p, 0);
    NothingAtNul(buf, p, end, d);
    rest := text[end..];
    MarkBack(buf);
    TextParts(text, start, p, end);
  }

  lemma MarkBack(buf: seq<Byte>)
    ensures buf[..SkipMark(buf)] == Mark(SkipMark(buf) == 3)
  {
  }

  lemma TextParts(text: CString, start: nat, p: nat, end: nat)
    requires start <= p <= end <= |text|
    ensures var buf := text + [0];
            text == buf[..start] + buf[start..p] + buf[p..end] + text[end..]
  {
  }

  /** A document does not reach over the NUL at the end. */
  lemma NothingAtNul(buf: seq<Byte>, p: nat, end: nat, d: Doc)
    requires p <= end <= |buf| && buf != [] && buf[|buf| - 1] == 0 && Text(d) == buf[p..end]
    ensures end < |buf|
  {
    TextNulFree(d);
    assert buf[end - 1] == Text(d)[end - 1 - p];
  }

  /** The leniency: behind `\u`, four bytes that are not all hexadecimal digits are read as NUL, the string's end. */
  lemma LenientLiteral(t: seq<Byte>)
    requires |t| == 4 && !Digits4(t, 0)
    requires forall i :: 0 <= i < 4 ==> t[i] != 0 && t[i] != QUOTE && t[i] != BACKSLASH
    ensures Reads(ParseString([QUOTE, BACKSLASH, LOWER_U] + t + [QUOTE, 0], 0), [], 8)
  {
    var buf := [QUOTE, BACKSLASH, LOWER_U] + t + [QUOTE, 0];
    assert buf[3..7] == t && buf[3] == t[0] && buf[4] == t[1] && buf[5] == t[2] && buf[6] == t[3];
    PlainBytes(buf, 3, 4);
    assert StringEnd(buf, 1) == StringEnd(buf, 3) == StringEnd(buf, 7) == 7;
    assert Hex4(buf, 3) == 0;
    assert Utf16Literal(buf, 1, 7) == Parsed([0], 7);
    assert Unescape(buf, 7, 7) == Parsed([], 7);
    assert Unescape(buf, 1, 7) == UnescapeEscape(buf, 1, 7) == UnescapeLiteral(buf, 1, 7);
    assert UnescapeLiteral(buf, 1, 7) == Prefixed([0], Unescape(buf, 7, 7)) && [0] + [] == [0];
    assert UpToNul([0]) == [];
  }
}
