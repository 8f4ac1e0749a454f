/**
 * JSON documents as RFC 8259 writes them, without numbers: white space between
 * tokens, strings spelled in any way.  cJSON reads every such document as the value
 * it stands for (src/cjson/cJSON.c), and what it prints is one of them.
 */
module JsonDoc {
  import opened Basics
  import opened JsonText
  import opened Json

  /** White space: any bytes up to the space, of which RFC 8259 allows 9, 10, 13 and 32. */
  type Space = s: seq<Byte> | forall i :: 0 <= i < |s| ==> 0 < s[i] <= 32

  /** An array or object without elements has a gap between its brackets. */
  datatype Doc =
    | DocNull | DocFalse | DocTrue
    | DocString(text: Spelled)
    | DocArray(gap: Space, items: seq<DocItem>)
    | DocObject(gap: Space, members: seq<DocMember>)

  datatype DocItem = DocItem(before: Space, doc: Doc, after: Space)

  datatype DocMember =
    DocMember(before: Space, name: Spelled, afterName: Space, beforeValue: Space, doc: Doc, after: Space)

  // ---------------------------------------------------------------- text and meaning

  function Text(d: Doc): (t: seq<Byte>)
    ensures t != [] && 32 < t[0] < 128 && t[0] != CLOSE_ARRAY && t[0] != CLOSE_OBJECT
  {
    match d
    case DocNull => NULL_TEXT
    case DocFalse => FALSE_TEXT
    case DocTrue => TRUE_TEXT
    case DocString(text) => Quoted(text)
    case DocArray(gap, items) =>
      [OPEN_ARRAY] + (if items == [] then gap else items[0].before + ItemsText(items)) + [CLOSE_ARRAY]
    case DocObject(gap, members) =>
      [OPEN_OBJECT] + (if members == [] then gap else members[0].before + MembersText(members)) + [CLOSE_OBJECT]
  }

  /** The elements of an array, from the first byte of the first one on. */
  function ItemsText(items: seq<DocItem>): (t: seq<Byte>)
    requires items != []
    ensures t != [] && t[0] > 32 && t[0] != CLOSE_ARRAY
  {
    Text(items[0].doc) + (items[0].after +
    if |items| == 1 then [] else [COMMA] + (items[1].before + ItemsText(items[1..])))
  }

  function MemberText(m: DocMember): (t: seq<Byte>)
    ensures t != [] && t[0] == QUOTE
  {
    Quoted(m.name) + (m.afterName + ([COLON] + (m.beforeValue + Text(m.doc))))
  }

  function MembersText(members: seq<DocMember>): (t: seq<Byte>)
    requires members != []
    ensures t != [] && t[0] == QUOTE
  {
    MemberText(members[0]) + (members[0].after +
    if |members| == 1 then [] else [COMMA] + (members[1].before + MembersText(members[1..])))
  }

  function Meaning(d: Doc): Value {
    match d
    case DocNull => Null
    case DocFalse => False
    case DocTrue => True
    case DocString(text) => Str(StringMeaning(text))
    case DocArray(_, items) => Arr(ItemsMeaning(items))
    case DocObject(_, members) => Obj(MembersMeaning(members))
  }

  function ItemsMeaning(items: seq<DocItem>): (r: seq<Value>)
    ensures |r| == |items|
  {
    if items == [] then [] else [Meaning(items[0].doc)] + ItemsMeaning(items[1..])
  }

  function MemberMeaning(m: DocMember): Member {
    Member(StringMeaning(m.name), Meaning(m.doc))
  }

  function MembersMeaning(members: seq<DocMember>): (r: seq<Member>)
    ensures |r| == |members|
  {
    if members == [] then [] else [MemberMeaning(members[0])] + MembersMeaning(members[1..])
  }

  // ---------------------------------------------------------------- white space

  lemma {:induction false} GapSkipped(buf: seq<Byte>, off: nat, gap: Space)
    requires At(buf, off, gap) && off + |gap| < |buf| && buf[off + |gap|] > 32
    ensures Spaces(buf, off) == off + |gap|
    decreases |gap|
  {
    if gap != [] {
      AtByte(buf, off, gap, 0);
      assert gap == [gap[0]] + gap[1..];
      AtSplit(buf, off, [gap[0]], gap[1..]);
      GapSkipped(buf, off + 1, gap[1..]);
    }
  }

  /** A gap and what follows it: skipping leads to the first byte behind the gap. */
  lemma SkipGap(buf: seq<Byte>, off: nat, gap: Space, t: seq<Byte>) returns (p: nat)
    requires At(buf, off, gap + t) && t != [] && t[0] > 32
    ensures p == off + |gap| < |buf| && At(buf, p, t) && buf[p] == t[0]
    ensures off <= |buf| && Skip(buf, off) == p
  {
    p := off + |gap|;
    AtSplit(buf, off, gap, t);
    AtByte(buf, p, t, 0);
    GapSkipped(buf, off, gap);
  }

  // ---------------------------------------------------------------- reading

  /** A value is read if it fits into the nesting that is left, and refused otherwise. */
  predicate ReadsWithin<T(==)>(r: Parsed<T>, value: T, end: nat, deepest: nat) {
    if deepest <= NESTING_LIMIT then Reads(r, value, end) else r.Failed?
  }

  lemma KeywordsDiffer(buf: seq<Byte>, off: nat, b: Byte)
    requires ByteAt(buf, off, b)
    ensures At(buf, off, NULL_TEXT) ==> b == NULL_TEXT[0]
    ensures At(buf, off, FALSE_TEXT) ==> b == FALSE_TEXT[0]
    ensures At(buf, off, TRUE_TEXT) ==> b == TRUE_TEXT[0]
  {
  }

  /**
   * A document at `off` is read there, whatever stands around it: up to the end of
   * its text, or not at all if it nests too deep.
   */
  lemma {:induction false} DocReads(buf: seq<Byte>, off: nat, depth: nat, d: Doc, end: nat, deepest: nat)
    requires At(buf, off, Text(d)) && depth <= NESTING_LIMIT
    requires end == off + |Text(d)| && deepest == depth + Depth(Meaning(d))
    ensures ReadsWithin(ParseValue(buf, off, depth), Meaning(d), end, deepest)
    decreases d, 3
  {
    AtByte(buf, off, Text(d), 0);
    KeywordsDiffer(buf, off, Text(d)[0]);
    match d
    case DocNull =>
    case DocFalse =>
    case DocTrue =>
    case DocString(text) => QuotedReads(buf, off, text);
    case DocArray(gap, items) => ArrayReads(buf, off, depth, gap, items, end, deepest);
    case DocObject(gap, members) => ObjectReads(buf, off, depth, gap, members, end, deepest);
  }

  // How the text inside brackets follows the opening one.
  lemma BracketSplit(buf: seq<Byte>, off: nat, open: Byte, inner: seq<Byte>, close: Byte)
    requires At(buf, off, [open] + inner + [close])
    ensures off + 1 < |buf| && buf[off] == open && At(buf, off + 1, inner + [close])
  {
    assert [open] + inner + [close] == [open] + (inner + [close]);
    AtSplit(buf, off, [open], inner + [close]);
    AtByte(buf, off, [open], 0);
  }

  /** The first element of what the bracket at `off` opens stands at p. */
  predicate InsideAt(buf: seq<Byte>, off: nat, p: nat, close: Byte) {
    off < p < |buf| && Skip(buf, off + 1) == p && Skip(buf, p) == p && buf[p] != close
  }

  lemma FirstInside(buf: seq<Byte>, off: nat, open: Byte, before: Space, t: seq<Byte>, close: Byte) returns (p: nat)
    requires At(buf, off, [open] + (before + t) + [close]) && t != [] && t[0] > 32 && t[0] != close
    ensures InsideAt(buf, off, p, close) && At(buf, p, t + [close])
    ensures p + |t| + 1 == off + |[open] + (before + t) + [close]|
  {
    BracketSplit(buf, off, open, before + t, close);
    assert before + t + [close] == before + (t + [close]);
    p := SkipGap(buf, off + 1, before, t + [close]);
  }

  lemma NothingInside(buf: seq<Byte>, off: nat, open: Byte, gap: Space, close: Byte) returns (p: nat)
    requires At(buf, off, [open] + gap + [close]) && close > 32
    ensures off < p < |buf| && Skip(buf, off + 1) == p && buf[p] == close
    ensures p + 1 == off + |[open] + gap + [close]|
  {
    BracketSplit(buf, off, open, gap, close);
    p := SkipGap(buf, off + 1, gap, [close]);
  }

  // The step lemmas below follow one turn of a parse loop, given how its parts read.

  lemma ArrayStep(buf: seq<Byte>, off: nat, depth: nat, p: nat, o: nat, r: Parsed<seq<Value>>, items: seq<Value>,
                  end: nat, deepest: nat)
    requires InsideAt(buf, off, p, CLOSE_ARRAY) && depth < NESTING_LIMIT && o + 1 == p
    requires r == ParseItems(buf, o, depth + 1) && ReadsWithin(r, items, end, deepest)
    ensures ReadsWithin(ParseArray(buf, off, depth), Arr(items), end, deepest)
  {
  }

  lemma EmptyArray(buf: seq<Byte>, off: nat, depth: nat, p: nat)
    requires off < p < |buf| && Skip(buf, off + 1) == p && buf[p] == CLOSE_ARRAY
    ensures ReadsWithin(ParseArray(buf, off, depth), Arr([]), p + 1, depth + 1)
  {
  }

  lemma {:induction false} ArrayReads(buf: seq<Byte>, off: nat, depth: nat, gap: Space, items: seq<DocItem>,
                                      end: nat, deepest: nat)
    requires At(buf, off, Text(DocArray(gap, items))) && depth <= NESTING_LIMIT
    requires end == off + |Text(DocArray(gap, items))| && deepest == depth + 1 + ItemsDepth(ItemsMeaning(items))
    ensures off < |buf|
    ensures ReadsWithin(ParseArray(buf, off, depth), Arr(ItemsMeaning(items)), end, deepest)
    decreases items, 2
  {
    if items == [] {
      var p := NothingInside(buf, off, OPEN_ARRAY, gap, CLOSE_ARRAY);
      EmptyArray(buf, off, depth, p);
    } else {
      var p := ArrayOpens(buf, off, gap, items, end);
      if depth < NESTING_LIMIT { ArrayFilled(buf, off, depth, p, p - 1, items, end, deepest); }
    }
  }

  lemma {:induction false} ArrayFilled(buf: seq<Byte>, off: nat, depth: nat, p: nat, o: nat, items: seq<DocItem>,
                                       end: nat, deepest: nat)
    requires items != [] && InsideAt(buf, off, p, CLOSE_ARRAY) && o + 1 == p && depth < NESTING_LIMIT
    requires At(buf, p, ItemsText(items) + [CLOSE_ARRAY])
    requires end == p + |ItemsText(items)| + 1 && deepest == depth + 1 + ItemsDepth(ItemsMeaning(items))
    ensures ReadsWithin(ParseArray(buf, off, depth), Arr(ItemsMeaning(items)), end, deepest)
    decreases items, 1
  {
    ItemsRead(buf, o, p, depth + 1, items, end, deepest);
    ArrayStep(buf, off, depth, p, o, ParseItems(buf, o, depth + 1), ItemsMeaning(items), end, deepest);
  }

  lemma ArrayOpens(buf: seq<Byte>, off: nat, gap: Space, items: seq<DocItem>, end: nat) returns (p: nat)
    requires items != [] && At(buf, off, Text(DocArray(gap, items))) && end == off + |Text(DocArray(gap, items))|
    ensures InsideAt(buf, off, p, CLOSE_ARRAY)
    ensures At(buf, p, ItemsText(items) + [CLOSE_ARRAY]) && end == p + |ItemsText(items)| + 1
  {
    p := FirstInside(buf, off, OPEN_ARRAY, items[0].before, ItemsText(items), CLOSE_ARRAY);
  }

  /** An element stands at p, the first byte above white space behind `off`, and `next` is the first behind it. */
  predicate Between(buf: seq<Byte>, off: nat, p: nat, end: nat, next: nat) {
    off < p <= |buf| && off + 1 <= |buf| && Skip(buf, off + 1) == p &&
    off < end <= next < |buf| && Skip(buf, end) == next
  }

  lemma LastItem(buf: seq<Byte>, off: nat, p: nat, depth: nat, v: Value, end: nat, next: nat, deepest: nat)
    requires Between(buf, off, p, end, next) && buf[next] == CLOSE_ARRAY
    requires ReadsWithin(ParseValue(buf, p, depth), v, end, deepest)
    ensures ReadsWithin(ParseItems(buf, off, depth), [v], next + 1, deepest)
  {
  }

  lemma NextItem(buf: seq<Byte>, off: nat, p: nat, depth: nat, v: Value, end: nat, comma: nat, d: nat,
                 rest: seq<Value>, last: nat, d': nat)
    requires Between(buf, off, p, end, comma) && buf[comma] == COMMA
    requires ReadsWithin(ParseValue(buf, p, depth), v, end, d)
    requires ReadsWithin(ParseItems(buf, comma, depth), rest, last, d')
    ensures ReadsWithin(ParseItems(buf, off, depth), [v] + rest, last, Max(d, d'))
  {
  }

  /** How the text of a list splits behind its last element. */
  lemma ListEnd(buf: seq<Byte>, off: nat, p: nat, t: seq<Byte>, after: Space, close: Byte)
    returns (end: nat, next: nat)
    requires off < p <= |buf| && off + 1 <= |buf| && Skip(buf, off + 1) == p && t != [] && close > 32
    requires At(buf, p, t + (after + []) + [close])
    ensures At(buf, p, t) && end == p + |t| && next + 1 == p + |t + (after + []) + [close]|
    ensures Between(buf, off, p, end, next) && buf[next] == close
  {
    assert t + (after + []) + [close] == t + (after + [close]);
    AtSplit(buf, p, t, after + [close]);
    end := p + |t|;
    next := SkipGap(buf, end, after, [close]);
  }

  /** And behind an element that is not the last: `p'` is where the next one starts. */
  lemma ListSplit(buf: seq<Byte>, off: nat, p: nat, t: seq<Byte>, after: Space, before: Space, rest: seq<Byte>,
                  close: Byte)
    returns (end: nat, comma: nat, p': nat)
    requires off < p <= |buf| && off + 1 <= |buf| && Skip(buf, off + 1) == p && t != []
    requires rest != [] && rest[0] > 32 && At(buf, p, t + (after + ([COMMA] + (before + rest))) + [close])
    ensures At(buf, p, t) && end == p + |t| && Between(buf, off, p, end, comma) && buf[comma] == COMMA
    ensures comma < p' <= |buf| && Skip(buf, comma + 1) == p' && At(buf, p', rest + [close])
    ensures p' + |rest + [close]| == p + |t + (after + ([COMMA] + (before + rest))) + [close]|
  {
    var tail := [COMMA] + (before + (rest + [close]));
    assert t + (after + ([COMMA] + (before + rest))) + [close] == t + (after + tail);
    AtSplit(buf, p, t, after + tail);
    end := p + |t|;
    comma, p' := CommaSplit(buf, end, after, before, rest + [close]);
  }

  lemma CommaSplit(buf: seq<Byte>, end: nat, after: Space, before: Space, t: seq<Byte>) returns (comma: nat, p': nat)
    requires At(buf, end, after + ([COMMA] + (before + t))) && t != [] && t[0] > 32
    ensures end <= comma < p' <= |buf| && Skip(buf, end) == comma && buf[comma] == COMMA
    ensures Skip(buf, comma + 1) == p' && At(buf, p', t) && p' + |t| == end + |after + ([COMMA] + (before + t))|
  {
    var tail := before + t;
    comma := SkipGap(buf, end, after, [COMMA] + tail);
    AtSplit(buf, comma, [COMMA], tail);
    p' := SkipGap(buf, comma + 1, before, t);
  }

  lemma OneItem(items: seq<DocItem>)
    requires |items| == 1
    ensures ItemsText(items) == Text(items[0].doc) + (items[0].after + [])
    ensures ItemsMeaning(items) == [Meaning(items[0].doc)]
    ensures ItemsDepth(ItemsMeaning(items)) == Depth(Meaning(items[0].doc))
  {
    assert items[1..] == [] && ItemsMeaning(items)[1..] == [];
  }

  lemma ManyItems(items: seq<DocItem>)
    requires |items| > 1
    ensures ItemsText(items)
            == Text(items[0].doc) + (items[0].after + ([COMMA] + (items[1].before + ItemsText(items[1..]))))
    ensures ItemsMeaning(items) == [Meaning(items[0].doc)] + ItemsMeaning(items[1..])
    ensures ItemsDepth(ItemsMeaning(items))
            == Max(Depth(Meaning(items[0].doc)), ItemsDepth(ItemsMeaning(items[1..])))
  {
    assert ItemsMeaning(items)[1..] == ItemsMeaning(items[1..]);
  }

  lemma {:induction false} ItemsRead(buf: seq<Byte>, off: nat, p: nat, depth: nat, items: seq<DocItem>,
                                     last: nat, deepest: nat)
    requires items != [] && depth <= NESTING_LIMIT
    requires off < p <= |buf| && off + 1 <= |buf| && Skip(buf, off + 1) == p
    requires At(buf, p, ItemsText(items) + [CLOSE_ARRAY])
    requires last == p + |ItemsText(items)| + 1 && deepest == depth + ItemsDepth(ItemsMeaning(items))
    ensures ReadsWithin(ParseItems(buf, off, depth), ItemsMeaning(items), last, deepest)
    decreases items, 0
  {
    var doc := items[0].doc;
    if |items| == 1 {
      OneItem(items);
      var end, next := ListEnd(buf, off, p, Text(doc), items[0].after, CLOSE_ARRAY);
      DocReads(buf, p, depth, doc, end, deepest);
      LastItem(buf, off, p, depth, Meaning(doc), end, next, deepest);
    } else {
      ManyItems(items);
      var rest, d, d' := items[1..], depth + Depth(Meaning(doc)), depth + ItemsDepth(ItemsMeaning(items[1..]));
      var end, comma, p' := ListSplit(buf, off, p, Text(doc), items[0].after, items[1].before, ItemsText(rest),
                                      CLOSE_ARRAY);
      DocReads(buf, p, depth, doc, end, d);
      ItemsRead(buf, comma, p', depth, rest, last, d');
      NextItem(buf, off, p, depth, Meaning(doc), end, comma, d, ItemsMeaning(rest), last, d');
    }
  }

  lemma ObjectStep(buf: seq<Byte>, off: nat, depth: nat, p: nat, o: nat, r: Parsed<seq<Member>>, members: seq<Member>,
                   end: nat, deepest: nat)
    requires InsideAt(buf, off, p, CLOSE_OBJECT) && depth < NESTING_LIMIT && o + 1 == p
    requires r == ParseMembers(buf, o, depth + 1) && ReadsWithin(r, members, end, deepest)
    ensures ReadsWithin(ParseObject(buf, off, depth), Obj(members), end, deepest)
  {
  }

  lemma EmptyObject(buf: seq<Byte>, off: nat, depth: nat, p: nat)
    requires off < p < |buf| && Skip(buf, off + 1) == p && buf[p] == CLOSE_OBJECT
    ensures ReadsWithin(ParseObject(buf, off, depth), Obj([]), p + 1, depth + 1)
  {
  }

  lemma {:induction false} ObjectReads(buf: seq<Byte>, off: nat, depth: nat, gap: Space, members: seq<DocMember>,
                                       end: nat, deepest: nat)
    requires At(buf, off, Text(DocObject(gap, members))) && depth <= NESTING_LIMIT
    requires end == off + |Text(DocObject(gap, members))|
    requires deepest == depth + 1 + MembersDepth(MembersMeaning(members))
    ensures off < |buf|
    ensures ReadsWithin(ParseObject(buf, off, depth), Obj(MembersMeaning(members)), end, deepest)
    decreases members, 2
  {
    if members == [] {
      var p := NothingInside(buf, off, OPEN_OBJECT, gap, CLOSE_OBJECT);
      EmptyObject(buf, off, depth, p);
    } else {
      var p := ObjectOpens(buf, off, gap, members, end);
      if depth < NESTING_LIMIT { ObjectFilled(buf, off, depth, p, p - 1, members, end, deepest); }
    }
  }

  lemma {:induction false} ObjectFilled(buf: seq<Byte>, off: nat, depth: nat, p: nat, o: nat, members: seq<DocMember>,
                                       end: nat, deepest: nat)
    requires members != [] && InsideAt(buf, off, p, CLOSE_OBJECT) && o + 1 == p && depth < NESTING_LIMIT
    requires At(buf, p, MembersText(members) + [CLOSE_OBJECT])
    requires end == p + |MembersText(members)| + 1 && deepest == depth + 1 + MembersDepth(MembersMeaning(members))
    ensures ReadsWithin(ParseObject(buf, off, depth), Obj(MembersMeaning(members)), end, deepest)
    decreases members, 1
  {
    MembersRead(buf, o, p, depth + 1, members, end, deepest);
    ObjectStep(buf, off, depth, p, o, ParseMembers(buf, o, depth + 1), MembersMeaning(members), end, deepest);
  }

  lemma ObjectOpens(buf: seq<Byte>, off: nat, gap: Space, members: seq<DocMember>, end: nat) returns (p: nat)
    requires members != [] && At(buf, off, Text(DocObject(gap, members)))
    requires end == off + |Text(DocObject(gap, members))|
    ensures InsideAt(buf, off, p, CLOSE_OBJECT)
    ensures At(buf, p, MembersText(members) + [CLOSE_OBJECT]) && end == p + |MembersText(members)| + 1
  {
    p := FirstInside(buf, off, OPEN_OBJECT, members[0].before, MembersText(members), CLOSE_OBJECT);
  }

  /** A name from p, the first byte above white space behind `off`, to `end`; its colon; and the place of the value. */
  predicate NameAt(buf: seq<Byte>, off: nat, p: nat, end: nat, colon: nat, q: nat) {
    off < p < end <= |buf| && Skip(buf, off + 1) == p && Skip(buf, end) == colon &&
    ByteAt(buf, colon, COLON) && Skip(buf, colon + 1) == q
  }

  lemma MemberStep(buf: seq<Byte>, off: nat, p: nat, depth: nat, name: CString, nameEnd: nat, colon: nat, q: nat,
                   v: Value, end: nat, deepest: nat)
    requires NameAt(buf, off, p, nameEnd, colon, q) && Reads(ParseString(buf, p), name, nameEnd)
    requires ReadsWithin(ParseValue(buf, q, depth), v, end, deepest)
    ensures ReadsWithin(ParseMember(buf, off, depth), Member(name, v), end, deepest)
  {
  }

  /** How a text with a colon in it splits. */
  lemma ColonSplit(buf: seq<Byte>, end: nat, gap: Space, gap': Space, t: seq<Byte>) returns (colon: nat, q: nat)
    requires At(buf, end, gap + ([COLON] + (gap' + t))) && t != [] && t[0] > 32
    ensures end <= |buf| && Skip(buf, end) == colon && ByteAt(buf, colon, COLON) && Skip(buf, colon + 1) == q
    ensures At(buf, q, t) && q + |t| == end + |gap + ([COLON] + (gap' + t))|
  {
    var tail := gap' + t;
    colon := SkipGap(buf, end, gap, [COLON] + tail);
    AtSplit(buf, colon, [COLON], tail);
    q := SkipGap(buf, colon + 1, gap', t);
  }

  lemma NameReads(buf: seq<Byte>, off: nat, p: nat, m: DocMember, end: nat) returns (nameEnd: nat, colon: nat, q: nat)
    requires off < p <= |buf| && off + 1 <= |buf| && Skip(buf, off + 1) == p
    requires At(buf, p, MemberText(m)) && end == p + |MemberText(m)|
    ensures NameAt(buf, off, p, nameEnd, colon, q) && Reads(ParseString(buf, p), StringMeaning(m.name), nameEnd)
    ensures At(buf, q, Text(m.doc)) && end == q + |Text(m.doc)|
  {
    nameEnd := p + |Quoted(m.name)|;
    AtSplit(buf, p, Quoted(m.name), m.afterName + ([COLON] + (m.beforeValue + Text(m.doc))));
    colon, q := ColonSplit(buf, nameEnd, m.afterName, m.beforeValue, Text(m.doc));
    QuotedReads(buf, p, m.name);
  }

  lemma {:induction false} MemberReads(buf: seq<Byte>, off: nat, p: nat, depth: nat, m: DocMember, end: nat,
                                       deepest: nat)
    requires off < p <= |buf| && off + 1 <= |buf| && Skip(buf, off + 1) == p && depth <= NESTING_LIMIT
    requires At(buf, p, MemberText(m)) && end == p + |MemberText(m)| && deepest == depth + Depth(Meaning(m.doc))
    ensures ReadsWithin(ParseMember(buf, off, depth), MemberMeaning(m), end, deepest)
    decreases m, 4
  {
    var nameEnd, colon, q := NameReads(buf, off, p, m, end);
    DocReads(buf, q, depth, m.doc, end, deepest);
    MemberStep(buf, off, p, depth, StringMeaning(m.name), nameEnd, colon, q, Meaning(m.doc), end, deepest);
  }

  lemma LastMember(buf: seq<Byte>, off: nat, p: nat, depth: nat, m: Member, end: nat, next: nat, deepest: nat)
    requires Between(buf, off, p, end, next) && buf[next] == CLOSE_OBJECT
    requires ReadsWithin(ParseMember(buf, off, depth), m, end, deepest)
    ensures ReadsWithin(ParseMembers(buf, off, depth), [m], next + 1, deepest)
  {
  }

  lemma NextMember(buf: seq<Byte>, off: nat, p: nat, depth: nat, m: Member, end: nat, comma: nat, d: nat,
                   rest: seq<Member>, last: nat, d': nat)
    requires Between(buf, off, p, end, comma) && buf[comma] == COMMA
    requires ReadsWithin(ParseMember(buf, off, depth), m, end, d)
    requires ReadsWithin(ParseMembers(buf, comma, depth), rest, last, d')
    ensures ReadsWithin(ParseMembers(buf, off, depth), [m] + rest, last, Max(d, d'))
  {
  }

  lemma OneMember(members: seq<DocMember>)
    requires |members| == 1
    ensures MembersText(members) == MemberText(members[0]) + (members[0].after + [])
    ensures MembersMeaning(members) == [MemberMeaning(members[0])]
    ensures MembersDepth(MembersMeaning(members)) == Depth(Meaning(members[0].doc))
  {
    assert members[1..] == [] && MembersMeaning(members)[1..] == [];
  }

  lemma ManyMembers(members: seq<DocMember>)
    requires |members| > 1
    ensures MembersText(members)
            == MemberText(members[0]) + (members[0].after + ([COMMA] + (members[1].before + MembersText(members[1..]))))
    ensures MembersMeaning(members) == [MemberMeaning(members[0])] + MembersMeaning(members[1..])
    ensures MembersDepth(MembersMeaning(members))
            == Max(Depth(Meaning(members[0].doc)), MembersDepth(MembersMeaning(members[1..])))
  {
    assert MembersMeaning(members)[1..] == MembersMeaning(members[1..]);
  }

  lemma {:induction false} MembersRead(buf: seq<Byte>, off: nat, p: nat, depth: nat, members: seq<DocMember>,
                                       last: nat, deepest: nat)
    requires members != [] && depth <= NESTING_LIMIT
    requires off < p <= |buf| && off + 1 <= |buf| && Skip(buf, off + 1) == p
    requires At(buf, p, MembersText(members) + [CLOSE_OBJECT])
    requires last == p + |MembersText(members)| + 1 && deepest == depth + MembersDepth(MembersMeaning(members))
    ensures ReadsWithin(ParseMembers(buf, off, depth), MembersMeaning(members), last, deepest)
    decreases members, 0
  {
    var m := members[0];
    if |members| == 1 {
      OneMember(members);
      var end, next := ListEnd(buf, off, p, MemberText(m), m.after, CLOSE_OBJECT);
      MemberReads(buf, off, p, depth, m, end, deepest);
      LastMember(buf, off, p, depth, MemberMeaning(m), end, next, deepest);
    } else {
      ManyMembers(members);
      var rest, d := members[1..], depth + Depth(Meaning(m.doc));
      var d' := depth + MembersDepth(MembersMeaning(rest));
      var end, comma, p' := ListSplit(buf, off, p, MemberText(m), m.after, members[1].before, MembersText(rest),
                                      CLOSE_OBJECT);
      MemberReads(buf, off, p, depth, m, end, d);
      MembersRead(buf, comma, p', depth, rest, last, d');
      NextMember(buf, off, p, depth, MemberMeaning(m), end, comma, d, MembersMeaning(rest), last, d');
    }
  }

  // ---------------------------------------------------------------- whole texts

  /** The bytes of the tokens, as RFC 8259 names them. */
  lemma Tokens()
    ensures NULL_TEXT == ['n' as int, 'u' as int, 'l' as int, 'l' as int]
    ensures TRUE_TEXT == ['t' as int, 'r' as int, 'u' as int, 'e' as int]
    ensures FALSE_TEXT == ['f' as int, 'a' as int, 'l' as int, 's' as int, 'e' as int]
    ensures OPEN_ARRAY == '[' as int && CLOSE_ARRAY == ']' as int
    ensures OPEN_OBJECT == '{' as int && CLOSE_OBJECT == '}' as int
    ensures COMMA == ',' as int && COLON == ':' as int && QUOTE == '"' as int && BACKSLASH == '\\' as int
  {
  }

  const BYTE_ORDER_MARK: seq<Byte> := [0xEF, 0xBB, 0xBF]

  function Mark(mark: bool): seq<Byte> {
    if mark then BYTE_ORDER_MARK else []
  }

  /** Where the value of a text is looked for. */
  lemma ValuePlace(buf: seq<Byte>, mark: bool, lead: Space, t: seq<Byte>, rest: seq<Byte>) returns (p: nat)
    requires t != [] && 32 < t[0] < 128 && rest != [] && buf == Mark(mark) + lead + t + rest
    ensures p == |Mark(mark)| + |lead| && SkipMark(buf) <= |buf| && Skip(buf, SkipMark(buf)) == p && At(buf, p, t)
  {
    assert buf == Mark(mark) + (lead + (t + rest));
    assert At(buf, 0, Mark(mark) + (lead + (t + rest)));
    AtSplit(buf, 0, Mark(mark), lead + (t + rest));
    MarkSkipped(buf, mark, lead, t, rest);
    p := SkipGap(buf, |Mark(mark)|, lead, t + rest);
    AtSplit(buf, p, t, rest);
  }

  /**
   * Every document parses to its meaning if that is nested at most 1000 deep, and is
   * refused if it is nested deeper: behind a byte order mark or none, with white
   * space in front, and whatever follows it.
   */
  lemma DocumentParses(mark: bool, lead: Space, d: Doc, rest: CString)
    ensures NulFree(Text(d))
    ensures ReadsWithin(Parse(Mark(mark) + lead + Text(d) + rest), Meaning(d), |Mark(mark)| + |lead| + |Text(d)|,
                        Depth(Meaning(d)))
  {
    TextNulFree(d);
    var text: CString := Mark(mark) + lead + Text(d) + rest;
    var buf: seq<Byte> := text + [0];
    assert buf == Mark(mark) + lead + Text(d) + (rest + [0]);
    var p := ValuePlace(buf, mark, lead, Text(d), rest + [0]);
    DocReads(buf, p, 0, d, p + |Text(d)|, Depth(Meaning(d)));
  }

  lemma {:induction false} SpelledNulFree(sps: Spelled)
    ensures NulFree(SpelledText(sps))
    decreases |sps|
  {
    if sps != [] {
      SpellingNulFree(sps[0]);
      SpelledUnfolds(sps);
      SpelledNulFree(sps[1..]);
    }
  }

  lemma SpellingNulFree(sp: Spelling)
    requires Spells(sp)
    ensures NulFree(SpellingText(sp))
  {
    if sp.Unicode? && sp.cp >= 0x10000 {
      var n := sp.cp - 0x10000;
      assert NulFree(Hex4Text(0xD800 + n / 1024, sp.u)) && NulFree(Hex4Text(0xDC00 + n % 1024, sp.u'));
    }
  }

  lemma {:induction false} TextNulFree(d: Doc)
    ensures NulFree(Text(d))
    decreases d, 1
  {
    match d
    case DocNull =>
    case DocFalse =>
    case DocTrue =>
    case DocString(text) =>
      SpelledNulFree(text);
      NulFreeBetween(QUOTE, SpelledText(text), QUOTE);
    case DocArray(gap, items) =>
      if items == [] {
        NulFreeBetween(OPEN_ARRAY, gap, CLOSE_ARRAY);
      } else {
        ItemsNulFree(items);
        NulFreeBoth(items[0].before, ItemsText(items));
        NulFreeBetween(OPEN_ARRAY, items[0].before + ItemsText(items), CLOSE_ARRAY);
      }
    case DocObject(gap, members) =>
      if members == [] {
        NulFreeBetween(OPEN_OBJECT, gap, CLOSE_OBJECT);
      } else {
        MembersNulFree(members);
        NulFreeBoth(members[0].before, MembersText(members));
        NulFreeBetween(OPEN_OBJECT, members[0].before + MembersText(members), CLOSE_OBJECT);
      }
  }

  lemma NulFreeBoth(a: seq<Byte>, b: seq<Byte>)
    requires NulFree(a) && NulFree(b)
    ensures NulFree(a + b)
  {
  }

  lemma NulFreeBetween(open: Byte, t: seq<Byte>, close: Byte)
    requires open != 0 && NulFree(t) && close != 0
    ensures NulFree([open] + t + [close])
  {
  }

  lemma {:induction false} ItemsNulFree(items: seq<DocItem>)
    requires items != []
    ensures NulFree(ItemsText(items))
    decreases items, 0
  {
    TextNulFree(items[0].doc);
    if |items| > 1 { ItemsNulFree(items[1..]); }
  }

  lemma {:induction false} MembersNulFree(members: seq<DocMember>)
    requires members != []
    ensures NulFree(MembersText(members))
    decreases members, 0
  {
    SpelledNulFree(members[0].name);
    TextNulFree(members[0].doc);
    if |members| > 1 { MembersNulFree(members[1..]); }
  }

  lemma MarkSkipped(buf: seq<Byte>, mark: bool, lead: Space, t: seq<Byte>, rest: seq<Byte>)
    requires t != [] && t[0] < 128 && rest != []
    requires buf == Mark(mark) + (lead + (t + rest))
    ensures SkipMark(buf) == if mark then 3 else 0
  {
    if !mark { assert buf[0] == if lead == [] then t[0] else lead[0]; }
  }

  // ---------------------------------------------------------------- print and parse

  /** The document that is printed for a value: no white space. */
  function Compact(v: Value): Doc {
    match v
    case Null => DocNull
    case False => DocFalse
    case True => DocTrue
    case Str(s) => DocString(SpellingsOf(s))
    case Arr(items) => DocArray([], CompactItems(items))
    case Obj(members) => DocObject([], CompactMembers(members))
  }

  function CompactItems(items: seq<Value>): (r: seq<DocItem>)
    ensures |r| == |items| && forall i :: 0 <= i < |r| ==> r[i].before == [] && r[i].after == []
  {
    if items == [] then [] else [DocItem([], Compact(items[0]), [])] + CompactItems(items[1..])
  }

  function CompactMember(m: Member): DocMember {
    DocMember([], SpellingsOf(m.name), [], [], Compact(m.value), [])
  }

  function CompactMembers(members: seq<Member>): (r: seq<DocMember>)
    ensures |r| == |members| && forall i :: 0 <= i < |r| ==> r[i].before == [] && r[i].after == []
  {
    if members == [] then [] else [CompactMember(members[0])] + CompactMembers(members[1..])
  }

  lemma SpelledPrints(s: CString)
    ensures Quoted(SpellingsOf(s)) == PrintString(s) && StringMeaning(SpellingsOf(s)) == s
  {
    PrintedIsSpelled(s);
    UpToNulKeeps(s);
  }

  predicate Prints(v: Value) {
    Text(Compact(v)) == Print(v) && Meaning(Compact(v)) == v
  }

  lemma {:induction false} CompactPrints(v: Value)
    ensures Prints(v)
    decreases v, 1
  {
    match v
    case Str(s) => StringPrints(s);
    case Arr(items) => CompactArrayPrints(items);
    case Obj(members) => CompactObjectPrints(members);
    case _ => KeywordPrints(v);
  }

  lemma KeywordPrints(v: Value)
    requires v == Null || v == False || v == True
    ensures Prints(v)
  {
  }

  lemma StringPrints(s: CString)
    ensures Prints(Str(s))
  {
    SpelledPrints(s);
  }

  lemma {:induction false} CompactArrayPrints(items: seq<Value>)
    ensures Prints(Arr(items))
    decreases items, 1
  {
    CompactItemsPrint(items);
    var d := Compact(Arr(items));
    assert d == DocArray([], CompactItems(items));
    ArrayPrints(items, d);
  }

  lemma ArrayPrints(items: seq<Value>, d: Doc)
    requires d.DocArray? && d.gap == [] && ItemsMeaning(d.items) == items
    requires d.items != [] ==> d.items[0].before == [] && ItemsText(d.items) == PrintItems(items)
    ensures Text(d) == Print(Arr(items)) && Meaning(d) == Arr(items)
  {
    if d.items != [] { assert d.items[0].before + ItemsText(d.items) == PrintItems(items); }
  }

  lemma {:induction false} CompactObjectPrints(members: seq<Member>)
    ensures Prints(Obj(members))
    decreases members, 1
  {
    CompactMembersPrint(members);
    var d := Compact(Obj(members));
    assert d == DocObject([], CompactMembers(members));
    ObjectPrints(members, d);
  }

  lemma ObjectPrints(members: seq<Member>, d: Doc)
    requires d.DocObject? && d.gap == [] && MembersMeaning(d.members) == members
    requires d.members != [] ==> d.members[0].before == [] && MembersText(d.members) == PrintMembers(members)
    ensures Text(d) == Print(Obj(members)) && Meaning(d) == Obj(members)
  {
    if d.members != [] { assert d.members[0].before + MembersText(d.members) == PrintMembers(members); }
  }

  lemma {:induction false} CompactItemsPrint(items: seq<Value>)
    ensures ItemsMeaning(CompactItems(items)) == items
    ensures items != [] ==> ItemsText(CompactItems(items)) == PrintItems(items)
    decreases items, 0
  {
    if items != [] {
      var docs, rest := CompactItems(items), items[1..];
      assert docs[1..] == CompactItems(rest) && docs[0].doc == Compact(items[0]);
      CompactPrints(items[0]);
      CompactItemsPrint(rest);
      assert items == [items[0]] + rest;
      ListPrints(Print(items[0]), docs[0].after, if rest == [] then [] else docs[1].before,
                 if rest == [] then [] else PrintItems(rest));
    }
  }

  lemma ListPrints(first: seq<Byte>, after: seq<Byte>, before: seq<Byte>, rest: seq<Byte>)
    requires after == [] && before == []
    ensures first + (after + ([COMMA] + (before + rest))) == first + ([COMMA] + rest)
    ensures first + (after + []) == first
  {
  }

  lemma {:induction false} CompactMembersPrint(members: seq<Member>)
    ensures MembersMeaning(CompactMembers(members)) == members
    ensures members != [] ==> MembersText(CompactMembers(members)) == PrintMembers(members)
    decreases members, 0
  {
    if members != [] {
      var docs, rest := CompactMembers(members), members[1..];
      assert docs[1..] == CompactMembers(rest) && docs[0] == CompactMember(members[0]);
      CompactPrints(members[0].value);
      CompactMemberPrints(members[0]);
      CompactMembersPrint(rest);
      assert members == [members[0]] + rest;
      ListPrints(PrintMember(members[0]), docs[0].after, if rest == [] then [] else docs[1].before,
                 if rest == [] then [] else PrintMembers(rest));
    }
  }

  lemma CompactMemberPrints(m: Member)
    requires Text(Compact(m.value)) == Print(m.value) && Meaning(Compact(m.value)) == m.value
    ensures MemberText(CompactMember(m)) == PrintMember(m) && MemberMeaning(CompactMember(m)) == m
  {
    SpelledPrints(m.name);
    MemberPrints(PrintString(m.name), [], [], Print(m.value));
  }

  lemma MemberPrints(name: seq<Byte>, gap: seq<Byte>, gap': seq<Byte>, value: seq<Byte>)
    requires gap == [] && gap' == []
    ensures name + (gap + ([COLON] + (gap' + value))) == name + ([COLON] + value)
  {
  }

  predicate Clean(t: seq<Byte>) {
    forall i :: 0 <= i < |t| ==> t[i] > 31
  }

  /** Nothing below the space is printed, so a printed reply is one line and one C string. */
  lemma {:induction false} PrintIsClean(v: Value)
    ensures Clean(Print(v))
    decreases v, 1
  {
    match v
    case Null =>
    case False =>
    case True =>
    case Str(s) => PrintedIsClean(s);
    case Arr(items) => PrintItemsClean(items);
    case Obj(members) => PrintMembersClean(members);
  }

  lemma {:induction false} PrintItemsClean(items: seq<Value>)
    ensures Clean(PrintItems(items))
    decreases items, 0
  {
    if items != [] {
      PrintIsClean(items[0]);
      PrintItemsClean(items[1..]);
    }
  }

  lemma {:induction false} PrintMembersClean(members: seq<Member>)
    ensures Clean(PrintMembers(members))
    decreases members, 0
  {
    if members != [] {
      PrintedIsClean(members[0].name);
      PrintIsClean(members[0].value);
      PrintMembersClean(members[1..]);
    }
  }

  /**
   * For every value, parsing what was printed gives the value back if it is
   * nested at most 1000 deep, and is refused if it is nested deeper.
   */
  lemma PrintThenParse(v: Value)
    ensures NulFree(Print(v))
    ensures ReadsWithin(Parse(Print(v)), v, |Print(v)|, Depth(v))
  {
    PrintIsClean(v);
    CompactPrints(v);
    DocumentParses(false, [], Compact(v), []);
    assert Mark(false) + [] + Print(v) + [] == Print(v);
  }

  // ---------------------------------------------------------------- nesting of what is accepted

  lemma {:induction false} ParsedFits(buf: seq<Byte>, off: nat, depth: nat)
    requires off <= |buf| && depth <= NESTING_LIMIT
    ensures var r := ParseValue(buf, off, depth); r.Parsed? ==> depth + Depth(r.value) <= NESTING_LIMIT
    decreases |buf| - off, 3
  {
    if ByteAt(buf, off, OPEN_ARRAY) {
      ParsedArrayFits(buf, off, depth);
    } else if ByteAt(buf, off, OPEN_OBJECT) {
      ParsedObjectFits(buf, off, depth);
    }
  }

  lemma {:induction false} ParsedArrayFits(buf: seq<Byte>, off: nat, depth: nat)
    requires off < |buf| && depth <= NESTING_LIMIT
    ensures var r := ParseArray(buf, off, depth); r.Parsed? ==> depth + Depth(r.value) <= NESTING_LIMIT
    decreases |buf| - off, 2
  {
    var p := Skip(buf, off + 1);
    if depth < NESTING_LIMIT && p < |buf| { ParsedItemsFit(buf, p - 1, depth + 1); }
  }

  lemma {:induction false} ParsedItemsFit(buf: seq<Byte>, off: nat, depth: nat)
    requires off < |buf| && depth <= NESTING_LIMIT
    ensures var r := ParseItems(buf, off, depth); r.Parsed? ==> depth + ItemsDepth(r.value) <= NESTING_LIMIT
    decreases |buf| - off, 0
  {
    var item := ParseValue(buf, Skip(buf, off + 1), depth);
    ParsedFits(buf, Skip(buf, off + 1), depth);
    if item.Parsed? {
      var q := Skip(buf, item.end);
      if ByteAt(buf, q, COMMA) {
        var rest := ParseItems(buf, q, depth);
        ParsedItemsFit(buf, q, depth);
        if rest.Parsed? { assert ([item.value] + rest.value)[1..] == rest.value; }
      }
    }
  }

  lemma {:induction false} ParsedObjectFits(buf: seq<Byte>, off: nat, depth: nat)
    requires off < |buf| && depth <= NESTING_LIMIT
    ensures var r := ParseObject(buf, off, depth); r.Parsed? ==> depth + Depth(r.value) <= NESTING_LIMIT
    decreases |buf| - off, 2
  {
    var p := Skip(buf, off + 1);
    if depth < NESTING_LIMIT && p < |buf| { ParsedMembersFit(buf, p - 1, depth + 1); }
  }

  lemma {:induction false} ParsedMemberFits(buf: seq<Byte>, off: nat, depth: nat)
    requires off < |buf| && depth <= NESTING_LIMIT
    ensures var r := ParseMember(buf, off, depth); r.Parsed? ==> depth + Depth(r.value.value) <= NESTING_LIMIT
    decreases |buf| - off, 0
  {
    if off + 1 < |buf| {
      var name := ParseString(buf, Skip(buf, off + 1));
      if name.Parsed? {
        var q := Skip(buf, name.end);
        if q < |buf| { ParsedFits(buf, Skip(buf, q + 1), depth); }
      }
    }
  }

  lemma {:induction false} ParsedMembersFit(buf: seq<Byte>, off: nat, depth: nat)
    requires off < |buf| && depth <= NESTING_LIMIT
    ensures var r := ParseMembers(buf, off, depth); r.Parsed? ==> depth + MembersDepth(r.value) <= NESTING_LIMIT
    decreases |buf| - off, 1
  {
    var m := ParseMember(buf, off, depth);
    ParsedMemberFits(buf, off, depth);
    if m.Parsed? {
      var q := Skip(buf, m.end);
      if ByteAt(buf, q, COMMA) {
        var rest := ParseMembers(buf, q, depth);
        ParsedMembersFit(buf, q, depth);
        if rest.Parsed? { assert ([m.value] + rest.value)[1..] == rest.value; }
      }
    }
  }

  /** Whatever text was accepted, its value prints to a text that gives the same value. */
  lemma ReprintIsStable(text: CString)
    requires Parse(text).Parsed?
    ensures NulFree(Print(Parse(text).value))
    ensures Reads(Parse(Print(Parse(text).value)), Parse(text).value, |Print(Parse(text).value)|)
  {
    var buf: seq<Byte> := text + [0];
    ParsedFits(buf, Skip(buf, SkipMark(buf)), 0);
    PrintThenParse(Parse(text).value);
  }
}
