/**
 * The text file that keeps a network interface's settings across a crash
 * (src/iface_state.c): what `persist_state` writes and `load_state` reads.
 */
module StateFile {
  type Int32 = x: int | -0x8000_0000 <= x < 0x8000_0000

  /** The captured settings; a group counts only if its flag is set. */
  datatype Saved = Saved(coalescing: bool, rx: Int32, tx: Int32, offloads: bool, gro: bool, gso: bool, tso: bool)

  const BLANK := Saved(false, 0, 0, false, false, false, false)

  /** A group that was not captured still has the values of a zeroed struct. */
  predicate Canonical(s: Saved) {
    (!s.coalescing ==> s.rx == 0 && s.tx == 0) &&
    (!s.offloads ==> !s.gro && !s.gso && !s.tso)
  }

  predicate Letter(c: char) {
    'a' <= c <= 'z' || 'A' <= c <= 'Z'
  }

  predicate Digit(c: char) {
    '0' <= c <= '9'
  }

  /** `ecat_iface_validate` in its strict mode. */
  predicate ValidName(iface: string) {
    0 < |iface| < 16 && Letter(iface[0]) &&
    forall i :: 0 <= i < |iface| ==> Letter(iface[i]) || Digit(iface[i]) || iface[i] == '_' || iface[i] == '-'
  }

  /** Which names are valid, one character after the other: a letter, then up to 14 letters, digits, `_` or `-`. */
  lemma NamesByCharacter(name: string, c: char)
    ensures !ValidName("")
    ensures ValidName([c]) <==> 'a' <= c <= 'z' || 'A' <= c <= 'Z'
    ensures name != "" ==>
              (ValidName(name + [c]) <==>
                 ValidName(name) && |name| < 15 &&
                 ('a' <= c <= 'z' || 'A' <= c <= 'Z' || '0' <= c <= '9' || c == '_' || c == '-'))
  {
    var longer := name + [c];
    assert longer[..|name|] == name;
    if ValidName(longer) && name != "" {
      assert forall i :: 0 <= i < |name| ==> name[i] == longer[i];
      assert longer[|name|] == c;
    }
  }

  // ---------------------------------------------------------------- decimal numbers

  function DigitChar(d: nat): (c: char)
    requires d < 10
    ensures Digit(c) && DigitOf(c) == d
  {
    '0' + d as char
  }

  function Digits(n: nat): (t: string)
    ensures |t| > 0 && forall i :: 0 <= i < |t| ==> Digit(t[i])
  {
    if n < 10 then [DigitChar(n)] else Digits(n / 10) + [DigitChar(n % 10)]
  }

  function Decimal(v: int): string {
    if v < 0 then "-" + Digits(-v) else Digits(v)
  }

  /** The first place from i on that holds no digit. */
  function DigitsEnd(t: string, i: nat): (e: nat)
    requires i <= |t|
    ensures i <= e <= |t|
    ensures forall k :: i <= k < e ==> Digit(t[k])
    ensures e < |t| ==> !Digit(t[e])
    decreases |t| - i
  {
    if i < |t| && Digit(t[i]) then DigitsEnd(t, i + 1) else i
  }

  function DigitOf(c: char): nat
    requires Digit(c)
  {
    c as int - '0' as int
  }

  function DigitsValue(t: string): nat
    requires forall i :: 0 <= i < |t| ==> Digit(t[i])
  {
    if t == [] then 0
    else DigitsValue(t[..|t| - 1]) * 10 + DigitOf(t[|t| - 1])
  }

  predicate Space(c: char) {
    c == ' ' || '\t' <= c <= '\r'
  }

  function SpacesEnd(t: string, i: nat): (e: nat)
    requires i <= |t|
    ensures i <= e <= |t|
    decreases |t| - i
  {
    if i < |t| && Space(t[i]) then SpacesEnd(t, i + 1) else i
  }

  /** The number `atoi` reads: white space, a sign, digits; 0 without digits. */
  function Atoi(t: string): int {
    var start := SpacesEnd(t, 0);
    var negative := start < |t| && t[start] == '-';
    var first := if start < |t| && (t[start] == '-' || t[start] == '+') then start + 1 else start;
    var value: int := DigitsValue(t[first..DigitsEnd(t, first)]);
    if negative then -value else value
  }

  /** `atoi` into an int, where the value fits; otherwise C leaves the result open, and 0 is taken. */
  function AtoiInt(t: string): Int32 {
    var v := Atoi(t);
    if -0x8000_0000 <= v < 0x8000_0000 then v else 0
  }

  lemma {:induction false} DigitsRead(n: nat)
    ensures DigitsValue(Digits(n)) == n
  {
    if n < 10 {
      assert Digits(n)[..0] == [];
    } else {
      DigitsRead(n / 10);
      assert Digits(n)[..|Digits(n)| - 1] == Digits(n / 10);
    }
  }

  // A sign, or none, before the digits of n.
  lemma SignedReads(sign: string, n: nat)
    requires sign == "" || sign == "-"
    ensures Atoi(sign + Digits(n)) == if sign == "" then n as int else 0 - n
  {
    var t, k := sign + Digits(n), |sign|;
    assert t[k] == Digits(n)[0];
    assert SpacesEnd(t, 0) == 0;
    assert forall i :: k <= i < |t| ==> t[i] == Digits(n)[i - k];
    assert DigitsEnd(t, k) == |t|;
    assert t[k..|t|] == Digits(n);
    DigitsRead(n);
  }

  lemma DecimalReads(v: Int32)
    ensures AtoiInt(Decimal(v)) == v
  {
    var i: int := v;
    if i < 0 {
      SignedReads("-", -i);
    } else {
      SignedReads("", i);
      assert "" + Digits(i) == Digits(i);
    }
  }

  function Pow10(k: nat): nat {
    if k == 0 then 1 else 10 * Pow10(k - 1)
  }

  lemma {:induction false} DigitsShort(n: nat, k: nat)
    requires 1 <= k && n < Pow10(k)
    ensures |Digits(n)| <= k
    decreases k
  {
    if n >= 10 {
      assert k > 1 && n / 10 < Pow10(k - 1);
      DigitsShort(n / 10, k - 1);
    }
  }

  lemma DecimalShape(v: Int32)
    ensures 0 < |Decimal(v)| <= 11
    ensures Plain(Decimal(v))
  {
    var i: int := v;
    var n: nat := if i < 0 then -i else i;
    assert Pow10(5) == 100000;
    assert Pow10(10) == 100000 * Pow10(5);
    DigitsShort(n, 10);
  }

  // ---------------------------------------------------------------- writing

  function OnOff(on: bool): string {
    if on then "on" else "off"
  }

  function Line(key: string, value: string): string {
    key + "=" + value
  }

  function CoalescingLines(s: Saved): seq<string> {
    if s.coalescing then [Line("rx_usecs", Decimal(s.rx)), Line("tx_usecs", Decimal(s.tx))] else []
  }

  function OffloadLines(s: Saved): seq<string> {
    if s.offloads then [Line("gro", OnOff(s.gro)), Line("gso", OnOff(s.gso)), Line("tso", OnOff(s.tso))] else []
  }

  function Lines(iface: string, s: Saved): seq<string> {
    [Line("iface", iface)] + CoalescingLines(s) + OffloadLines(s)
  }

  function Terminated(lines: seq<string>): string {
    if lines == [] then "" else lines[0] + "\n" + Terminated(lines[1..])
  }

  /** The text `persist_state` writes. */
  function Text(iface: string, s: Saved): string {
    Terminated(Lines(iface, s))
  }

  /** The lines of a full capture. */
  lemma LinesOfFullCapture(iface: string, s: Saved)
    requires s.coalescing && s.offloads
    ensures var lines := Lines(iface, s);
            && |lines| == 6 && lines[0] == "iface=" + iface
            && lines[1] == "rx_usecs=" + Decimal(s.rx) && lines[2] == "tx_usecs=" + Decimal(s.tx)
            && lines[3] == "gro=" + OnOff(s.gro) && lines[4] == "gso=" + OnOff(s.gso)
            && lines[5] == "tso=" + OnOff(s.tso)
  {
    LineText("iface", iface);
    LineText("rx_usecs", Decimal(s.rx));
    LineText("tx_usecs", Decimal(s.tx));
    LineText("gro", OnOff(s.gro));
    LineText("gso", OnOff(s.gso));
    LineText("tso", OnOff(s.tso));
    assert "iface" + "=" == "iface=" && "rx_usecs" + "=" == "rx_usecs=" && "tx_usecs" + "=" == "tx_usecs=";
    assert "gro" + "=" == "gro=" && "gso" + "=" == "gso=" && "tso" + "=" == "tso=";
  }

  lemma LineText(key: string, value: string)
    ensures Line(key, value) == (key + "=") + value
  {
  }

  lemma {:induction false} TerminatedNext(lines: seq<string>, line: string)
    ensures Terminated(lines + [line]) == Terminated(lines) + line + "\n"
    decreases |lines|
  {
    if lines == [] {
      assert lines + [line] == [line] && [line][1..] == [];
    } else {
      assert (lines + [line])[1..] == lines[1..] + [line];
      TerminatedNext(lines[1..], line);
    }
  }

  /** Adds one line to the text; `lines` are those already written. */
  method Print(text: string, key: string, value: string, ghost lines: seq<string>) returns (r: string)
    requires text == Terminated(lines)
    ensures r == Terminated(lines + [Line(key, value)])
  {
    TerminatedNext(lines, Line(key, value));
    r := text + (key + "=" + value) + "\n";
  }

  /** The writes of `persist_state`. */
  method WriteText(iface: string, s: Saved) returns (text: string)
    ensures text == Text(iface, s)
  {
    text := Print("", "iface", iface, []);
    ghost var lines := [Line("iface", iface)];
    assert [] + lines == lines;
    if s.coalescing {
      text := Print(text, "rx_usecs", Decimal(s.rx), lines);
      lines := lines + [Line("rx_usecs", Decimal(s.rx))];
      text := Print(text, "tx_usecs", Decimal(s.tx), lines);
      lines := lines + [Line("tx_usecs", Decimal(s.tx))];
    }
    assert lines == [Line("iface", iface)] + CoalescingLines(s);
    ghost var before := lines;
    if s.offloads {
      text := Print(text, "gro", OnOff(s.gro), lines);
      lines := lines + [Line("gro", OnOff(s.gro))];
      text := Print(text, "gso", OnOff(s.gso), lines);
      lines := lines + [Line("gso", OnOff(s.gso))];
      text := Print(text, "tso", OnOff(s.tso), lines);
      lines := lines + [Line("tso", OnOff(s.tso))];
    }
    assert lines == before + OffloadLines(s);
  }

  // ---------------------------------------------------------------- reading

  const LINE_BUFFER: nat := 128

  /** How many characters one `fgets` takes: through the newline, the end, or a full buffer. */
  function LineLength(t: string, i: nat): (n: nat)
    requires i <= |t|
    ensures i <= n <= |t|
    ensures i < |t| && i < LINE_BUFFER - 1 ==> i < n
    decreases |t| - i
  {
    if i == |t| || i >= LINE_BUFFER - 1 then i
    else if t[i] == '\n' then i + 1
    else LineLength(t, i + 1)
  }

  /** What a C string function sees of a line. */
  function UpToNul(line: string): string {
    if line == "" || line[0] == '\0' then "" else [line[0]] + UpToNul(line[1..])
  }

  function Chomped(line: string): string {
    if |line| > 0 && line[|line| - 1] == '\n' then line[..|line| - 1] else line
  }

  function EqualsAt(line: string, i: nat): (e: nat)
    requires i <= |line|
    ensures i <= e <= |line|
    decreases |line| - i
  {
    if i == |line| || line[i] == '=' then i else EqualsAt(line, i + 1)
  }

  function Assigned(s: Saved, key: string, value: string): Saved {
    if key == "rx_usecs" then s.(rx := AtoiInt(value), coalescing := true)
    else if key == "tx_usecs" then s.(tx := AtoiInt(value), coalescing := true)
    else if key == "gro" then s.(gro := value == "on", offloads := true)
    else if key == "gso" then s.(gso := value == "on", offloads := true)
    else if key == "tso" then s.(tso := value == "on", offloads := true)
    else s
  }

  function Understood(s: Saved, line: string): Saved {
    var eq := EqualsAt(line, 0);
    if eq == |line| then s else Assigned(s, line[..eq], line[eq + 1..])
  }

  function LoadFrom(s: Saved, t: string): Saved
    decreases |t|
  {
    if t == "" then s
    else
      var n := LineLength(t, 0);
      LoadFrom(Understood(s, Chomped(UpToNul(t[..n]))), t[n..])
  }

  /** What `load_state` makes of a file's text. */
  function Load(t: string): Saved {
    LoadFrom(BLANK, t)
  }

  /** The read loop of `load_state`. */
  method ReadFile(t: string) returns (s: Saved)
    ensures s == Load(t)
  {
    s := BLANK;
    var rest := t;
    while rest != ""
      invariant LoadFrom(s, rest) == Load(t)
      decreases |rest|
    {
      var n := LineLength(rest, 0);
      var line := Chomped(UpToNul(rest[..n]));
      var eq := EqualsAt(line, 0);
      if eq < |line| { s := Assigned(s, line[..eq], line[eq + 1..]); }
      rest := rest[n..];
    }
  }

  // ---------------------------------------------------------------- round trip

  predicate Plain(line: string) {
    forall i :: 0 <= i < |line| ==> line[i] != '\n' && line[i] != '\0'
  }

  predicate Short(line: string) {
    |line| < LINE_BUFFER - 1 && Plain(line)
  }

  lemma {:induction false} UpToNulKeeps(line: string)
    requires forall i :: 0 <= i < |line| ==> line[i] != '\0'
    ensures UpToNul(line) == line
  {
    if line != "" { UpToNulKeeps(line[1..]); }
  }

  lemma {:induction false} ShortLineLength(line: string, t: string, i: nat)
    requires Short(line) && i <= |line| && |line| < |t| && t[..|line|] == line && t[|line|] == '\n'
    ensures LineLength(t, i) == |line| + 1
    decreases |line| - i
  {
    if i < |line| {
      assert t[i] == t[..|line|][i];
      ShortLineLength(line, t, i + 1);
    }
  }

  lemma FirstLineLoads(s: Saved, line: string, rest: string)
    requires Short(line)
    ensures LoadFrom(s, line + "\n" + rest) == LoadFrom(Understood(s, line), rest)
  {
    var t := line + "\n" + rest;
    ShortLineLength(line, t, 0);
    assert t[..|line| + 1] == line + "\n";
    UpToNulKeeps(line + "\n");
    assert Chomped(line + "\n") == line;
    assert t[|line| + 1..] == rest;
  }

  lemma {:induction false} EqualsSplits(key: string, value: string, i: nat)
    requires i <= |key| && forall k :: 0 <= k < |key| ==> key[k] != '='
    ensures EqualsAt(Line(key, value), i) == |key|
    decreases |key| - i
  {
    if i < |key| { EqualsSplits(key, value, i + 1); }
  }

  lemma LineUnderstood(s: Saved, key: string, value: string)
    requires forall k :: 0 <= k < |key| ==> key[k] != '='
    ensures Understood(s, Line(key, value)) == Assigned(s, key, value)
  {
    EqualsSplits(key, value, 0);
    assert Line(key, value)[..|key|] == key;
    assert Line(key, value)[|key| + 1..] == value;
  }

  function Folded(s: Saved, lines: seq<string>): Saved
    decreases |lines|
  {
    if lines == [] then s else Folded(Understood(s, lines[0]), lines[1..])
  }

  lemma {:induction false} LinesLoad(s: Saved, lines: seq<string>)
    requires forall i :: 0 <= i < |lines| ==> Short(lines[i])
    ensures LoadFrom(s, Terminated(lines)) == Folded(s, lines)
    decreases |lines|
  {
    if lines != [] {
      FirstLineLoads(s, lines[0], Terminated(lines[1..]));
      LinesLoad(Understood(s, lines[0]), lines[1..]);
    }
  }

  lemma {:induction false} FoldedJoins(s: Saved, a: seq<string>, b: seq<string>)
    ensures Folded(s, a + b) == Folded(Folded(s, a), b)
    decreases |a|
  {
    if a == [] {
      assert a + b == b;
    } else {
      assert (a + b)[1..] == a[1..] + b;
      FoldedJoins(Understood(s, a[0]), a[1..], b);
    }
  }

  lemma FoldedTwo(s: Saved, a: string, b: string)
    ensures Folded(s, [a, b]) == Understood(Understood(s, a), b)
  {
    assert [a, b][1..] == [b] && [b][1..] == [];
    assert Folded(Understood(s, a), [b]) == Understood(Understood(s, a), b);
  }

  lemma CoalescingLoads(s: Saved, from: Saved)
    ensures Folded(from, CoalescingLines(s)) ==
            if s.coalescing then from.(coalescing := true, rx := s.rx, tx := s.tx) else from
  {
    if s.coalescing {
      var lines := CoalescingLines(s);
      DecimalReads(s.rx);
      DecimalReads(s.tx);
      LineUnderstood(from, "rx_usecs", Decimal(s.rx));
      LineUnderstood(from.(coalescing := true, rx := s.rx), "tx_usecs", Decimal(s.tx));
      FoldedTwo(from, lines[0], lines[1]);
    }
  }

  lemma OffloadsLoad(s: Saved, from: Saved)
    ensures Folded(from, OffloadLines(s)) ==
            if s.offloads then from.(offloads := true, gro := s.gro, gso := s.gso, tso := s.tso) else from
  {
    if s.offloads {
      var lines := OffloadLines(s);
      var one := from.(offloads := true, gro := s.gro);
      var two := one.(gso := s.gso);
      LineUnderstood(from, "gro", OnOff(s.gro));
      LineUnderstood(one, "gso", OnOff(s.gso));
      LineUnderstood(two, "tso", OnOff(s.tso));
      FoldedTwo(one, lines[1], lines[2]);
      assert lines[1..] == [lines[1], lines[2]];
    }
  }

  lemma ShortLine(key: string, value: string)
    requires |key| <= 8 && |value| < 16 && Plain(key) && Plain(value)
    ensures Short(Line(key, value))
  {
  }

  lemma LinesShort(iface: string, s: Saved)
    requires ValidName(iface)
    ensures forall i :: 0 <= i < |Lines(iface, s)| ==> Short(Lines(iface, s)[i])
  {
    DecimalShape(s.rx);
    DecimalShape(s.tx);
    ShortLine("iface", iface);
    ShortLine("rx_usecs", Decimal(s.rx));
    ShortLine("tx_usecs", Decimal(s.tx));
    ShortLine("gro", OnOff(s.gro));
    ShortLine("gso", OnOff(s.gso));
    ShortLine("tso", OnOff(s.tso));
  }

  /** Whatever was captured, the file holds it: reading what was written gives it back. */
  lemma PersistThenLoad(iface: string, s: Saved)
    requires ValidName(iface) && Canonical(s)
    ensures Load(Text(iface, s)) == s
  {
    var name := [Line("iface", iface)];
    var c, k := CoalescingLines(s), OffloadLines(s);
    CoalescingLoads(s, BLANK);
    LineUnderstood(BLANK, "iface", iface);
    assert name[1..] == [];
    assert Folded(BLANK, name) == BLANK;
    OffloadsLoad(s, Folded(BLANK, c));
    FoldedJoins(BLANK, name, c);
    FoldedJoins(BLANK, name + c, k);
    LinesShort(iface, s);
    LinesLoad(BLANK, Lines(iface, s));
  }
}
