/**
 The cyclic data frame: a 24-byte little-endian header before the raw bytes of one direction's
 process image, and the wrapping sequence number it carries.
 */
module Frame {
  import opened Basics
  import opened Bits

  const PROTOCOL_VERSION := 1
  const HEADER_SIZE := 24
  const MAX_PAYLOAD := 65507 - HEADER_SIZE
  const KIND_OUTPUTS := 1
  const FLAG_VALID := 0x01

  /** "EDOG" */
  const MAGIC: seq<Byte> := [0x45, 0x44, 0x4F, 0x47]

  datatype Header = Header(
    version: Byte, kind: Byte, master: Byte, flags: Byte,
    session: U64, sequence: U32, payloadLen: U16, wkc: U16)

  // ---------------------------------------------------------------------------------------------
  // Little-endian integers
  // ---------------------------------------------------------------------------------------------

  function Pow256(n: nat): (p: nat)
    ensures p >= 1
  {
    if n == 0 then 1 else 256 * Pow256(n - 1)
  }

  /** The n low bytes of v, lowest first. */
  function Le(v: nat, n: nat): (s: seq<Byte>)
    ensures |s| == n
  {
    if n == 0 then [] else [v % 256] + Le(v / 256, n - 1)
  }

  function FromLe(s: seq<Byte>): nat {
    if s == [] then 0 else s[0] + 256 * FromLe(s[1..])
  }

  /** The digits hold the value as far as they reach; what is above is cut off. */
  lemma {:induction false} LeThenFrom(v: nat, n: nat)
    ensures FromLe(Le(v, n)) == v % Pow256(n)
  {
    if n > 0 {
      assert Le(v, n)[1..] == Le(v / 256, n - 1);
      LeThenFrom(v / 256, n - 1);
      RemainderSplit(v, Pow256(n - 1));
    }
  }

  lemma LeFits(v: nat, n: nat)
    requires v < Pow256(n)
    ensures FromLe(Le(v, n)) == v
  {
    LeThenFrom(v, n);
  }

  lemma RemainderSplit(v: nat, p: nat)
    requires p > 0
    ensures v % (256 * p) == v % 256 + 256 * (v / 256 % p)
  {
    var q, r := v / 256 / p, v / 256 % p;
    assert v == 256 * (q * p + r) + v % 256;
    assert 256 * (q * p) == q * (256 * p);
    QuotientUnique(v, 256 * p, q, v % 256 + 256 * r);
  }

  lemma {:induction false} FromThenLe(s: seq<Byte>)
    ensures FromLe(s) < Pow256(|s|) && Le(FromLe(s), |s|) == s
  {
    if s != [] {
      var rest := FromLe(s[1..]);
      FromThenLe(s[1..]);
      QuotientUnique(FromLe(s), 256, rest, s[0]);
      assert Le(FromLe(s), |s|) == [s[0]] + Le(rest, |s| - 1);
    }
  }

  lemma Widths()
    ensures Pow256(2) == 0x1_0000 && Pow256(4) == 0x1_0000_0000 && Pow256(8) == 0x1_0000_0000_0000_0000
  {
  }

  /** Byte i of the little-endian form is `v >> 8i`. */
  lemma {:induction false} LeByte(v: nat, n: nat, i: nat)
    requires i < n
    ensures Le(v, n)[i] == v / Pow256(i) % 256
  {
    if i > 0 {
      LeByte(v / 256, n - 1, i - 1);
      DivDiv(v, 256, Pow256(i - 1));
    }
  }

  /** `edog_put_u16`, `edog_put_u32` and `edog_put_u64`, by width */
  method PutLe(p: array<Byte>, at: nat, n: nat, v: nat)
    requires at + n <= p.Length
    modifies p
    ensures p[at..at + n] == Le(v, n)
    ensures p[..at] == old(p[..at]) && p[at + n..] == old(p[at + n..])
  {
    for i := 0 to n
      invariant forall k | 0 <= k < p.Length && !(at <= k < at + i) :: p[k] == old(p[k])
      invariant forall k | 0 <= k < i :: p[at + k] == Le(v, n)[k]
    {
      LeByte(v, n, i);
      p[at + i] := v / Pow256(i) % 256;
    }
  }

  /** `edog_get_u16`, `edog_get_u32` and `edog_get_u64`, by width */
  method GetLe(p: array<Byte>, at: nat, n: nat) returns (v: nat)
    requires at + n <= p.Length
    ensures v == FromLe(p[at..at + n])
  {
    v := 0;
    for i := n downto 0
      invariant v == FromLe(p[at + i..at + n])
    {
      v := v * 256 + p[at + i];
      assert p[at + i..at + n] == [p[at + i]] + p[at + i + 1..at + n];
    }
  }

  // ---------------------------------------------------------------------------------------------
  // The header
  // ---------------------------------------------------------------------------------------------

  function HeaderBytes(h: Header): (s: seq<Byte>)
    ensures |s| == HEADER_SIZE
  {
    MAGIC + [h.version, h.kind, h.master, h.flags]
    + Le(h.session, 8) + Le(h.sequence, 4) + Le(h.payloadLen, 2) + Le(h.wkc, 2)
  }

  function U(s: seq<Byte>): (v: nat)
    ensures v < Pow256(|s|)
  {
    FromThenLe(s);
    FromLe(s)
  }

  /** The header fields a datagram of at least 24 bytes starts with. */
  function Fields(d: seq<Byte>): Header
    requires |d| >= HEADER_SIZE
  {
    Widths();
    Header(d[4], d[5], d[6], d[7], U(d[8..16]), U(d[16..20]), U(d[20..22]), U(d[22..24]))
  }

  /** What a received datagram says: magic, version and length must be right. */
  function ParseHeader(d: seq<Byte>): Option<Header> {
    if |d| < HEADER_SIZE || d[..4] != MAGIC then None
    else
      var h := Fields(d);
      if h.version != PROTOCOL_VERSION || h.payloadLen > MAX_PAYLOAD then None
      else if |d| == HEADER_SIZE + h.payloadLen then Some(h) else None
  }

  /** `edog_frame_encode_header` */
  method EncodeHeader(out: array<Byte>, h: Header)
    requires out.Length >= HEADER_SIZE
    modifies out
    ensures out[..HEADER_SIZE] == HeaderBytes(h)
    ensures out[HEADER_SIZE..] == old(out[HEADER_SIZE..])
  {
    out[0], out[1], out[2], out[3] := 0x45, 0x44, 0x4F, 0x47;
    out[4], out[5], out[6], out[7] := h.version, h.kind, h.master, h.flags;
    ghost var front := out[..8];
    assert front == MAGIC + [h.version, h.kind, h.master, h.flags];
    ghost var rest := out[HEADER_SIZE..];
    PutLe(out, 8, 8, h.session);
    assert out[..16] == front + Le(h.session, 8);
    assert out[HEADER_SIZE..] == rest by { assert out[16..][8..] == out[HEADER_SIZE..]; }
    PutLe(out, 16, 4, h.sequence);
    assert out[..20] == front + Le(h.session, 8) + Le(h.sequence, 4);
    assert out[HEADER_SIZE..] == rest by { assert out[20..][4..] == out[HEADER_SIZE..]; }
    PutLe(out, 20, 2, h.payloadLen);
    assert out[..22] == front + Le(h.session, 8) + Le(h.sequence, 4) + Le(h.payloadLen, 2);
    assert out[HEADER_SIZE..] == rest by { assert out[22..][2..] == out[HEADER_SIZE..]; }
    PutLe(out, 22, 2, h.wkc);
    assert out[..24] == out[..22] + out[22..24];
  }

  lemma PrefixSlice(buf: array<Byte>, len: nat, i: nat, j: nat)
    requires i <= j <= len <= buf.Length
    ensures buf[..len][i..j] == buf[i..j]
  {
  }

  /** `edog_frame_decode_header` on the first len bytes of a buffer */
  method DecodeHeader(buf: array<Byte>, len: nat) returns (r: Option<Header>)
    requires len <= buf.Length
    ensures r == ParseHeader(buf[..len])
  {
    if len < HEADER_SIZE {
      return None;
    }
    ghost var d := buf[..len];
    assert d[..4] == [buf[0], buf[1], buf[2], buf[3]];
    if buf[0] != 0x45 || buf[1] != 0x44 || buf[2] != 0x4F || buf[3] != 0x47 {
      return None;
    }
    var session := GetLe(buf, 8, 8);
    var sequence := GetLe(buf, 16, 4);
    var payloadLen := GetLe(buf, 20, 2);
    var wkc := GetLe(buf, 22, 2);
    PrefixSlice(buf, len, 8, 16);
    PrefixSlice(buf, len, 16, 20);
    PrefixSlice(buf, len, 20, 22);
    PrefixSlice(buf, len, 22, 24);
    Widths();
    FromThenLe(d[8..16]);
    FromThenLe(d[16..20]);
    FromThenLe(d[20..22]);
    FromThenLe(d[22..24]);
    var h := Header(buf[4], buf[5], buf[6], buf[7], session, sequence, payloadLen, wkc);
    if h.version != PROTOCOL_VERSION {
      return None;
    }
    if h.payloadLen > MAX_PAYLOAD {
      return None;
    }
    r := if len == HEADER_SIZE + h.payloadLen then Some(h) else None;
  }

  /** Encoding then parsing gives the header back, exactly when it describes what follows it. */
  lemma ParseEncoded(h: Header, payload: seq<Byte>)
    ensures ParseHeader(HeaderBytes(h) + payload)
            == (if h.version == PROTOCOL_VERSION && h.payloadLen <= MAX_PAYLOAD && |payload| == h.payloadLen
                then Some(h) else None)
  {
    var d := HeaderBytes(h) + payload;
    assert d[..4] == MAGIC;
    assert d[8..16] == Le(h.session, 8) && d[16..20] == Le(h.sequence, 4);
    assert d[20..22] == Le(h.payloadLen, 2) && d[22..24] == Le(h.wkc, 2);
    Widths();
    LeFits(h.session, 8);
    LeFits(h.sequence, 4);
    LeFits(h.payloadLen, 2);
    LeFits(h.wkc, 2);
    assert Fields(d) == h;
  }

  /** Every accepted datagram is the encoding of the header parsed from it and a payload of its length. */
  lemma EncodeParsed(d: seq<Byte>)
    requires ParseHeader(d).Some?
    ensures var h := ParseHeader(d).value;
            d[..HEADER_SIZE] == HeaderBytes(h) && |d| == HEADER_SIZE + h.payloadLen
  {
    FromThenLe(d[8..16]);
    FromThenLe(d[16..20]);
    FromThenLe(d[20..22]);
    FromThenLe(d[22..24]);
    assert d[..HEADER_SIZE] == d[..4] + [d[4], d[5], d[6], d[7]] + d[8..16] + d[16..20] + d[20..22] + d[22..24];
  }

  /** Where each field of a header stands, byte by byte. */
  lemma HeaderLayout(h: Header)
    ensures var s := HeaderBytes(h);
            && s[0] == 'E' as int && s[1] == 'D' as int && s[2] == 'O' as int && s[3] == 'G' as int
            && s[4] == h.version && s[5] == h.kind && s[6] == h.master && s[7] == h.flags
            && (forall i | 0 <= i < 8 :: s[8 + i] == h.session / Pow256(i) % 256)
            && (forall i | 0 <= i < 4 :: s[16 + i] == h.sequence / Pow256(i) % 256)
            && (forall i | 0 <= i < 2 :: s[20 + i] == h.payloadLen / Pow256(i) % 256)
            && (forall i | 0 <= i < 2 :: s[22 + i] == h.wkc / Pow256(i) % 256)
  {
    var s := HeaderBytes(h);
    forall i | 0 <= i < 8 ensures s[8 + i] == Le(h.session, 8)[i] == h.session / Pow256(i) % 256 {
      LeByte(h.session, 8, i);
    }
    forall i | 0 <= i < 4 ensures s[16 + i] == Le(h.sequence, 4)[i] == h.sequence / Pow256(i) % 256 {
      LeByte(h.sequence, 4, i);
    }
    forall i | 0 <= i < 2 ensures s[20 + i] == Le(h.payloadLen, 2)[i] == h.payloadLen / Pow256(i) % 256 {
      LeByte(h.payloadLen, 2, i);
    }
    forall i | 0 <= i < 2 ensures s[22 + i] == Le(h.wkc, 2)[i] == h.wkc / Pow256(i) % 256 {
      LeByte(h.wkc, 2, i);
    }
  }

  /** Which datagrams have a header, and what it says, by the bytes of the datagram. */
  lemma ParsedBytes(d: seq<Byte>)
    ensures ParseHeader(d).Some? <==>
              && |d| >= 24 && d[0] == 'E' as int && d[1] == 'D' as int && d[2] == 'O' as int && d[3] == 'G' as int
              && d[4] == 1 && FromLe(d[20..22]) <= 65483 && |d| == 24 + FromLe(d[20..22])
    ensures var r := ParseHeader(d);
            r.Some? ==>
              && r.value.kind == d[5] && r.value.master == d[6] && r.value.flags == d[7]
              && r.value.session == FromLe(d[8..16]) && r.value.sequence == FromLe(d[16..20])
              && r.value.payloadLen == FromLe(d[20..22]) && r.value.wkc == FromLe(d[22..24])
  {
    if |d| >= 24 { assert d[..4] == [d[0], d[1], d[2], d[3]]; }
  }

  // ---------------------------------------------------------------------------------------------
  // Wrapping sequence numbers
  // ---------------------------------------------------------------------------------------------

  const SEQ_MODULUS := 0x1_0000_0000
  const SEQ_HALF := 0x8000_0000

  /** The value of a 32-bit pattern as a signed integer. */
  function Int32(x: U32): int {
    if x < SEQ_HALF then x else x - SEQ_MODULUS
  }

  /** `edog_seq_newer` */
  predicate Newer(seqNo: U32, last: U32) {
    Int32((seqNo - last) % SEQ_MODULUS) > 0
  }

  /** "s1 is less than s2" of RFC 1982, section 3.2, with SERIAL_BITS = 32. */
  predicate SerialLess(s1: U32, s2: U32) {
    (s1 < s2 && s2 - s1 < SEQ_HALF) || (s1 > s2 && s1 - s2 > SEQ_HALF)
  }

  lemma NewerIsSerialOrder(seqNo: U32, last: U32)
    ensures Newer(seqNo, last) <==> SerialLess(last, seqNo)
  {
  }

  /** The sequence number of the i-th frame sent. */
  function SeqOf(i: nat): U32 {
    i % SEQ_MODULUS
  }

  /** How far apart two frame indices may be for the wrapping comparison to order them. */
  predicate InWindow(i: int, last: int) {
    -SEQ_HALF < i - last < SEQ_HALF
  }

  /** For any two frames, however far apart, the comparison sees their distance modulo 2^32. */
  lemma NewerExactly(i: nat, last: nat)
    ensures Newer(SeqOf(i), SeqOf(last)) <==> 0 < (i - last) % SEQ_MODULUS < SEQ_HALF
  {
  }

  /** Within the window, the wrapping comparison orders frames by when they were sent. */
  lemma NewerIsSentLater(i: nat, last: nat)
    requires InWindow(i, last)
    ensures Newer(SeqOf(i), SeqOf(last)) <==> i > last
  {
  }

  /** The window is as wide as it can be: half the number space apart, a later frame is not newer. */
  lemma HalfwayIsNotNewer(last: nat)
    ensures !Newer(SeqOf(last + SEQ_HALF), SeqOf(last))
  {
  }
}
