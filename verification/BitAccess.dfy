/**
 Bit fields of a process image, as the client library reads and writes them: bit n of an image is
 bit n % 8 of byte n / 8.
 */
module BitAccess {
  import opened Bits
  import opened Basics
  import opened Frame

  predicate ImageBit(image: seq<Byte>, n: nat)
    requires n < 8 * |image|
  {
    BitAt(image[n / 8], n % 8)
  }

  // ---------------------------------------------------------------------------------------------
  // One byte
  // ---------------------------------------------------------------------------------------------

  lemma ByteRange()
    ensures Pow2(8) == 256
  {
  }

  lemma {:induction false} Pow2Rises(a: nat, b: nat)
    requires a <= b
    ensures Pow2(a) <= Pow2(b)
  {
    if a < b { Pow2Rises(a, b - 1); }
  }

  /** `b |= mask` or `b &= ~mask & 0xFF` with the mask of bit k */
  function SetBit(b: Byte, k: nat, on: bool): Byte
    requires k < 8
  {
    ByteRange();
    Pow2Rises(k, 7);
    OrBelow(b, Pow2(k), 8);
    AndBelow(b, 255 - Pow2(k));
    if on then Or(b, Pow2(k)) else And(b, 255 - Pow2(k))
  }

  lemma {:induction false} ComplementBits(n: nat, w: nat, j: nat)
    requires n < Pow2(w) && j < w
    ensures BitAt(Pow2(w) - 1 - n, j) <==> !BitAt(n, j)
  {
    var c := Pow2(w) - 1 - n;
    assert c / 2 == Pow2(w - 1) - 1 - n / 2 && c % 2 == 1 - n % 2;
    if j > 0 { ComplementBits(n / 2, w - 1, j - 1); }
  }

  lemma SetBitBits(b: Byte, k: nat, on: bool, j: nat)
    requires k < 8 && j < 8
    ensures BitAt(SetBit(b, k, on), j) == if j == k then on else BitAt(b, j)
  {
    ByteRange();
    Pow2Rises(k, 7);
    Pow2Bits(k, j);
    if on {
      OrBits(b, Pow2(k), j);
    } else {
      ComplementBits(Pow2(k), 8, j);
      AndBits(b, 255 - Pow2(k), j);
    }
  }

  // ---------------------------------------------------------------------------------------------
  // Writing
  // ---------------------------------------------------------------------------------------------

  function WriteBit(image: seq<Byte>, n: nat, on: bool): (r: seq<Byte>)
    requires n < 8 * |image|
    ensures |r| == |image|
  {
    image[n / 8 := SetBit(image[n / 8], n % 8, on)]
  }

  /** The image with the low `len` bits of a value written at an offset. */
  function WriteBits(image: seq<Byte>, off: nat, len: nat, value: int): (r: seq<Byte>)
    requires off + len <= 8 * |image|
    ensures |r| == |image|
  {
    if len == 0 then image
    else WriteBit(WriteBits(image, off, len - 1, value), off + len - 1, BitAt(value, len - 1))
  }

  lemma WriteBitBits(image: seq<Byte>, n: nat, on: bool, m: nat)
    requires n < 8 * |image| && m < 8 * |image|
    ensures ImageBit(WriteBit(image, n, on), m) == if m == n then on else ImageBit(image, m)
  {
    if m / 8 == n / 8 {
      assert m == n <==> m % 8 == n % 8;
      SetBitBits(image[n / 8], n % 8, on, m % 8);
    }
  }

  /** Only the bits of the field change, and they become those of the value. */
  lemma {:induction false} WriteBitsBits(image: seq<Byte>, off: nat, len: nat, value: int, m: nat)
    requires off + len <= 8 * |image| && m < 8 * |image|
    ensures ImageBit(WriteBits(image, off, len, value), m)
            == if off <= m < off + len then BitAt(value, m - off) else ImageBit(image, m)
  {
    if len > 0 {
      WriteBitsBits(image, off, len - 1, value, m);
      WriteBitBits(WriteBits(image, off, len - 1, value), off + len - 1, BitAt(value, len - 1), m);
    }
  }

  /** `write_bits` */
  method WriteInto(image: array<Byte>, off: nat, len: nat, value: int)
    requires off + len <= 8 * image.Length
    modifies image
    ensures image[..] == WriteBits(old(image[..]), off, len, value)
  {
    for i := 0 to len
      invariant image[..] == WriteBits(old(image[..]), off, i, value)
    {
      var bit := off + i;
      ShiftReadsBit(value, i);
      image[bit / 8] := SetBit(image[bit / 8], bit % 8, (value / Pow2(i)) % 2 == 1);
    }
  }

  // ---------------------------------------------------------------------------------------------
  // Reading
  // ---------------------------------------------------------------------------------------------

  function ReadBits(image: seq<Byte>, off: nat, len: nat): (v: nat)
    requires off + len <= 8 * |image|
    ensures v < Pow2(len)
  {
    if len == 0 then 0
    else ReadBits(image, off, len - 1) + (if ImageBit(image, off + len - 1) then Pow2(len - 1) else 0)
  }

  /** `read_bits` */
  method ReadFrom(image: array<Byte>, off: nat, len: nat) returns (value: nat)
    requires off + len <= 8 * image.Length
    ensures value == ReadBits(image[..], off, len)
  {
    value := 0;
    for i := 0 to len
      invariant value == ReadBits(image[..], off, i)
    {
      var bit := off + i;
      ShiftReadsBit(image[bit / 8], bit % 8);
      if (image[bit / 8] / Pow2(bit % 8)) % 2 == 1 {
        OrHighBit(value, i);
        value := Or(value, Pow2(i));
      }
    }
  }

  /** Reading gives the number whose bits are those of the field. */
  lemma {:induction false} ReadBitsBits(image: seq<Byte>, off: nat, len: nat, j: nat)
    requires off + len <= 8 * |image| && j < len
    ensures BitAt(ReadBits(image, off, len), j) == ImageBit(image, off + j)
  {
    var v, p := ReadBits(image, off, len - 1), Pow2(len - 1);
    OrHighBit(v, len - 1);
    OrBits(v, p, j);
    Pow2Bits(len - 1, j);
    if j < len - 1 {
      ReadBitsBits(image, off, len - 1, j);
    } else {
      HighBitsClear(v, len - 1, j);
    }
  }

  lemma {:induction false} HighBitsClear(n: nat, k: nat, j: nat)
    requires n < Pow2(k) && k <= j
    ensures !BitAt(n, j)
  {
    if k == 0 { ZeroBits(j); } else { HighBitsClear(n / 2, k - 1, j - 1); }
  }

  /** `n % 2^k` keeps the low k bits of any integer. */
  lemma {:induction false} RemainderBits(n: int, k: nat, j: nat)
    requires j < k
    ensures 0 <= n % Pow2(k) < Pow2(k) && BitAt(n % Pow2(k), j) == BitAt(n, j)
    decreases k
  {
    HalveRemainder(n, Pow2(k - 1));
    var r := n % Pow2(k);
    assert r % 2 == n % 2 && r / 2 == (n / 2) % Pow2(k - 1);
    if j > 0 { RemainderBits(n / 2, k - 1, j - 1); }
  }

  /** A field reads back as the value written, modulo 2^len. */
  lemma ReadBackWritten(image: seq<Byte>, off: nat, len: nat, value: int)
    requires off + len <= 8 * |image|
    ensures ReadBits(WriteBits(image, off, len, value), off, len) == value % Pow2(len)
  {
    var written := WriteBits(image, off, len, value);
    forall j: nat | j < len ensures BitAt(ReadBits(written, off, len), j) == BitAt(value % Pow2(len), j) {
      ReadBitsBits(written, off, len, j);
      WriteBitsBits(image, off, len, value, off + j);
      RemainderBits(value, len, j);
    }
    SameBits(ReadBits(written, off, len), value % Pow2(len), len);
  }

  /** A field that shares no bit with the one written reads as before. */
  lemma {:induction false} ReadOtherUnchanged(image: seq<Byte>, off: nat, len: nat, value: int, off': nat, len': nat)
    requires off + len <= 8 * |image| && off' + len' <= 8 * |image|
    requires off + len <= off' || off' + len' <= off
    ensures ReadBits(WriteBits(image, off, len, value), off', len') == ReadBits(image, off', len')
  {
    if len' > 0 {
      ReadOtherUnchanged(image, off, len, value, off', len' - 1);
      WriteBitsBits(image, off, len, value, off' + len' - 1);
    }
  }
}
