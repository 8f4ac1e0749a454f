/**
 From the client's write of one entry to the output region: the client sets bits of its image and
 sends it as a frame; the session takes the frame and copies it into the region.
 */
module EndToEnd {
  import opened Bits
  import opened Basics
  import opened Frame
  import opened BitAccess
  import opened Layout
  import opened DataSession

  /** `DataSession` of the client library: its output image and its frame counter. */
  class Client {
    const c: Config
    const session: U64
    const outputs: array<Byte>
    var sequence: U32

    ghost predicate Valid() {
      outputs.Length == c.outBytes <= MAX_PAYLOAD
    }

    constructor (c: Config, session: U64)
      requires c.outBytes <= MAX_PAYLOAD
      ensures Valid() && this.c == c && this.session == session && sequence == 0
      ensures fresh(outputs) && outputs[..] == Zeros(c.outBytes)
    {
      this.c, this.session, sequence := c, session, 0;
      outputs := new Byte[c.outBytes](_ => 0);
      new;
      assert outputs[..] == Zeros(c.outBytes);
    }

    /** `set` */
    method Set(row: Row, value: int)
      requires Valid() && InRegion(c, row)
      modifies outputs
      ensures outputs[..] == Written(old(outputs[..]), row, value)
    {
      WriteInto(outputs, row.bitOffset, row.bitLength, value);
    }

    /** `get` of an output */
    method Get(row: Row) returns (value: nat)
      requires Valid() && InRegion(c, row)
      ensures value == ReadRow(outputs[..], row)
    {
      value := ReadFrom(outputs, row.bitOffset, row.bitLength);
    }

    /** The sending half of `step`: frames are numbered from 1, wrapping. */
    method Send() returns (d: Datagram)
      requires Valid()
      modifies this
      ensures sequence == (old(sequence) + 1) % SEQ_MODULUS
      ensures d == OutputFrame(c, session, sequence, outputs[..])
    {
      sequence := (sequence + 1) % SEQ_MODULUS;
      var header := new Byte[HEADER_SIZE](_ => 0);
      EncodeHeader(header, OutputHeader(c, session, sequence, FLAG_VALID));
      d := Datagram(header[..] + outputs[..], true);
      assert header[..] == header[..HEADER_SIZE];
    }
  }

  predicate InRegion(c: Config, row: Row) {
    row.bitOffset + row.bitLength <= 8 * c.outBytes
  }

  function Written(image: seq<Byte>, row: Row, value: int): (r: seq<Byte>)
    requires row.bitOffset + row.bitLength <= 8 * |image|
    ensures |r| == |image|
  {
    WriteBits(image, row.bitOffset, row.bitLength, value)
  }

  function ReadRow(image: seq<Byte>, row: Row): nat
    requires row.bitOffset + row.bitLength <= 8 * |image|
  {
    ReadBits(image, row.bitOffset, row.bitLength)
  }

  /** The slaves' slices lie in the output region, apart from each other. */
  predicate WellMapped(c: Config, slaves: seq<Slave>, bus: seq<Mapping>) {
    && AllOnBus(slaves, bus) && SlicesApart(slaves, bus, true)
    && forall i | 0 <= i < |slaves| ::
         var start := bus[slaves[i].position - 1].outputs;
         start.Some? ==> SliceEnd(slaves[i], true, start.value) <= 8 * c.outBytes
  }

  predicate OutputsInRegion(c: Config, rows: seq<Row>) {
    forall x | 0 <= x < |rows| && rows[x].isOutput :: InRegion(c, rows[x])
  }

  lemma {:induction false} JoinedInRegion(c: Config, parts: seq<seq<Row>>, n: nat)
    requires n <= |parts| && forall i | 0 <= i < |parts| :: OutputsInRegion(c, parts[i])
    ensures OutputsInRegion(c, Joined(parts, n))
  {
    if n > 0 { JoinedInRegion(c, parts, n - 1); }
  }

  lemma PublishedInRegion(c: Config, slaves: seq<Slave>, bus: seq<Mapping>)
    requires WellMapped(c, slaves, bus)
    ensures OutputsInRegion(c, AllRows(slaves, bus))
  {
    var parts := Parts(slaves, bus);
    forall i | 0 <= i < |parts| ensures OutputsInRegion(c, parts[i]) {
      PartAt(slaves, bus, i);
      SlaveInSlices(slaves[i], bus, true);
    }
    JoinedInRegion(c, parts, |parts|);
  }

  /** A frame whose number is newer than the last one taken becomes the region in the next cycle. */
  lemma FrameReachesRegion(c: Config, v: View, sequence: U32, image: seq<Byte>)
    requires |image| == c.outBytes <= MAX_PAYLOAD && v.open && (v.rxSeen ==> Newer(sequence, v.rxLastSeq))
    ensures Cycle(c, v, [OutputFrame(c, v.session, sequence, image)]).region == image
  {
    var d := OutputFrame(c, v.session, sequence, image);
    FrameParses(c, v.session, sequence, FLAG_VALID, image);
    assert [d][..0] == [];
    assert ArriveAll(c, v, [d]) == Arrive(c, v, d);
  }

  /**
   End to end: on a well-mapped bus, the client sets one published output, sends its image and the
   session takes the frame. In the output region that entry then reads as the value modulo 2^length,
   and every other published output reads as it did in the client's image.
   */
  lemma SetReachesTheRegion(c: Config, slaves: seq<Slave>, bus: seq<Mapping>, v: View, sequence: U32,
                            image: seq<Byte>, x: nat, value: int, y: nat)
    requires WellMapped(c, slaves, bus) && |image| == c.outBytes <= MAX_PAYLOAD
    requires x < |AllRows(slaves, bus)| && AllRows(slaves, bus)[x].isOutput
    requires y < |AllRows(slaves, bus)| && AllRows(slaves, bus)[y].isOutput
    requires v.open && (v.rxSeen ==> Newer(sequence, v.rxLastSeq))
    ensures InRegion(c, AllRows(slaves, bus)[x]) && InRegion(c, AllRows(slaves, bus)[y])
    ensures var rows := AllRows(slaves, bus);
            var sent := OutputFrame(c, v.session, sequence, Written(image, rows[x], value));
            var region := Cycle(c, v, [sent]).region;
            && |region| == c.outBytes
            && ReadRow(region, rows[x]) == value % Pow2(rows[x].bitLength)
            && (y != x ==> ReadRow(region, rows[y]) == ReadRow(image, rows[y]))
  {
    var rows := AllRows(slaves, bus);
    PublishedApart(slaves, bus, true);
    PublishedInRegion(c, slaves, bus);
    var a, b := rows[x], rows[y];
    assert y != x ==> Apart(a, b);
    FrameReachesRegion(c, v, sequence, Written(image, a, value));
    ReadBackWritten(image, a.bitOffset, a.bitLength, value);
    if y != x { ReadOtherUnchanged(image, a.bitOffset, a.bitLength, value, b.bitOffset, b.bitLength); }
  }

  /** What the region must show after entry x was set and everything else left alone. */
  ghost predicate ShowsSet(c: Config, rows: seq<Row>, region: seq<Byte>, image: seq<Byte>, x: nat, value: int)
    requires |region| == |image| == c.outBytes && OutputsInRegion(c, rows) && x < |rows| && rows[x].isOutput
  {
    && ReadRow(region, rows[x]) == value % Pow2(rows[x].bitLength)
    && forall y | 0 <= y < |rows| && rows[y].isOutput && y != x ::
         ReadRow(region, rows[y]) == ReadRow(image, rows[y])
  }

  lemma AllOthersKept(c: Config, slaves: seq<Slave>, bus: seq<Mapping>, v: View, sequence: U32, image: seq<Byte>,
                      x: nat, value: int)
    requires WellMapped(c, slaves, bus) && |image| == c.outBytes <= MAX_PAYLOAD
    requires x < |AllRows(slaves, bus)| && AllRows(slaves, bus)[x].isOutput
    requires v.open && (v.rxSeen ==> Newer(sequence, v.rxLastSeq))
    ensures OutputsInRegion(c, AllRows(slaves, bus))
    ensures var sent := OutputFrame(c, v.session, sequence, Written(image, AllRows(slaves, bus)[x], value));
            var region := Cycle(c, v, [sent]).region;
            |region| == c.outBytes && ShowsSet(c, AllRows(slaves, bus), region, image, x, value)
  {
    PublishedInRegion(c, slaves, bus);
    forall y | 0 <= y < |AllRows(slaves, bus)| && AllRows(slaves, bus)[y].isOutput
      ensures var rows := AllRows(slaves, bus);
              var region := Cycle(c, v, [OutputFrame(c, v.session, sequence, Written(image, rows[x], value))]).region;
              && |region| == c.outBytes
              && ReadRow(region, rows[x]) == value % Pow2(rows[x].bitLength)
              && (y != x ==> ReadRow(region, rows[y]) == ReadRow(image, rows[y]))
    {
      SetReachesTheRegion(c, slaves, bus, v, sequence, image, x, value, y);
    }
  }

  method SetAndSend(client: Client, row: Row, value: int) returns (d: Datagram)
    requires client.Valid() && InRegion(client.c, row)
    modifies client, client.outputs
    ensures d == OutputFrame(client.c, client.session, (old(client.sequence) + 1) % SEQ_MODULUS,
                             Written(old(client.outputs[..]), row, value))
  {
    client.Set(row, value);
    d := client.Send();
  }

  /**
   The same on the arrays of the client and the session: `set`, the sending half of `step`, and the
   bus thread's next cycle, in place.
   */
  method SetAndApply(client: Client, server: Session, slaves: seq<Slave>, bus: seq<Mapping>, x: nat, value: int)
    requires client.Valid() && server.Valid() && client.c == server.c && WellMapped(server.c, slaves, bus)
    requires client.outputs != server.rxBuf && client.outputs != server.rxLatest && client.outputs != server.region
    requires x < |AllRows(slaves, bus)| && AllRows(slaves, bus)[x].isOutput
    requires server.open && client.session == server.session
    requires server.rxSeen ==> Newer((client.sequence + 1) % SEQ_MODULUS, server.rxLastSeq)
    modifies client, client.outputs, server, server.rxBuf, server.rxLatest, server.region
    ensures server.Valid() && OutputsInRegion(server.c, AllRows(slaves, bus))
    ensures ShowsSet(server.c, AllRows(slaves, bus), server.region[..], old(client.outputs[..]), x, value)
  {
    PublishedInRegion(server.c, slaves, bus);
    ghost var v, image, sequence := server.Viewed(), client.outputs[..], (client.sequence + 1) % SEQ_MODULUS;
    var d := SetAndSend(client, AllRows(slaves, bus)[x], value);
    AllOthersKept(server.c, slaves, bus, v, sequence, image, x, value);
    server.ApplyOutputs(true, [d]);
  }
}
