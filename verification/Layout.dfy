/**
 The published process-data layout: where each configured PDO entry sits in the exchanged image.
 Each slave's slice starts where the bus mapped it, and its entries follow in configured order.
 */
module Layout {
  import opened Basics
  import opened Frame

  datatype PdoEntry = PdoEntry(index: string, subindex: Byte, bitLength: Byte, isPadType: bool)

  datatype Pdo = Pdo(index: string, entries: seq<PdoEntry>)

  datatype Slave = Slave(position: int, rxPdos: seq<Pdo>, txPdos: seq<Pdo>)

  /** The bit at which the bus mapped a slave's slice of each region; None when it mapped nothing. */
  datatype Mapping = Mapping(outputs: Option<nat>, inputs: Option<nat>)

  /** One published entry. */
  datatype Row = Row(slave: int, pdo: string, index: string, subindex: Byte, isOutput: bool,
                     bitOffset: nat, bitLength: nat)

  datatype BuildResult = Built | NotMapped | TooLarge | SlaveMissing(position: int) | Full

  /** `is_padding` */
  predicate IsPadding(e: PdoEntry) {
    e.isPadType || e.index == "0x0000" || e.index == "0x0"
  }

  // ---------------------------------------------------------------------------------------------
  // What is published
  // ---------------------------------------------------------------------------------------------

  /** A configured entry with its PDO. */
  datatype Item = Item(pdo: string, entry: PdoEntry)

  function ItemsOf(pdo: Pdo): (items: seq<Item>)
    ensures |items| == |pdo.entries|
  {
    seq(|pdo.entries|, i requires 0 <= i < |pdo.entries| => Item(pdo.index, pdo.entries[i]))
  }

  /** The entries of a direction, padding included, in configured order. */
  function Items(pdos: seq<Pdo>): seq<Item> {
    if pdos == [] then [] else Items(pdos[..|pdos| - 1]) + ItemsOf(pdos[|pdos| - 1])
  }

  /** One direction of one slave: its items, and the bit its slice starts at. */
  datatype Direction = Direction(position: int, isOutput: bool, start: nat, items: seq<Item>)

  /** The bits of the first k entries, padding included. */
  function Width(d: Direction, k: nat): nat
    requires k <= |d.items|
  {
    if k == 0 then 0 else Width(d, k - 1) + d.items[k - 1].entry.bitLength
  }

  function RowFor(d: Direction, k: nat): Row
    requires k < |d.items|
  {
    var item := d.items[k];
    Row(d.position, item.pdo, item.entry.index, item.entry.subindex, d.isOutput, d.start + Width(d, k),
        item.entry.bitLength)
  }

  /** The rows of the first k entries: those that are not padding. */
  function Rows(d: Direction, k: nat): (rows: seq<Row>)
    requires k <= |d.items|
    ensures |rows| <= k
  {
    if k == 0 then []
    else if IsPadding(d.items[k - 1].entry) then Rows(d, k - 1)
    else Rows(d, k - 1) + [RowFor(d, k - 1)]
  }

  /** A direction publishes nothing when the bus mapped no data for it. */
  function DirectionRows(position: int, isOutput: bool, start: Option<nat>, pdos: seq<Pdo>): (rows: seq<Row>)
    ensures |rows| <= |Items(pdos)|
  {
    if start.None? then []
    else Rows(Direction(position, isOutput, start.value, Items(pdos)), |Items(pdos)|)
  }

  predicate OnBus(s: Slave, bus: seq<Mapping>) {
    1 <= s.position <= |bus|
  }

  function SlaveRows(s: Slave, bus: seq<Mapping>): (rows: seq<Row>)
    requires OnBus(s, bus)
    ensures |rows| <= EntryCount(s)
  {
    var m := bus[s.position - 1];
    DirectionRows(s.position, true, m.outputs, s.rxPdos) + DirectionRows(s.position, false, m.inputs, s.txPdos)
  }

  function EntryCount(s: Slave): nat {
    |Items(s.rxPdos)| + |Items(s.txPdos)|
  }

  /** Each slave's rows; none for a slave that is not on the bus. */
  function Parts(slaves: seq<Slave>, bus: seq<Mapping>): (parts: seq<seq<Row>>)
    ensures |parts| == |slaves|
  {
    seq(|slaves|, i requires 0 <= i < |slaves| => if OnBus(slaves[i], bus) then SlaveRows(slaves[i], bus) else [])
  }

  predicate IsPart(part: seq<Row>, slave: Slave, bus: seq<Mapping>) {
    OnBus(slave, bus) ==> part == SlaveRows(slave, bus)
  }

  lemma PartAt(slaves: seq<Slave>, bus: seq<Mapping>, i: nat)
    requires i < |slaves|
    ensures |Parts(slaves, bus)[i]| <= EntryCount(slaves[i])
    ensures IsPart(Parts(slaves, bus)[i], slaves[i], bus)
  {
  }

  /** The first n parts, one after the other. */
  function Joined(parts: seq<seq<Row>>, n: nat): seq<Row>
    requires n <= |parts|
  {
    if n == 0 then [] else Joined(parts, n - 1) + parts[n - 1]
  }

  /** All rows, slave by slave. */
  function AllRows(slaves: seq<Slave>, bus: seq<Mapping>): seq<Row> {
    Joined(Parts(slaves, bus), |slaves|)
  }

  /** The number of entries configured for the first n slaves, padding included. */
  function MaxRows(slaves: seq<Slave>, n: nat): nat
    requires n <= |slaves|
  {
    if n == 0 then 0 else MaxRows(slaves, n - 1) + EntryCount(slaves[n - 1])
  }

  // ---------------------------------------------------------------------------------------------
  // How it is published
  // ---------------------------------------------------------------------------------------------

  /** The number of entries in the first p PDOs. */
  function ItemsBefore(pdos: seq<Pdo>, p: nat): nat
    requires p <= |pdos|
  {
    if p == 0 then 0 else ItemsBefore(pdos, p - 1) + |pdos[p - 1].entries|
  }

  lemma {:induction false} SameItemsBefore(pdos: seq<Pdo>, p: nat)
    requires p < |pdos|
    ensures ItemsBefore(pdos, p) == ItemsBefore(pdos[..|pdos| - 1], p)
  {
    if p > 0 { SameItemsBefore(pdos, p - 1); }
  }

  lemma {:induction false} ItemCount(pdos: seq<Pdo>)
    ensures |Items(pdos)| == ItemsBefore(pdos, |pdos|)
  {
    if pdos != [] {
      ItemCount(pdos[..|pdos| - 1]);
      SameItemsBefore(pdos, |pdos| - 1);
    }
  }

  /** Entry e of PDO p is the item after all entries of the PDOs before it. */
  lemma {:induction false} ItemAt(pdos: seq<Pdo>, p: nat, e: nat)
    requires p < |pdos| && e < |pdos[p].entries|
    ensures ItemsBefore(pdos, p) + e < |Items(pdos)|
    ensures Items(pdos)[ItemsBefore(pdos, p) + e] == Item(pdos[p].index, pdos[p].entries[e])
    decreases |pdos|
  {
    var front := pdos[..|pdos| - 1];
    SameItemsBefore(pdos, p);
    if p < |front| { ItemAt(front, p, e); } else { ItemCount(front); }
  }

  lemma PdoItems(pdos: seq<Pdo>, p: nat)
    requires p < |pdos|
    ensures ItemsBefore(pdos, p) + |pdos[p].entries| <= |Items(pdos)|
    ensures forall e | 0 <= e < |pdos[p].entries| ::
              Items(pdos)[ItemsBefore(pdos, p) + e] == Item(pdos[p].index, pdos[p].entries[e])
  {
    ItemCount(pdos);
    ItemsBeforeRise(pdos, p + 1);
    forall e | 0 <= e < |pdos[p].entries|
      ensures Items(pdos)[ItemsBefore(pdos, p) + e] == Item(pdos[p].index, pdos[p].entries[e])
    {
      ItemAt(pdos, p, e);
    }
  }

  lemma {:induction false} ItemsBeforeRise(pdos: seq<Pdo>, p: nat)
    requires p <= |pdos|
    ensures ItemsBefore(pdos, p) <= ItemsBefore(pdos, |pdos|)
    decreases |pdos| - p
  {
    if p < |pdos| { ItemsBeforeRise(pdos, p + 1); }
  }

  lemma {:induction false} RowsRise(d: Direction, j: nat, k: nat)
    requires j <= k <= |d.items|
    ensures |Rows(d, j)| <= |Rows(d, k)|
  {
    if j < k { RowsRise(d, j, k - 1); }
  }

  class Table {
    const rows: array<Row>
    var count: nat

    ghost predicate Valid()
      reads this
    {
      count <= rows.Length
    }

    ghost function Contents(): seq<Row>
      requires Valid()
      reads this, rows
    {
      rows[..count]
    }

    /** `ecat_layout_init` */
    constructor (capacity: nat)
      ensures Valid() && Contents() == [] && rows.Length == capacity && fresh(rows)
    {
      rows := new Row[capacity];
      count := 0;
    }

    method Push(row: Row)
      requires Valid() && count < rows.Length
      modifies this, rows
      ensures Valid() && Contents() == old(Contents()) + [row]
    {
      rows[count] := row;
      count := count + 1;
    }

    /** The inner loop of `add_direction`, over PDO p of a direction. */
    method AddPdo(position: int, isOutput: bool, pdo: Pdo, bit: nat,
                  ghost base: seq<Row>, ghost d: Direction, ghost k: nat)
      returns (ok: bool, next: nat)
      requires d.position == position && d.isOutput == isOutput && k + |pdo.entries| <= |d.items|
      requires forall e | 0 <= e < |pdo.entries| :: d.items[k + e] == Item(pdo.index, pdo.entries[e])
      requires Published(base, d, k, bit)
      modifies this, rows
      ensures Valid()
      ensures ok ==> Published(base, d, k + |pdo.entries|, next)
      ensures !ok ==> |base| + |Rows(d, |d.items|)| > rows.Length
    {
      ok, next := true, bit;
      for e := 0 to |pdo.entries|
        invariant Published(base, d, k + e, next)
      {
        var entry := pdo.entries[e];
        assert d.items[k + e] == Item(pdo.index, entry);
        if !IsPadding(entry) {
          if count >= rows.Length {
            RowsRise(d, k + e + 1, |d.items|);
            return false, next;
          }
          Push(Row(position, pdo.index, entry.index, entry.subindex, isOutput, next, entry.bitLength));
        }
        next := next + entry.bitLength;
      }
    }

    /** `add_direction` */
    method AddDirection(position: int, isOutput: bool, start: Option<nat>, pdos: seq<Pdo>) returns (ok: bool)
      requires Valid()
      modifies this, rows
      ensures Valid()
      ensures ok == (old(count) + |DirectionRows(position, isOutput, start, pdos)| <= rows.Length)
      ensures ok ==> Contents() == old(Contents()) + DirectionRows(position, isOutput, start, pdos)
    {
      if |pdos| == 0 || start.None? {
        return true;
      }
      var bit: nat := start.value;
      ghost var d := Direction(position, isOutput, start.value, Items(pdos));
      ghost var base := Contents();
      ItemCount(pdos);
      for p := 0 to |pdos|
        invariant ItemsBefore(pdos, p) <= |d.items| && Published(base, d, ItemsBefore(pdos, p), bit)
      {
        PdoItems(pdos, p);
        ok, bit := AddPdo(position, isOutput, pdos[p], bit, base, d, ItemsBefore(pdos, p));
        if !ok {
          return;
        }
      }
      ok := true;
    }

    method AddSlave(slave: Slave, bus: seq<Mapping>, ghost part: seq<Row>) returns (ok: bool)
      requires Valid() && OnBus(slave, bus) && part == SlaveRows(slave, bus)
      modifies this, rows
      ensures Valid()
      ensures ok == (old(count) + |part| <= rows.Length)
      ensures ok ==> Contents() == old(Contents()) + part
    {
      ghost var so := Contents();
      var m := bus[slave.position - 1];
      ok := AddDirection(slave.position, true, m.outputs, slave.rxPdos);
      if !ok {
        return;
      }
      ok := AddDirection(slave.position, false, m.inputs, slave.txPdos);
      assert ok ==> Contents() == so + SlaveRows(slave, bus);
    }

    /** The first k entries of a direction are published after the rows `base`, and `bit` follows them. */
    ghost predicate Published(base: seq<Row>, d: Direction, k: nat, bit: nat)
      requires k <= |d.items|
      reads this, rows
    {
      Valid() && Contents() == base + Rows(d, k) && bit == d.start + Width(d, k)
    }
  }

  /** `count_layout_max` */
  method CountLayoutMax(slaves: seq<Slave>) returns (total: nat)
    ensures total == MaxRows(slaves, |slaves|)
  {
    total := 0;
    for s := 0 to |slaves|
      invariant total == MaxRows(slaves, s)
    {
      var rx, tx := slaves[s].rxPdos, slaves[s].txPdos;
      for i := 0 to |rx|
        invariant total == MaxRows(slaves, s) + ItemsBefore(rx, i)
      {
        total := total + |rx[i].entries|;
      }
      ItemCount(rx);
      for i := 0 to |tx|
        invariant total == MaxRows(slaves, s) + |Items(rx)| + ItemsBefore(tx, i)
      {
        total := total + |tx[i].entries|;
      }
      ItemCount(tx);
    }
  }

  predicate FirstOnBus(slaves: seq<Slave>, bus: seq<Mapping>, n: nat)
    requires n <= |slaves|
  {
    forall i | 0 <= i < n :: OnBus(slaves[i], bus)
  }

  predicate AllOnBus(slaves: seq<Slave>, bus: seq<Mapping>) {
    FirstOnBus(slaves, bus, |slaves|)
  }

  lemma NextOnBus(slaves: seq<Slave>, bus: seq<Mapping>, n: nat)
    requires n < |slaves| && FirstOnBus(slaves, bus, n) && OnBus(slaves[n], bus)
    ensures FirstOnBus(slaves, bus, n + 1)
  {
  }

  lemma {:induction false} JoinedBelowMax(slaves: seq<Slave>, parts: seq<seq<Row>>, n: nat)
    requires n <= |parts| == |slaves| && forall i | 0 <= i < n :: |parts[i]| <= EntryCount(slaves[i])
    ensures |Joined(parts, n)| <= MaxRows(slaves, n)
  {
    if n > 0 { JoinedBelowMax(slaves, parts, n - 1); }
  }

  /** The capacity counted from the configuration holds all rows. */
  lemma RowsBelowMax(slaves: seq<Slave>, bus: seq<Mapping>)
    ensures |AllRows(slaves, bus)| <= MaxRows(slaves, |slaves|)
  {
    var parts := Parts(slaves, bus);
    forall i | 0 <= i < |slaves| ensures |parts[i]| <= EntryCount(slaves[i]) {
      PartAt(slaves, bus, i);
    }
    JoinedBelowMax(slaves, parts, |slaves|);
  }

  lemma {:induction false} JoinedRises(parts: seq<seq<Row>>, m: nat, n: nat)
    requires m <= n <= |parts|
    ensures |Joined(parts, m)| <= |Joined(parts, n)|
  {
    if m < n { JoinedRises(parts, m, n - 1); }
  }

  lemma JoinedOverflows(parts: seq<seq<Row>>, s: nat, size: nat)
    requires s < |parts| && size == |Joined(parts, s)| + |parts[s]|
    ensures |Joined(parts, |parts|)| >= size
  {
    JoinedRises(parts, s + 1, |parts|);
  }

  /** One turn of the loop of `ecat_layout_build`: slave s, whose rows are `part`. */
  method PlaceSlave(table: Table, slave: Slave, bus: seq<Mapping>, ghost part: seq<Row>, ghost before: nat)
    returns (r: BuildResult)
    requires table.Valid() && |table.Contents()| == before && IsPart(part, slave, bus)
    modifies table, table.rows
    ensures table.Valid()
    ensures r == Built ==> OnBus(slave, bus) && table.Contents() == old(table.Contents()) + part
    ensures r == Full ==> before + |part| > table.rows.Length
    ensures r == Built || r == Full || (r.SlaveMissing? && !OnBus(slave, bus))
  {
    if slave.position < 1 || slave.position > |bus| {
      return SlaveMissing(slave.position);
    }
    var ok := table.AddSlave(slave, bus, part);
    r := if ok then Built else Full;
  }

  /** The loop of `ecat_layout_build`; it meets a full table only where the rows do not all fit. */
  method FillTable(table: Table, slaves: seq<Slave>, bus: seq<Mapping>, ghost parts: seq<seq<Row>>)
    returns (r: BuildResult)
    requires table.Valid() && table.Contents() == []
    requires |parts| == |slaves| && forall i | 0 <= i < |slaves| :: IsPart(parts[i], slaves[i], bus)
    modifies table, table.rows
    ensures table.Valid()
    ensures r == Full ==> |Joined(parts, |slaves|)| > table.rows.Length
    ensures r == Built || r == Full || (r.SlaveMissing? && !AllOnBus(slaves, bus))
    ensures r == Built ==> AllOnBus(slaves, bus) && table.Contents() == Joined(parts, |slaves|)
  {
    for s := 0 to |slaves|
      invariant table.Valid() && table.Contents() == Joined(parts, s)
      invariant FirstOnBus(slaves, bus, s)
    {
      ghost var before := |Joined(parts, s)|;
      r := PlaceSlave(table, slaves[s], bus, parts[s], before);
      if r != Built {
        JoinedOverflows(parts, s, before + |parts[s]|);
        return;
      }
      NextOnBus(slaves, bus, s);
    }
    r := Built;
  }

  /** `ecat_layout_build`. A built layout holds exactly the rows of every slave, in order. */
  method Build(slaves: seq<Slave>, mapped: bool, bus: seq<Mapping>, outputBytes: nat, inputBytes: nat)
    returns (r: BuildResult, table: Table)
    ensures table.Valid()
    ensures r != Full
    ensures r == NotMapped <==> !mapped
    ensures r == TooLarge <==> mapped && (outputBytes > MAX_PAYLOAD || inputBytes > MAX_PAYLOAD)
    ensures r == Built <==> mapped && outputBytes <= MAX_PAYLOAD && inputBytes <= MAX_PAYLOAD && AllOnBus(slaves, bus)
    ensures r == Built ==> table.Contents() == AllRows(slaves, bus)
  {
    var capacity := CountLayoutMax(slaves);
    table := new Table(capacity);
    if !mapped {
      return NotMapped, table;
    }
    if outputBytes > MAX_PAYLOAD || inputBytes > MAX_PAYLOAD {
      return TooLarge, table;
    }
    RowsBelowMax(slaves, bus);
    ghost var parts := Parts(slaves, bus);
    forall i | 0 <= i < |slaves| ensures IsPart(parts[i], slaves[i], bus) {
      PartAt(slaves, bus, i);
    }
    r := FillTable(table, slaves, bus, parts);
  }

  // ---------------------------------------------------------------------------------------------
  // What a layout promises
  // ---------------------------------------------------------------------------------------------

  predicate Before(a: Row, b: Row) {
    a.bitOffset + a.bitLength <= b.bitOffset
  }

  predicate Apart(a: Row, b: Row) {
    Before(a, b) || Before(b, a)
  }

  predicate Within(r: Row, d: Direction, k: nat)
    requires k <= |d.items|
  {
    && r.slave == d.position && r.isOutput == d.isOutput
    && d.start <= r.bitOffset && r.bitOffset + r.bitLength <= d.start + Width(d, k)
  }

  /** The rows of one slave and direction lie in their slice, in order and without overlap. */
  lemma {:induction false} RowsInOrder(d: Direction, k: nat)
    requires k <= |d.items|
    ensures forall i | 0 <= i < |Rows(d, k)| :: Within(Rows(d, k)[i], d, k)
    ensures forall i, j | 0 <= i < j < |Rows(d, k)| :: Before(Rows(d, k)[i], Rows(d, k)[j])
  {
    if k > 0 {
      RowsInOrder(d, k - 1);
      var so, rows := Rows(d, k - 1), Rows(d, k);
      forall i | 0 <= i < |rows| ensures Within(rows[i], d, k) {
        if i < |so| { assert Within(so[i], d, k - 1); }
      }
      forall i, j | 0 <= i < j < |rows| ensures Before(rows[i], rows[j]) {
        assert Within(so[i], d, k - 1);
      }
    }
  }

  /** How many of the first k entries are not padding. */
  function Shown(d: Direction, k: nat): nat
    requires k <= |d.items|
  {
    if k == 0 then 0 else Shown(d, k - 1) + (if IsPadding(d.items[k - 1].entry) then 0 else 1)
  }

  /**
   Each entry that is not padding is published, at the start of the slice plus the lengths of all
   entries before it, padding included; nothing else is published.
   */
  lemma {:induction false} RowOffsets(d: Direction, n: nat, k: nat)
    requires k < n <= |d.items|
    ensures |Rows(d, n)| == Shown(d, n)
    ensures !IsPadding(d.items[k].entry) ==>
              Shown(d, k) < Shown(d, n) && Rows(d, n)[Shown(d, k)] == RowFor(d, k)
  {
    if k < n - 1 {
      RowOffsets(d, n - 1, k);
    } else if n > 1 {
      RowOffsets(d, n - 1, 0);
    }
  }

  // The published rows of a direction, entry by entry from the front, in terms of the configuration alone.

  /** No PDOs, or no data mapped by the bus: nothing is published. */
  lemma NothingPublished(position: int, isOutput: bool, start: Option<nat>, pdos: seq<Pdo>)
    requires pdos == [] || start.None?
    ensures DirectionRows(position, isOutput, start, pdos) == []
  {
  }

  lemma {:induction false} ItemsSkipEmpty(index: string, rest: seq<Pdo>)
    ensures Items([Pdo(index, [])] + rest) == Items(rest)
    decreases |rest|
  {
    var pdos := [Pdo(index, [])] + rest;
    if rest == [] {
      assert pdos[..|pdos| - 1] == [] && pdos[|pdos| - 1] == Pdo(index, []);
      assert ItemsOf(Pdo(index, [])) == [];
    } else {
      assert pdos[..|pdos| - 1] == [Pdo(index, [])] + rest[..|rest| - 1];
      ItemsSkipEmpty(index, rest[..|rest| - 1]);
    }
  }

  /** A PDO without entries takes no room. */
  lemma EmptyPdoPublished(position: int, isOutput: bool, start: nat, index: string, rest: seq<Pdo>)
    ensures DirectionRows(position, isOutput, Some(start), [Pdo(index, [])] + rest)
            == DirectionRows(position, isOutput, Some(start), rest)
  {
    ItemsSkipEmpty(index, rest);
  }

  lemma {:induction false} ItemsFromFront(index: string, e: PdoEntry, es: seq<PdoEntry>, rest: seq<Pdo>)
    ensures Items([Pdo(index, [e] + es)] + rest) == [Item(index, e)] + Items([Pdo(index, es)] + rest)
    decreases |rest|
  {
    var with, without := [Pdo(index, [e] + es)] + rest, [Pdo(index, es)] + rest;
    if rest == [] {
      assert with[..|with| - 1] == [] && without[..|without| - 1] == [];
      assert ItemsOf(Pdo(index, [e] + es)) == [Item(index, e)] + ItemsOf(Pdo(index, es));
    } else {
      var front := rest[..|rest| - 1];
      assert with[..|with| - 1] == [Pdo(index, [e] + es)] + front;
      assert without[..|without| - 1] == [Pdo(index, es)] + front;
      ItemsFromFront(index, e, es, front);
    }
  }

  /** An item in front moves all that follows it by its length. */
  lemma {:induction false} WidthMoves(whole: Direction, moved: Direction, len: nat, k: nat)
    requires whole.items != [] && whole.items[1..] == moved.items && k <= |moved.items|
    requires len == whole.items[0].entry.bitLength
    ensures Width(whole, k + 1) == len + Width(moved, k)
  {
    if k == 0 {
      assert Width(whole, 1) == Width(whole, 0) + len;
    } else {
      WidthMoves(whole, moved, len, k - 1);
      assert whole.items[k] == moved.items[k - 1];
    }
  }

  lemma {:induction false} RowsMove(whole: Direction, moved: Direction, len: nat, k: nat)
    requires whole.items != [] && whole.items[1..] == moved.items && k <= |moved.items|
    requires len == whole.items[0].entry.bitLength
    requires moved.position == whole.position && moved.isOutput == whole.isOutput && moved.start == whole.start + len
    ensures Rows(whole, k + 1) == Rows(whole, 1) + Rows(moved, k)
  {
    if k > 0 {
      RowsMove(whole, moved, len, k - 1);
      assert whole.items[k] == moved.items[k - 1];
      WidthMoves(whole, moved, len, k - 1);
      assert RowFor(whole, k) == RowFor(moved, k - 1);
    }
  }

  lemma FirstRow(d: Direction)
    requires d.items != []
    ensures var item := d.items[0];
            Rows(d, 1) == if IsPadding(item.entry) then []
                          else [Row(d.position, item.pdo, item.entry.index, item.entry.subindex, d.isOutput, d.start,
                                    item.entry.bitLength)]
  {
    assert Rows(d, 0) == [] && Width(d, 0) == 0;
  }

  /**
   The first entry of a direction sits at the start, unless it is padding, which is not published;
   what follows is published as if it started behind that entry, padding or not.
   */
  lemma EntryPublished(position: int, isOutput: bool, start: nat, index: string, e: PdoEntry, es: seq<PdoEntry>,
                       rest: seq<Pdo>)
    ensures DirectionRows(position, isOutput, Some(start), [Pdo(index, [e] + es)] + rest)
            == (if e.isPadType || e.index == "0x0000" || e.index == "0x0" then []
                else [Row(position, index, e.index, e.subindex, isOutput, start, e.bitLength)])
               + DirectionRows(position, isOutput, Some(start + e.bitLength), [Pdo(index, es)] + rest)
  {
    var with, without := [Pdo(index, [e] + es)] + rest, [Pdo(index, es)] + rest;
    var whole := Direction(position, isOutput, start, Items(with));
    var moved := Direction(position, isOutput, start + e.bitLength, Items(without));
    FrontItem(index, e, es, rest);
    AllMove(whole, moved, Item(index, e));
  }

  lemma FrontItem(index: string, e: PdoEntry, es: seq<PdoEntry>, rest: seq<Pdo>)
    ensures var with, without := Items([Pdo(index, [e] + es)] + rest), Items([Pdo(index, es)] + rest);
            |with| == |without| + 1 && with[0] == Item(index, e) && with[1..] == without
  {
    ItemsFromFront(index, e, es, rest);
  }

  lemma AllMove(whole: Direction, moved: Direction, item: Item)
    requires |whole.items| == |moved.items| + 1 && whole.items[0] == item && whole.items[1..] == moved.items
    requires moved.position == whole.position && moved.isOutput == whole.isOutput
    requires moved.start == whole.start + item.entry.bitLength
    ensures Rows(whole, |whole.items|)
            == (if IsPadding(item.entry) then []
                else [Row(whole.position, item.pdo, item.entry.index, item.entry.subindex, whole.isOutput, whole.start,
                          item.entry.bitLength)])
               + Rows(moved, |moved.items|)
  {
    FirstRow(whole);
    RowsMove(whole, moved, item.entry.bitLength, |moved.items|);
  }

  /** A slave more publishes its outputs where the bus mapped its outputs, then its inputs where it mapped those. */
  lemma SlavePublished(slaves: seq<Slave>, bus: seq<Mapping>, s: Slave)
    requires OnBus(s, bus)
    ensures AllRows(slaves + [s], bus)
            == AllRows(slaves, bus)
               + DirectionRows(s.position, true, bus[s.position - 1].outputs, s.rxPdos)
               + DirectionRows(s.position, false, bus[s.position - 1].inputs, s.txPdos)
  {
    var all, parts, more := slaves + [s], Parts(slaves, bus), Parts(slaves + [s], bus);
    forall i | 0 <= i < |slaves| ensures more[i] == parts[i] {
      assert all[i] == slaves[i];
    }
    JoinedSame(parts, more, |slaves|);
    assert more[|slaves|] == SlaveRows(s, bus);
  }

  lemma {:induction false} JoinedSame(parts: seq<seq<Row>>, more: seq<seq<Row>>, n: nat)
    requires n <= |parts| <= |more| && forall i | 0 <= i < n :: more[i] == parts[i]
    ensures Joined(more, n) == Joined(parts, n)
  {
    if n > 0 { JoinedSame(parts, more, n - 1); }
  }

  // Disjointness over the whole bus, for each of the two regions

  /** The outputs or the inputs of a slave, and where the bus mapped them. */
  function Side(s: Slave, out: bool): seq<Pdo> {
    if out then s.rxPdos else s.txPdos
  }

  function MappedAt(s: Slave, bus: seq<Mapping>, out: bool): Option<nat>
    requires OnBus(s, bus)
  {
    if out then bus[s.position - 1].outputs else bus[s.position - 1].inputs
  }

  /** A slave's slice of a region, as long as its PDOs. */
  function Slice(s: Slave, out: bool, start: nat): Direction {
    Direction(s.position, out, start, Items(Side(s, out)))
  }

  function SliceEnd(s: Slave, out: bool, start: nat): nat {
    start + Width(Slice(s, out, start), |Items(Side(s, out))|)
  }

  predicate InSlice(r: Row, s: Slave, bus: seq<Mapping>)
    requires OnBus(s, bus)
  {
    var start := MappedAt(s, bus, r.isOutput);
    start.Some? && Within(r, Slice(s, r.isOutput, start.value), |Items(Side(s, r.isOutput))|)
  }

  /** No two configured slaves share a bit of the region. */
  predicate SlicesApart(slaves: seq<Slave>, bus: seq<Mapping>, out: bool)
    requires AllOnBus(slaves, bus)
  {
    forall i, j | 0 <= i < j < |slaves| ::
      var a, b := MappedAt(slaves[i], bus, out), MappedAt(slaves[j], bus, out);
      a.Some? && b.Some? ==>
        SliceEnd(slaves[i], out, a.value) <= b.value || SliceEnd(slaves[j], out, b.value) <= a.value
  }

  /** Rows of one region in a and b are apart from each other. */
  predicate CrossApart(a: seq<Row>, b: seq<Row>, out: bool) {
    forall x, y | 0 <= x < |a| && 0 <= y < |b| && a[x].isOutput == b[y].isOutput == out :: Apart(a[x], b[y])
  }

  /** Rows of one region are pairwise apart. */
  predicate RowsApart(a: seq<Row>, out: bool) {
    forall x, y | 0 <= x < y < |a| && a[x].isOutput == a[y].isOutput == out :: Apart(a[x], a[y])
  }

  lemma ConcatCrossApart(a: seq<Row>, b: seq<Row>, c: seq<Row>, out: bool)
    requires CrossApart(a, c, out) && CrossApart(b, c, out)
    ensures CrossApart(a + b, c, out)
  {
  }

  lemma ConcatRowsApart(a: seq<Row>, b: seq<Row>, out: bool)
    requires RowsApart(a, out) && RowsApart(b, out) && CrossApart(a, b, out)
    ensures RowsApart(a + b, out)
  {
  }

  /** One direction of a slave: all rows are of that direction, in its slice and apart. */
  lemma SideRows(s: Slave, bus: seq<Mapping>, out: bool)
    requires OnBus(s, bus)
    ensures var rows := DirectionRows(s.position, out, MappedAt(s, bus, out), Side(s, out));
            RowsApart(rows, true) && RowsApart(rows, false)
            && forall x | 0 <= x < |rows| :: rows[x].isOutput == out && InSlice(rows[x], s, bus)
  {
    var start := MappedAt(s, bus, out);
    if start.Some? { RowsInOrder(Slice(s, out, start.value), |Items(Side(s, out))|); }
  }

  /** A slave's rows lie in its slices, those of one region apart from each other. */
  lemma SlaveInSlices(s: Slave, bus: seq<Mapping>, out: bool)
    requires OnBus(s, bus)
    ensures RowsApart(SlaveRows(s, bus), out)
    ensures forall x | 0 <= x < |SlaveRows(s, bus)| :: InSlice(SlaveRows(s, bus)[x], s, bus)
  {
    SideRows(s, bus, true);
    SideRows(s, bus, false);
    ConcatRowsApart(DirectionRows(s.position, true, MappedAt(s, bus, true), Side(s, true)),
                    DirectionRows(s.position, false, MappedAt(s, bus, false), Side(s, false)), out);
  }

  lemma SlavesApart(slaves: seq<Slave>, bus: seq<Mapping>, i: nat, j: nat, out: bool)
    requires AllOnBus(slaves, bus) && SlicesApart(slaves, bus, out) && i < j < |slaves|
    ensures CrossApart(SlaveRows(slaves[i], bus), SlaveRows(slaves[j], bus), out)
  {
    SlaveInSlices(slaves[i], bus, out);
    SlaveInSlices(slaves[j], bus, out);
  }

  lemma {:induction false} EarlierApart(parts: seq<seq<Row>>, n: nat, j: nat, out: bool)
    requires n <= j < |parts| && forall i | 0 <= i < n :: CrossApart(parts[i], parts[j], out)
    ensures CrossApart(Joined(parts, n), parts[j], out)
  {
    if n > 0 {
      EarlierApart(parts, n - 1, j, out);
      ConcatCrossApart(Joined(parts, n - 1), parts[n - 1], parts[j], out);
    }
  }

  lemma {:induction false} JoinedApart(parts: seq<seq<Row>>, n: nat, out: bool)
    requires n <= |parts|
    requires forall i | 0 <= i < |parts| :: RowsApart(parts[i], out)
    requires forall i, j | 0 <= i < j < |parts| :: CrossApart(parts[i], parts[j], out)
    ensures RowsApart(Joined(parts, n), out)
  {
    if n > 0 {
      JoinedApart(parts, n - 1, out);
      EarlierApart(parts, n - 1, n - 1, out);
      ConcatRowsApart(Joined(parts, n - 1), parts[n - 1], out);
    }
  }

  /** All published entries of a region whose slices are apart are pairwise apart. */
  lemma PublishedApart(slaves: seq<Slave>, bus: seq<Mapping>, out: bool)
    requires AllOnBus(slaves, bus) && SlicesApart(slaves, bus, out)
    ensures RowsApart(AllRows(slaves, bus), out)
  {
    var parts := Parts(slaves, bus);
    forall i | 0 <= i < |parts| ensures parts[i] == SlaveRows(slaves[i], bus) && RowsApart(parts[i], out) {
      PartAt(slaves, bus, i);
      SlaveInSlices(slaves[i], bus, out);
    }
    forall i, j | 0 <= i < j < |parts| ensures CrossApart(parts[i], parts[j], out) {
      SlavesApart(slaves, bus, i, j, out);
    }
    JoinedApart(parts, |parts|, out);
  }
}
