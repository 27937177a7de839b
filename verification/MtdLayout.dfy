/** Partition layout of the MTD layer (config/mtk2/kernel/mtdpart.c): where allocate_partition puts a
    partition, how large it becomes, whether it stays writeable, and what add_mtd_partitions makes of a whole
    table. Offsets and sizes are 64-bit and wrap the way the C code's do. */
module MtdLayout {
  import Modulo

  const TWO64: int := 0x1_0000_0000_0000_0000
  const TWO32: int := 0x1_0000_0000

  type u64 = x: int | 0 <= x < TWO64

  const OFS_APPEND: u64 := TWO64 - 1   // MTDPART_OFS_APPEND, -1 as an unsigned 64-bit value
  const OFS_NXTBLK: u64 := TWO64 - 2
  const OFS_RETAIN: u64 := TWO64 - 3
  const SIZ_FULL: u64 := 0
  const FCONFIG: u64 := 0x100000       // the megabyte a full-size partition leaves for Fconfig

  function Add64(a: u64, b: u64): u64 { if a + b < TWO64 then a + b else a + b - TWO64 }
  function Sub64(a: u64, b: u64): u64 { if a >= b then a - b else a - b + TWO64 }

  datatype Region = Region(offset: u64, eraseSize: u64)

  /** The master device. `regions` has more than one element on a variable-erase-size chip. */
  datatype Master = Master(size: u64, eraseSize: u64, writeable: bool, regions: seq<Region>)

  /** One entry of the partition table; `mask` takes MTD_WRITEABLE away. */
  datatype Entry = Entry(offset: u64, size: u64, mask: bool)

  /** A registered partition: the flags kept are MTD_WRITEABLE and MTD_ERASE_PARTIAL. */
  datatype Slave = Slave(offset: u64, size: u64, eraseSize: u64, writeable: bool, partial: bool)

  /** mtd_mod_by_eb; a zero erase size is a division by zero in the C code. */
  function ModEb(x: u64, eraseSize: u64): u64 { if eraseSize == 0 then 0 else x % eraseSize }

  function RoundUp(x: u64, eraseSize: u64): u64 {
    if ModEb(x, eraseSize) == 0 then x else ((x / eraseSize + 1) * eraseSize) % TWO64
  }

  // ----- the specification of one partition --------------------------------------------------------------

  /** The offset after the sentinels APPEND and NXTBLK were resolved; RETAIN is still there. */
  function Anchor(m: Master, e: Entry, cur: u64): u64 {
    var o := if e.offset == OFS_APPEND then cur else e.offset;
    if o == OFS_NXTBLK then RoundUp(cur, m.eraseSize) else o
  }

  function Place(m: Master, e: Entry, cur: u64): u64 {
    if Anchor(m, e, cur) == OFS_RETAIN then cur else Anchor(m, e, cur)
  }

  /** RETAIN asked for more than there is. */
  predicate NoRoom(m: Master, e: Entry, cur: u64) {
    Anchor(m, e, cur) == OFS_RETAIN && Sub64(m.size, cur) < e.size
  }

  function Extent(m: Master, e: Entry, cur: u64): u64 {
    var o := Place(m, e, cur);
    var asked := if Anchor(m, e, cur) == OFS_RETAIN then Sub64(Sub64(m.size, cur), e.size) else e.size;
    if asked == SIZ_FULL then Sub64(Sub64(m.size, o), FCONFIG) else asked
  }

  /** Index k is a region with bytes in [from, end). */
  predicate Overlaps(regions: seq<Region>, k: nat, from: u64, end: u64) {
    k < |regions| && regions[k].offset < end && (k + 1 < |regions| ==> regions[k + 1].offset > from)
  }

  function Biggest(regions: seq<Region>, upTo: nat, from: u64, end: u64): u64
    requires upTo <= |regions|
  {
    if upTo == 0 then 0 else
      var rest := Biggest(regions, upTo - 1, from, end);
      if Overlaps(regions, upTo - 1, from, end) && regions[upTo - 1].eraseSize > rest
      then regions[upTo - 1].eraseSize else rest
  }

  function EraseSizeAt(m: Master, o: u64, size: u64): u64 {
    if |m.regions| > 1 then Biggest(m.regions, |m.regions|, o, Add64(o, size)) else m.eraseSize
  }

  /** The write-protection decision. With CONFIG_SUPPORT_OPENWRT a partition no larger than one erase block
      may stay writeable off the boundaries; its whole extent then is its erase size. */
  function Protect(openwrt: bool, m: Master, s: Slave): Slave {
    if !s.writeable then s
    else if openwrt then
      var offStart := ModEb(s.offset, s.eraseSize) != 0;
      var small := s.size % TWO32 <= m.eraseSize;
      if offStart then s.(partial := true, writeable := small, eraseSize := if small then s.size else s.eraseSize)
      else if ModEb(Add64(s.offset, s.size), s.eraseSize) != 0 then
        s.(partial := true, writeable := small, eraseSize := if small then s.size else s.eraseSize)
      else s
    else
      s.(writeable := ModEb(s.offset, s.eraseSize) == 0 && ModEb(s.size, s.eraseSize) == 0)
  }

  function Allocate(openwrt: bool, m: Master, e: Entry, cur: u64): Slave {
    var o := Place(m, e, cur);
    var size := Extent(m, e, cur);
    var w := m.writeable && !e.mask;
    if NoRoom(m, e, cur) then Slave(o, e.size, 0, w, false)
    else if o >= m.size then Slave(0, 0, 0, w, false)
    else
      var fit := if Add64(o, size) > m.size then Sub64(m.size, o) else size;
      Protect(openwrt, m, Slave(o, fit, EraseSizeAt(m, o, fit), w, false))
  }

  // ----- the specification of a whole table --------------------------------------------------------------

  /** The running offset add_mtd_partitions carries from one entry to the next. */
  function NextOffset(s: Slave): u64 { Add64(s.offset, s.size) }

  function Layout(openwrt: bool, m: Master, table: seq<Entry>, cur: u64): seq<Slave> {
    if table == [] then [] else
      var s := Allocate(openwrt, m, table[0], cur);
      [s] + Layout(openwrt, m, table[1..], NextOffset(s))
  }

  function Reverse<T>(s: seq<T>): seq<T> { if s == [] then [] else Reverse(s[1..]) + [s[0]] }

  // ----- the code in its own form ------------------------------------------------------------------------

  /** struct mtd_part, with the fields of its embedded struct mtd_info that allocate_partition decides */
  class MtdPart {
    var offset: u64
    var size: u64
    var eraseSize: u64
    var writeable: bool
    var partial: bool

    constructor (size: u64, writeable: bool)
      ensures View() == Slave(0, size, 0, writeable, false)
    {
      offset, eraseSize, partial := 0, 0, false;
      this.size, this.writeable := size, writeable;
    }

    function View(): Slave
      reads this
    {
      Slave(offset, size, eraseSize, writeable, partial)
    }
  }

  /** Biggest is the maximum: no overlapping region has a larger erase size, and one of them has that size, unless
      none is larger than 0. */
  lemma {:induction false} BiggestIsMaximum(regions: seq<Region>, upTo: nat, from: u64, end: u64)
    requires upTo <= |regions|
    ensures var b := Biggest(regions, upTo, from, end);
            && (forall k :: 0 <= k < upTo && Overlaps(regions, k, from, end) ==> regions[k].eraseSize <= b)
            && (b > 0 ==> exists k :: 0 <= k < upTo && Overlaps(regions, k, from, end) && regions[k].eraseSize == b)
  {
    if upTo > 0 { BiggestIsMaximum(regions, upTo - 1, from, end); }
  }

  lemma {:induction false} BiggestFrom(regions: seq<Region>, lo: nat, upTo: nat, from: u64, end: u64)
    requires lo <= upTo <= |regions| && forall k :: 0 <= k < lo ==> !Overlaps(regions, k, from, end)
    ensures upTo == lo ==> Biggest(regions, upTo, from, end) == 0
    ensures Biggest(regions, lo, from, end) == 0
  {
    if lo > 0 {
      assert !Overlaps(regions, lo - 1, from, end);
      BiggestFrom(regions, lo - 1, lo - 1, from, end);
    }
  }

  lemma {:induction false} BiggestStays(regions: seq<Region>, lo: nat, upTo: nat, from: u64, end: u64)
    requires lo <= upTo <= |regions| && forall k :: lo <= k < upTo ==> !Overlaps(regions, k, from, end)
    ensures Biggest(regions, upTo, from, end) == Biggest(regions, lo, from, end)
  {
    if lo < upTo {
      assert !Overlaps(regions, upTo - 1, from, end);
      BiggestStays(regions, lo, upTo - 1, from, end);
    }
  }

  /** A byte of region k, which ends where the next one starts. */
  predicate InRegion(regions: seq<Region>, k: nat, x: int) {
    k < |regions| && regions[k].offset <= x && (k + 1 < |regions| ==> x < regions[k + 1].offset)
  }

  /** Region k has a byte in [from, end). */
  ghost predicate SharesByte(regions: seq<Region>, k: nat, from: int, end: int) {
    exists x: int :: from <= x < end && InRegion(regions, k, x)
  }

  lemma OverlapsIff(regions: seq<Region>, k: nat, from: u64, end: u64)
    requires Ascending(regions) && from < end
    ensures Overlaps(regions, k, from, end) <==> SharesByte(regions, k, from, end)
  {
    if Overlaps(regions, k, from, end) {
      var x: int := if regions[k].offset < from then from else regions[k].offset;
      assert InRegion(regions, k, x);
    }
  }

  ghost predicate Ascending(regions: seq<Region>) {
    forall i, j :: 0 <= i < j < |regions| ==> regions[i].offset < regions[j].offset
  }

  /** The two loops over the erase regions: skip to the region the partition starts in, then take the largest
      erase size up to the partition's end. */
  method PickEraseSize(regions: seq<Region>, from: u64, end: u64) returns (eraseSize: u64)
    requires Ascending(regions)
    ensures eraseSize == Biggest(regions, |regions|, from, end)
  {
    var i := 0;
    while i < |regions| && regions[i].offset <= from
      invariant i <= |regions| && forall k :: 0 <= k < i ==> regions[k].offset <= from
    {
      i := i + 1;
    }
    if i > 0 { i := i - 1; }
    eraseSize := 0;
    BiggestFrom(regions, i, i, from, end);
    while i < |regions| && regions[i].offset < end
      invariant i <= |regions| && eraseSize == Biggest(regions, i, from, end)
      invariant forall k :: i < k < |regions| ==> regions[k].offset > from
    {
      if eraseSize < regions[i].eraseSize { eraseSize := regions[i].eraseSize; }
      i := i + 1;
    }
    BiggestStays(regions, i, |regions|, from, end);
  }

  /** allocate_partition */
  method AllocatePartition(openwrt: bool, m: Master, e: Entry, cur: u64) returns (slave: MtdPart)
    requires Ascending(m.regions)
    ensures fresh(slave) && slave.View() == Allocate(openwrt, m, e, cur)
  {
    hide RoundUp, ModEb, Biggest, Protect, Add64, Sub64, Ascending;
    slave := new MtdPart(e.size, m.writeable && !e.mask);
    slave.offset := e.offset;
    ResolveSentinels(openwrt, m, cur, slave);
    if slave.offset == OFS_RETAIN {
      slave.offset := cur;
      if Sub64(m.size, slave.offset) >= slave.size {
        slave.size := Sub64(Sub64(m.size, slave.offset), slave.size);
      } else {
        return;  // registered all the same, to preserve ordering
      }
    }
    if slave.size == SIZ_FULL {
      slave.size := Sub64(m.size, slave.offset);
      slave.size := Sub64(slave.size, FCONFIG);
    }
    if slave.offset >= m.size {
      slave.offset, slave.size := 0, 0;
      return;
    }
    if Add64(slave.offset, slave.size) > m.size {
      slave.size := Sub64(m.size, slave.offset);
    }
    if |m.regions| > 1 {
      slave.eraseSize := PickEraseSize(m.regions, slave.offset, Add64(slave.offset, slave.size));
    } else {
      slave.eraseSize := m.eraseSize;
    }
    WriteProtect(openwrt, m, slave);
  }

  method ResolveSentinels(openwrt: bool, m: Master, cur: u64, slave: MtdPart)
    modifies slave`offset
    ensures forall e: Entry :: e.offset == old(slave.offset) ==> slave.offset == Anchor(m, e, cur)
  {
    if slave.offset == OFS_APPEND { slave.offset := cur; }
    if slave.offset == OFS_NXTBLK {
      if openwrt {
        slave.offset := RoundUp(cur, m.eraseSize);
      } else {
        slave.offset := cur;
        if ModEb(cur, m.eraseSize) != 0 {
          slave.offset := ((cur / m.eraseSize + 1) * m.eraseSize) % TWO64;
        }
      }
    }
  }

  method WriteProtect(openwrt: bool, m: Master, slave: MtdPart)
    modifies slave
    ensures slave.View() == Protect(openwrt, m, old(slave.View()))
  {
    if openwrt {
      if slave.writeable && ModEb(slave.offset, slave.eraseSize) != 0 {
        slave.partial := true;
        if slave.size % TWO32 > m.eraseSize { slave.writeable := false; } else { slave.eraseSize := slave.size; }
      }
      if slave.writeable && ModEb(Add64(slave.offset, slave.size), slave.eraseSize) != 0 {
        slave.partial := true;
        if slave.size % TWO32 > m.eraseSize { slave.writeable := false; } else { slave.eraseSize := slave.size; }
      }
    } else {
      if slave.writeable && ModEb(slave.offset, slave.eraseSize) != 0 { slave.writeable := false; }
      if slave.writeable && ModEb(slave.size, slave.eraseSize) != 0 { slave.writeable := false; }
    }
  }

  /** The list of registered partitions; list_add puts a new one in front. */
  class PartitionList {
    var slaves: seq<MtdPart>

    constructor ()
      ensures slaves == []
    {
      slaves := [];
    }

    ghost function Views(): seq<Slave>
      reads this, slaves
    {
      ViewsOf(slaves)
    }

    /** list_add */
    method ListAdd(slave: MtdPart)
      modifies this
      ensures Views() == [slave.View()] + old(Views())
    {
      slaves := [slave] + slaves;
      assert slaves[1..] == old(slaves);
    }

    /** add_mtd_partitions, for a table every entry of which could be allocated */
    method AddMtdPartitions(openwrt: bool, m: Master, table: seq<Entry>)
      requires Ascending(m.regions)
      modifies this
      ensures Views() == Reverse(Layout(openwrt, m, table, 0)) + old(Views())
      ensures |Views()| == |table| + |old(Views())| && Views()[|table|..] == old(Views())
      ensures forall i :: 0 <= i < |table| ==>
                var cur := if i == 0 then 0 else NextOffset(Views()[|table| - i]);
                Views()[|table| - 1 - i] == Allocate(openwrt, m, table[i], cur)
    {
      hide Allocate, Add64, Ascending, Reverse, ViewsOf, Layout;
      var cur: u64 := 0;
      ghost var before := Views();
      ghost var placed: seq<Slave> := [];
      ReverseNothing<Slave>();
      for i := 0 to |table|
        invariant Views() == Reverse(placed) + before
        invariant placed + Layout(openwrt, m, table[i..], cur) == Layout(openwrt, m, table, 0)
      {
        var slave := AllocatePartition(openwrt, m, table[i], cur);
        ListAdd(slave);
        LayoutFrom(openwrt, m, table, i, cur);
        ReverseAppend(placed, slave.View());
        placed := placed + [slave.View()];
        cur := Add64(slave.offset, slave.size);
      }
      LayoutNothing(openwrt, m, table[|table|..], cur);
      assert placed == Layout(openwrt, m, table, 0);
      NewestFirst(openwrt, m, table, before);
    }
  }

  ghost function ViewsOf(list: seq<MtdPart>): seq<Slave>
    reads list
  {
    if list == [] then [] else [list[0].View()] + ViewsOf(list[1..])
  }

  lemma ReverseNothing<T>()
    ensures Reverse<T>([]) == []
  {
  }

  lemma {:induction false} ReverseAt<T>(s: seq<T>, k: nat)
    requires k < |s|
    ensures |Reverse(s)| == |s| && Reverse(s)[k] == s[|s| - 1 - k]
  {
    if |s| > 1 {
      ReverseAt(s[1..], if k < |s| - 1 then k else 0);
    } else {
      assert Reverse(s[1..]) == [];
    }
  }

  /** Each entry is laid out from the end of the one before it. */
  lemma {:induction false} LayoutAt(openwrt: bool, m: Master, table: seq<Entry>, cur: u64, i: nat)
    requires i < |table|
    ensures var l := Layout(openwrt, m, table, cur);
            |l| == |table| && l[i] == Allocate(openwrt, m, table[i], if i == 0 then cur else NextOffset(l[i - 1]))
  {
    hide Allocate, Add64;
    LayoutLength(openwrt, m, table, cur);
    if i > 0 {
      var s := Allocate(openwrt, m, table[0], cur);
      LayoutAt(openwrt, m, table[1..], NextOffset(s), i - 1);
    }
  }

  lemma NewestFirstAt(openwrt: bool, m: Master, table: seq<Entry>, i: nat)
    requires i < |table|
    ensures var v, n := Reverse(Layout(openwrt, m, table, 0)), |table|;
            |v| == n && v[n - 1 - i] == Allocate(openwrt, m, table[i], if i == 0 then 0 else NextOffset(v[n - i]))
  {
    hide Allocate, Add64, Reverse, Layout;
    var l, n := Layout(openwrt, m, table, 0), |table|;
    LayoutAt(openwrt, m, table, 0, i);
    ReverseAt(l, n - 1 - i);
    if i > 0 { ReverseAt(l, n - i); }
  }

  lemma NewestFirst(openwrt: bool, m: Master, table: seq<Entry>, before: seq<Slave>)
    ensures var v := Reverse(Layout(openwrt, m, table, 0)) + before; var n := |table|;
            && |v| == n + |before| && v[n..] == before
            && forall i :: 0 <= i < n ==>
                 v[n - 1 - i] == Allocate(openwrt, m, table[i], if i == 0 then 0 else NextOffset(v[n - i]))
  {
    hide Allocate, Add64, Reverse, Layout;
    var l, n := Reverse(Layout(openwrt, m, table, 0)), |table|;
    if n == 0 {
      LayoutNothing(openwrt, m, table, 0);
      ReverseNothing<Slave>();
    } else {
      NewestFirstAt(openwrt, m, table, 0);
    }
    var v := l + before;
    forall i | 0 <= i < n
      ensures v[n - 1 - i] == Allocate(openwrt, m, table[i], if i == 0 then 0 else NextOffset(v[n - i]))
    {
      NewestFirstAt(openwrt, m, table, i);
    }
  }

  lemma LayoutNothing(openwrt: bool, m: Master, table: seq<Entry>, cur: u64)
    requires table == []
    ensures Layout(openwrt, m, table, cur) == []
  {
  }

  lemma LayoutFrom(openwrt: bool, m: Master, table: seq<Entry>, i: nat, cur: u64)
    requires i < |table|
    ensures var s := Allocate(openwrt, m, table[i], cur);
            Layout(openwrt, m, table[i..], cur) == [s] + Layout(openwrt, m, table[i + 1..], NextOffset(s))
  {
    hide Allocate;
    assert table[i..][1..] == table[i + 1..];
  }

  lemma {:induction false} ReverseAppend<T>(s: seq<T>, x: T)
    ensures Reverse(s + [x]) == [x] + Reverse(s)
  {
    if s != [] {
      assert (s + [x])[1..] == s[1..] + [x];
      ReverseAppend(s[1..], x);
    }
  }

  // ----- what the layout guarantees ----------------------------------------------------------------------

  /** The partition was placed and its erase size set; out-of-reach and roomless ones are left disabled. */
  predicate Placed(m: Master, e: Entry, cur: u64) {
    !NoRoom(m, e, cur) && Place(m, e, cur) < m.size
  }

  /** A device small enough for its offsets never to look like sentinels, and with a real erase size. */
  predicate Sane(m: Master) { m.eraseSize > 0 && m.size + m.eraseSize < OFS_RETAIN }

  /** A full-size partition at o finds its megabyte; on a device smaller than that the size wraps so far that the
      code cuts it down to what is left. */
  predicate FullFits(m: Master, o: u64) { o + FCONFIG <= m.size || m.size < FCONFIG }

  /** An entry the running offset has room for: RETAIN asks for less than there is, or for exactly what there is
      where that, being size 0, works as a full-size partition; any other place is at or after the running offset
      and inside the device, its size is FULL and fits, or does not wrap. At the very start an unreachable place
      does no harm: the entry is disabled at 0. */
  predicate Fits(m: Master, e: Entry, cur: u64) {
    var o := Place(m, e, cur);
    if Anchor(m, e, cur) == OFS_RETAIN && e.size > m.size - cur then false
    else if o >= m.size then cur == 0
    else if Anchor(m, e, cur) == OFS_RETAIN then e.size < m.size - cur || FullFits(m, cur)
    else cur <= o && if e.size == SIZ_FULL then FullFits(m, o) else o + e.size < TWO64
  }

  predicate TableFits(openwrt: bool, m: Master, table: seq<Entry>, cur: u64) {
    table == [] ||
    (Fits(m, table[0], cur) && TableFits(openwrt, m, table[1..], NextOffset(Allocate(openwrt, m, table[0], cur))))
  }

  /** At or after cur, in order, pairwise disjoint, and inside the master. */
  ghost predicate Ordered(l: seq<Slave>, cur: int, size: int) {
    && (forall i :: 0 <= i < |l| ==> cur <= l[i].offset && l[i].offset + l[i].size <= size)
    && (forall i, j :: 0 <= i < j < |l| ==> l[i].offset + l[i].size <= l[j].offset)
  }

  lemma RoundUpIsNext(x: u64, eraseSize: u64)
    requires eraseSize > 0 && x + eraseSize < TWO64
    ensures x <= RoundUp(x, eraseSize) < x + eraseSize && RoundUp(x, eraseSize) % eraseSize == 0
  {
    var q := x / eraseSize;
    assert x == q * eraseSize + x % eraseSize;
    assert (q + 1) * eraseSize == q * eraseSize + eraseSize;
    Modulo.MultipleMod(q + 1, eraseSize);
  }

  /** An entry lands at or after the running offset and inside the device exactly if it fits, and then the running
      offset it leaves is its own end. */
  lemma EntryFitsIff(openwrt: bool, m: Master, e: Entry, cur: u64)
    requires Sane(m) && cur <= m.size
    ensures var s := Allocate(openwrt, m, e, cur);
            && (Fits(m, e, cur) <==> cur <= s.offset && s.offset + s.size <= m.size)
            && (Fits(m, e, cur) ==> NextOffset(s) == s.offset + s.size)
  {
    hide Protect, EraseSizeAt, RoundUp;
    RoundUpIsNext(cur, m.eraseSize);
    if Placed(m, e, cur) { ProtectKeepsExtent(openwrt, m, e, cur); }
  }

  lemma ProtectKeepsExtent(openwrt: bool, m: Master, e: Entry, cur: u64)
    requires Placed(m, e, cur)
    ensures var s := Allocate(openwrt, m, e, cur);
            s.offset == Place(m, e, cur) &&
            s.size == if Add64(s.offset, Extent(m, e, cur)) > m.size then m.size - s.offset else Extent(m, e, cur)
  {
    hide EraseSizeAt, ModEb, RoundUp;
  }

  lemma OrderedStep(s: Slave, rest: seq<Slave>, cur: int, size: int)
    ensures Ordered([s] + rest, cur, size) <==>
            cur <= s.offset && s.offset + s.size <= size && Ordered(rest, s.offset + s.size, size)
  {
    if Ordered([s] + rest, cur, size) { OrderedTail(s, rest, cur, size); }
    if cur <= s.offset && s.offset + s.size <= size && Ordered(rest, s.offset + s.size, size) {
      OrderedCons(s, rest, cur, size);
    }
    hide Ordered;
  }

  lemma OrderedTail(s: Slave, rest: seq<Slave>, cur: int, size: int)
    requires Ordered([s] + rest, cur, size)
    ensures cur <= s.offset && s.offset + s.size <= size && Ordered(rest, s.offset + s.size, size)
  {
    var l := [s] + rest;
    assert l[0] == s;
    forall i | 0 <= i < |rest| ensures rest[i] == l[i + 1] && l[0].offset + l[0].size <= l[i + 1].offset { }
  }

  lemma OrderedCons(s: Slave, rest: seq<Slave>, cur: int, size: int)
    requires cur <= s.offset && s.offset + s.size <= size && Ordered(rest, s.offset + s.size, size)
    ensures Ordered([s] + rest, cur, size)
  {
    var l := [s] + rest;
    forall i | 0 < i < |l| ensures l[i] == rest[i - 1] { }
  }

  /** The partitions of a table, whatever its entries ask for, are in order, pairwise disjoint and inside the master
      if and only if every entry fits at its running offset. */
  lemma {:induction false} LayoutOrderedIff(openwrt: bool, m: Master, table: seq<Entry>, cur: u64)
    requires Sane(m) && cur <= m.size
    ensures |Layout(openwrt, m, table, cur)| == |table|
    ensures Ordered(Layout(openwrt, m, table, cur), cur, m.size) <==> TableFits(openwrt, m, table, cur)
  {
    hide Allocate, Fits, Ordered;
    if table == [] {
      assert Ordered([], cur, m.size) by { OrderedNothing(cur, m.size); }
    } else {
      var s := Allocate(openwrt, m, table[0], cur);
      LayoutLength(openwrt, m, table, cur);
      EntryFitsIff(openwrt, m, table[0], cur);
      OrderedStep(s, Layout(openwrt, m, table[1..], NextOffset(s)), cur, m.size);
      if Fits(m, table[0], cur) { LayoutOrderedIff(openwrt, m, table[1..], NextOffset(s)); }
    }
  }

  lemma OrderedNothing(cur: int, size: int)
    ensures Ordered([], cur, size)
  {
  }

  lemma {:induction false} LayoutLength(openwrt: bool, m: Master, table: seq<Entry>, cur: u64)
    ensures |Layout(openwrt, m, table, cur)| == |table|
  {
    hide Allocate;
    if table != [] { LayoutLength(openwrt, m, table[1..], NextOffset(Allocate(openwrt, m, table[0], cur))); }
  }

  /** The size of a partition at offset o for which the entry asks `asked`: what was asked if that much is left or the
      end wraps around 64 bits, otherwise what is left; 0 asks for all but a megabyte, which wraps where there is less
      than that, unless the whole device is smaller. */
  predicate SizedFor(m: Master, o: u64, asked: u64, size: u64) {
    var left := m.size - o;
    if asked == 0 then
      size == if left >= 0x100000 then left - 0x100000
              else if m.size < 0x100000 then left
              else left - 0x100000 + 0x1_0000_0000_0000_0000
    else
      size == if asked <= left || o + asked >= 0x1_0000_0000_0000_0000 then asked else left
  }

  /** An entry with an offset of its own lands there, and one that appends at the running offset, as long as that is
      inside the device. */
  lemma LandsWhereAsked(openwrt: bool, m: Master, e: Entry, cur: u64)
    requires m.size < 0xFFFF_FFFF_FFFF_FFFD
    requires e.offset < m.size || (e.offset == 0xFFFF_FFFF_FFFF_FFFF && cur < m.size)
    ensures var s := Allocate(openwrt, m, e, cur);
            s.offset == (if e.offset < m.size then e.offset else cur) && SizedFor(m, s.offset, e.size, s.size)
  {
    hide Protect, EraseSizeAt, RoundUp;
    ProtectKeepsExtent(openwrt, m, e, cur);
  }

  /** An entry that asks for the next block lands on the first boundary at or after the running offset. */
  lemma LandsOnNextBlock(openwrt: bool, m: Master, e: Entry, cur: u64, block: u64)
    requires m.eraseSize > 0 && m.size + m.eraseSize < 0xFFFF_FFFF_FFFF_FFFD && e.offset == 0xFFFF_FFFF_FFFF_FFFE
    requires cur <= block < cur + m.eraseSize && block % m.eraseSize == 0 && block < m.size
    ensures var s := Allocate(openwrt, m, e, cur);
            s.offset == block && SizedFor(m, block, e.size, s.size)
  {
    hide Protect, EraseSizeAt, RoundUp;
    RoundUpIsNext(cur, m.eraseSize);
    OneBoundary(RoundUp(cur, m.eraseSize), block, m.eraseSize);
    ProtectKeepsExtent(openwrt, m, e, cur);
  }

  /** Two boundaries less than a block apart are one. */
  lemma OneBoundary(a: u64, b: u64, eraseSize: u64)
    requires eraseSize > 0 && a % eraseSize == 0 && b % eraseSize == 0 && a < b + eraseSize && b < a + eraseSize
    ensures a == b
  {
    var p, q := a / eraseSize, b / eraseSize;
    assert a == p * eraseSize && b == q * eraseSize;
    Modulo.Distribute(p, q, eraseSize);
    if p > q { Modulo.ProductAtLeast(p - q, eraseSize); }
    if q > p { Modulo.Distribute(q, p, eraseSize); Modulo.ProductAtLeast(q - p, eraseSize); }
  }

  /** An entry that retains a tail lands at the running offset and takes what is left but the tail; with exactly the
      tail left it becomes a full-size one, and with less it is registered as it came, without an erase size. */
  lemma LandsBeforeTail(openwrt: bool, m: Master, e: Entry, cur: u64)
    requires m.size < 0xFFFF_FFFF_FFFF_FFFD && e.offset == 0xFFFF_FFFF_FFFF_FFFD && cur < m.size
    ensures var s := Allocate(openwrt, m, e, cur); var left := m.size - cur;
            && s.offset == cur
            && (e.size < left ==> s.size == left - e.size)
            && (e.size == left ==> SizedFor(m, cur, 0, s.size))
            && (e.size > left ==> s == Slave(cur, e.size, 0, m.writeable && !e.mask, false))
  {
    hide Protect, EraseSizeAt, RoundUp;
    if !NoRoom(m, e, cur) { ProtectKeepsExtent(openwrt, m, e, cur); }
  }

  /** An entry out of reach is registered empty, at 0. */
  lemma OutOfReachIsDisabled(openwrt: bool, m: Master, e: Entry, cur: u64)
    requires m.size <= e.offset < 0xFFFF_FFFF_FFFF_FFFD || (e.offset == 0xFFFF_FFFF_FFFF_FFFF && m.size <= cur)
    requires cur < 0xFFFF_FFFF_FFFF_FFFD
    ensures Allocate(openwrt, m, e, cur) == Slave(0, 0, 0, m.writeable && !e.mask, false)
  {
  }

  /** On a device with several erase regions a partition's erase size is the largest one of the regions it has a byte
      in. */
  lemma EraseSizeIsLargest(m: Master, e: Entry, cur: u64)
    requires |m.regions| > 1 && Ascending(m.regions)
    requires var s := Allocate(false, m, e, cur); 0 < s.size <= m.size - s.offset
    ensures var s := Allocate(false, m, e, cur);
            && (forall k: nat :: SharesByte(m.regions, k, s.offset, s.offset + s.size) ==>
                  m.regions[k].eraseSize <= s.eraseSize)
            && (s.eraseSize > 0 ==>
                  exists k: nat :: SharesByte(m.regions, k, s.offset, s.offset + s.size) &&
                                   m.regions[k].eraseSize == s.eraseSize)
  {
    hide RoundUp, Anchor, Extent, Ascending, Biggest, Overlaps, SharesByte;
    var s := Allocate(false, m, e, cur);
    var end := s.offset + s.size;
    assert s.eraseSize == Biggest(m.regions, |m.regions|, s.offset, end);
    BiggestIsMaximum(m.regions, |m.regions|, s.offset, end);
    forall k: nat ensures Overlaps(m.regions, k, s.offset, end) <==> SharesByte(m.regions, k, s.offset, end)
    {
      OverlapsIff(m.regions, k, s.offset, end);
    }
    forall k: nat | SharesByte(m.regions, k, s.offset, end) ensures k < |m.regions| {
      SharedIsRegion(m.regions, k, s.offset, end);
    }
  }

  lemma SharedIsRegion(regions: seq<Region>, k: nat, from: int, end: int)
    requires SharesByte(regions, k, from, end)
    ensures k < |regions|
  {
  }

  /** RETAIN leaves the requested tail exactly when there is strictly more room than that. The one other case
      is an accident: with exactly the requested room the size comes out 0, which reads as SIZ_FULL, so the
      tail is the Fconfig megabyte, and that is what was requested only if a megabyte was requested. */
  lemma RetainTailIff(openwrt: bool, m: Master, retain: u64, mask: bool, cur: u64)
    requires Sane(m) && cur < m.size
    ensures var s := Allocate(openwrt, m, Entry(OFS_RETAIN, retain, mask), cur);
            m.size - (s.offset + s.size) == retain <==>
            m.size - cur > retain || (m.size - cur == retain && retain == 0x100000)
  {
    hide Protect, EraseSizeAt, RoundUp;
    var e := Entry(OFS_RETAIN, retain, mask);
    if !NoRoom(m, e, cur) { ProtectKeepsExtent(openwrt, m, e, cur); }
  }

  /** A full-size partition leaves the Fconfig megabyte exactly when that much is left. */
  lemma FullTailIff(openwrt: bool, m: Master, mask: bool, cur: u64)
    requires Sane(m) && cur < m.size
    ensures var s := Allocate(openwrt, m, Entry(OFS_APPEND, SIZ_FULL, mask), cur);
            m.size - (s.offset + s.size) == 0x100000 <==> m.size - cur >= 0x100000
  {
    hide Protect, EraseSizeAt, RoundUp;
    ProtectKeepsExtent(openwrt, m, Entry(OFS_APPEND, SIZ_FULL, mask), cur);
  }

  /** What an out-of-reach entry does (LayoutOrderedIff says exactly when): the running offset restarts at 0, so the
      partition after the unreachable one overlaps the first. */
  lemma OutOfReachOverlaps(openwrt: bool, m: Master)
    requires Sane(m) && m.size > 0
    ensures var l := Layout(openwrt, m, [Entry(OFS_APPEND, m.size, false), Entry(OFS_APPEND, 1, false),
                                         Entry(OFS_APPEND, 1, false)], 0);
            |l| == 3 && l[0].offset == 0 && l[0].size == m.size && l[1].size == 0 && l[2].offset == 0 && l[2].size == 1
  {
    hide Protect, EraseSizeAt, RoundUp;
    var a, b := Entry(OFS_APPEND, m.size, false), Entry(OFS_APPEND, 1, false);
    ProtectKeepsExtent(openwrt, m, a, 0);
    ProtectKeepsExtent(openwrt, m, b, 0);
    assert [a, b, b][1..] == [b, b] && [b, b][1..] == [b] && [b][1..] == [];
    assert Layout(openwrt, m, [b], 0) == [Allocate(openwrt, m, b, 0)] + Layout(openwrt, m, [], 1);
  }

  /** Without CONFIG_SUPPORT_OPENWRT: a partition that was placed, so that it has an erase size, is writeable exactly
      when device and entry allow it and it starts and ends on boundaries of that size, the device's own if that is
      the same everywhere. */
  lemma WriteableIffAligned(m: Master, e: Entry, cur: u64)
    requires Allocate(false, m, e, cur).eraseSize > 0
    ensures var s := Allocate(false, m, e, cur);
            (|m.regions| <= 1 ==> s.eraseSize == m.eraseSize) && !s.partial &&
            (s.writeable <==> m.writeable && !e.mask && s.offset % s.eraseSize == 0 && s.size % s.eraseSize == 0)
  {
    hide RoundUp, Extent, Place, NoRoom, Biggest;
  }

  /** With CONFIG_SUPPORT_OPENWRT, es being the erase size it would have without: writeable exactly when aligned at both
      ends or no larger than one erase block of the device, a size that the code cuts to 32 bits; writeable off the
      boundaries is flagged, and erased as one piece. */
  lemma OpenWrtWriteableIff(m: Master, e: Entry, cur: u64)
    requires var s := Allocate(false, m, e, cur); s.eraseSize > 0 && s.offset + s.size <= m.size
    ensures var s, t := Allocate(true, m, e, cur), Allocate(false, m, e, cur);
            var es := t.eraseSize;
            var aligned := s.offset % es == 0 && (s.offset + s.size) % es == 0;
            && s.offset == t.offset && s.size == t.size
            && (s.writeable <==> m.writeable && !e.mask && (aligned || s.size % 0x1_0000_0000 <= m.eraseSize))
            && (s.partial <==> m.writeable && !e.mask && !aligned)
            && s.eraseSize == if s.writeable && s.partial then s.size else es
  {
    hide RoundUp, Extent, Place, NoRoom, Biggest;
  }
}
