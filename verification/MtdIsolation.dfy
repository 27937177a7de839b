/** What writes and erases through one partition do to the bytes inside and outside it: when the erase of a
    partial block is exact, and when no operation through a partition can be seen through another. */
module MtdIsolation {
  import Modulo
  import opened MtdLayout
  import opened MtdErase

  predicate Inside(p: Slave, k: int) { p.offset <= k < p.offset + p.size }

  // ----- which bytes an erase touches ---------------------------------------------------------------------

  /** At most one block's length from a block boundary touches that block only. */
  lemma TouchesOneBlock(es: nat, q: nat, len: nat, k: nat)
    requires 0 < len <= es
    ensures Touched(es, q * es, len, k) <==> q * es <= k < q * es + es
  {
    Modulo.MultipleMod(q, es);
    Modulo.BlockOf(q * es + len - 1, es, q);
    Modulo.BlockOf(k, es, q);
  }

  /** An erase inside an area of whole blocks touches nothing outside the area. */
  lemma TouchedInside(es: nat, lo: nat, hi: nat, addr: nat, len: nat, k: nat)
    requires es > 0 && lo % es == 0 && hi % es == 0 && lo <= addr && addr + len <= hi
    requires Touched(es, addr, len, k)
    ensures lo <= k < hi
  {
    Modulo.DivMonotone(lo, addr, es);
    Modulo.BoundaryIff(k, es, lo);
    Modulo.BoundaryIff(addr + len - 1, es, hi);
    Modulo.BoundaryIff(k, es, hi);
  }

  lemma AndErased(b: byte)
    ensures ERASED & b == b && b & ERASED == b
  {
  }

  // ----- the partial-block erase ---------------------------------------------------------------------------

  /** Exactly the partition's bytes are erased. */
  ghost predicate Exact(before: seq<byte>, after: seq<byte>, p: Slave) {
    |after| == |before| &&
    forall k :: 0 <= k < |before| ==> after[k] == if Inside(p, k) then ERASED else before[k]
  }

  /** The erase of a whole partial partition, byte by byte: the block its start lies in is erased, and of that
      block the part before the partition, or the part behind it if it starts on the boundary, is put back. */
  lemma PartialEraseAt(d: seq<byte>, es: u64, p: Slave, k: nat)
    requires Erasable(p, es, |d|) && p.partial && k < |d|
    ensures var r := EraseThrough(d, es, p, 0, p.size);
            var block := p.offset - ModEb(p.offset, es);
            |r| == |d| &&
            r[k] == if block <= k < block + es && !(k < p.offset) &&
                       !(ModEb(p.offset, es) == 0 && k >= p.offset + p.size)
                    then ERASED else d[k]
  {
    hide Touched, EraseThrough, ModEb, EraseBlocks, Program;
    if ModEb(p.offset, es) > 0 { EraseFromMiddle(d, es, p, k); } else { EraseFromBoundary(d, es, p, k); }
  }

  /** One block erased, and its first bytes programmed back. */
  lemma FrontPutBack(d: seq<byte>, es: nat, block: nat, len: nat, front: nat, k: nat)
    requires 0 < len <= es && block % es == 0 && front < es && block + front <= |d| && k < |d|
    ensures var r := Program(EraseBlocks(d, es, block, len), block, d[block..block + front]);
            |r| == |d| && r[k] == if block + front <= k < block + es then ERASED else d[k]
  {
    hide Touched, EraseBlocks, Program;
    TouchesBlock(es, block, len, k);
    EraseBlocksAt(d, es, block, len, k);
    AndErased(d[k]);
    ProgramAt(EraseBlocks(d, es, block, len), block, d[block..block + front], k);
  }

  /** One block erased, and its last bytes programmed back. */
  lemma BackPutBack(d: seq<byte>, es: nat, block: nat, keep: nat, k: nat)
    requires 0 < keep <= es && block % es == 0 && block + es <= |d| && k < |d|
    ensures var r := Program(EraseBlocks(d, es, block, es), block + keep, d[block + keep..block + es]);
            |r| == |d| && r[k] == if block <= k < block + keep then ERASED else d[k]
  {
    hide Touched, EraseBlocks, Program;
    TouchesBlock(es, block, es, k);
    EraseBlocksAt(d, es, block, es, k);
    AndErased(d[k]);
    ProgramAt(EraseBlocks(d, es, block, es), block + keep, d[block + keep..block + es], k);
  }

  lemma TouchesBlock(es: nat, block: nat, len: nat, k: nat)
    requires 0 < len <= es && block % es == 0
    ensures Touched(es, block, len, k) <==> block <= k < block + es
  {
    Modulo.Floor(block, es);
    TouchesOneBlock(es, block / es, len, k);
  }

  /** What is known of the block a partial partition starts in, without division. */
  lemma PartialBlock(p: Slave, es: u64, n: nat)
    requires Erasable(p, es, n) && p.partial
    ensures var block := p.offset - ModEb(p.offset, es);
            0 < p.size <= es && p.offset + p.size <= n < TWO64 && ModEb(p.offset, es) < es &&
            0 <= block && block % es == 0 && block + es <= n
  {
    Modulo.Floor(p.offset, es);
    BlockInside(p.offset, es, n);
  }

  lemma EraseFromMiddle(d: seq<byte>, es: u64, p: Slave, k: nat)
    requires Erasable(p, es, |d|) && p.partial && k < |d| && ModEb(p.offset, es) > 0
    ensures var r := EraseThrough(d, es, p, 0, p.size);
            |r| == |d| && r[k] == if p.offset <= k < p.offset - ModEb(p.offset, es) + es then ERASED else d[k]
  {
    PartialBlock(p, es, |d|);
    hide Touched, EraseBlocks, Program, ModEb, Erasable;
    FrontPutBack(d, es, p.offset - ModEb(p.offset, es), p.size, ModEb(p.offset, es), k);
  }

  lemma EraseFromBoundary(d: seq<byte>, es: u64, p: Slave, k: nat)
    requires Erasable(p, es, |d|) && p.partial && k < |d| && ModEb(p.offset, es) == 0
    ensures var r := EraseThrough(d, es, p, 0, p.size);
            |r| == |d| && r[k] == if p.offset <= k < p.offset + p.size then ERASED else d[k]
  {
    PartialBlock(p, es, |d|);
    EndInFirstBlock(p, es);
    hide Touched, EraseBlocks, Program, ModEb, Erasable;
    BackPutBack(d, es, p.offset, p.size, k);
  }

  /** The partial-block erase is exact, whatever the chip holds, if and only if the partition starts or ends on
      an erase-block boundary. */
  lemma PartialEraseExactIff(es: u64, p: Slave, n: nat)
    requires Erasable(p, es, n) && p.partial
    ensures (forall d: seq<byte> :: |d| == n ==> Exact(d, EraseThrough(d, es, p, 0, p.size), p)) <==>
            ModEb(p.offset, es) == 0 || ModEb(p.offset + p.size, es) == 0
  {
    hide ModEb, EraseThrough;
    var block := p.offset - ModEb(p.offset, es);
    EndOfBlock(p, es);
    if ModEb(p.offset, es) == 0 || ModEb(p.offset + p.size, es) == 0 {
      forall d: seq<byte> | |d| == n ensures Exact(d, EraseThrough(d, es, p, 0, p.size), p) {
        EmptyErase(d, es, p);
        forall k | 0 <= k < n ensures EraseThrough(d, es, p, 0, p.size)[k] == if Inside(p, k) then ERASED else d[k] {
          PartialEraseAt(d, es, p, k);
        }
      }
    } else {
      // an all-zero chip shows the difference just behind the partition, or at its last byte
      var d: seq<byte> := seq(n, i => 0);
      BlockInside(p.offset, es, n);
      if p.offset + p.size < block + es {
        PartialEraseAt(d, es, p, p.offset + p.size);
      } else {
        PartialEraseAt(d, es, p, p.offset + p.size - 1);
      }
      assert !Exact(d, EraseThrough(d, es, p, 0, p.size), p);
    }
  }

  lemma EmptyErase(d: seq<byte>, es: u64, p: Slave)
    requires Erasable(p, es, |d|)
    ensures |EraseThrough(d, es, p, 0, p.size)| == |d|
  {
  }

  /** Where a partition no larger than a block ends, relative to the block it starts in. */
  lemma EndOfBlock(p: Slave, es: u64)
    requires es > 0 && 0 < p.size <= es && p.offset + p.size < TWO64
    ensures var block := p.offset - ModEb(p.offset, es);
            && p.offset < block + es
            && (ModEb(p.offset, es) == 0 ==> p.offset + p.size <= block + es)
            && (ModEb(p.offset, es) != 0 ==>
                  (ModEb(p.offset + p.size, es) == 0 <==> p.offset + p.size == block + es))
  {
    var q := p.offset / es;
    var off := p.offset % es;
    assert p.offset == q * es + off;
    assert (q + 1) * es == q * es + es && (q + 2) * es == q * es + 2 * es;
    var e := off + p.size;
    if e < es { Modulo.DivModUnique(p.offset + p.size, es, q, e); }
    else if e < 2 * es { Modulo.DivModUnique(p.offset + p.size, es, q + 1, e - es); }
  }

  // ----- isolation over whole runs ----------------------------------------------------------------------

  datatype Op = Write(addr: nat, buf: seq<byte>) | Erase(addr: nat, len: nat)

  /** mtdcore's range check */
  predicate Allowed(p: Slave, op: Op) {
    match op
    case Write(addr, buf) => addr + |buf| <= p.size
    case Erase(addr, len) => InRange(p, addr, len)
  }

  function Apply(d: seq<byte>, es: u64, p: Slave, op: Op): (r: seq<byte>)
    requires Erasable(p, es, |d|) && Allowed(p, op)
    ensures |r| == |d|
  {
    match op
    case Write(addr, buf) => Program(d, addr + p.offset, buf)
    case Erase(addr, len) => EraseThrough(d, es, p, addr, len)
  }

  /** Byte k is in the erase block of a byte of [from, from + len). */
  ghost predicate SharesBlock(es: nat, from: nat, len: nat, k: nat)
    requires es > 0
  {
    exists j: nat :: InBlockOf(es, from, len, k, j)
  }

  predicate InBlockOf(es: nat, from: nat, len: nat, k: nat, j: nat)
    requires es > 0
  {
    from <= j < from + len && j / es == k / es
  }

  lemma TouchedIff(es: nat, from: nat, len: nat, k: nat)
    requires es > 0
    ensures Touched(es, from, len, k) <==> SharesBlock(es, from, len, k)
  {
    if Touched(es, from, len, k) {
      var q := k / es;
      var j := if q == from / es then from else q * es;
      Modulo.Floor(from, es);
      Modulo.Floor(from + len - 1, es);
      if q != from / es {
        Modulo.MultipleMod(q, es);
        Modulo.ProductMonotone(from / es + 1, q, es);
        Modulo.ProductMonotone(q, (from + len - 1) / es, es);
        assert (from / es + 1) * es == from / es * es + es;
      }
      assert InBlockOf(es, from, len, k, j);
    }
    forall j: nat | InBlockOf(es, from, len, k, j) ensures Touched(es, from, len, k) {
      Modulo.DivMonotone(from, j, es);
      Modulo.DivMonotone(j, from + len - 1, es);
    }
  }

  /** What an operation does to every byte of the chip: a write clears bits of the bytes at its place in the partition;
      an erase, unless the partition is partial, sets every block with a byte in its range to 0xFF. */
  lemma ApplyAt(d: seq<byte>, es: u64, p: Slave, op: Op, k: nat)
    requires Erasable(p, es, |d|) && Allowed(p, op) && k < |d|
    ensures var r := Apply(d, es, p, op)[k]; var from := p.offset + op.addr;
            match op
            case Write(_, buf) => r == if from <= k < from + |buf| then d[k] & buf[k - from] else d[k]
            case Erase(_, len) => p.partial || r == if SharesBlock(es, from, len, k) then 0xFF else d[k]
  {
    hide Touched, SharesBlock;
    if op.Erase? { TouchedIff(es, p.offset + op.addr, op.len, k); }
  }

  /** What is written to erased bytes through a partition reads back through it. */
  lemma WriteReadsBack(d: seq<byte>, es: u64, p: Slave, addr: nat, buf: seq<byte>)
    requires Erasable(p, es, |d|) && addr + |buf| <= p.size
    requires forall k :: p.offset + addr <= k < p.offset + addr + |buf| ==> d[k] == 0xFF
    ensures Apply(d, es, p, Write(addr, buf))[p.offset..p.offset + p.size][addr..addr + |buf|] == buf
  {
    var r, from := Apply(d, es, p, Write(addr, buf)), p.offset + addr;
    forall k | from <= k < from + |buf| ensures r[k] == buf[k - from] {
      ApplyAt(d, es, p, Write(addr, buf), k);
      AndErased(buf[k - from]);
    }
    hide Apply;
    assert r[from..from + |buf|] == buf;
  }

  function ApplyAll(d: seq<byte>, es: u64, p: Slave, ops: seq<Op>): (r: seq<byte>)
    requires Erasable(p, es, |d|) && forall i :: 0 <= i < |ops| ==> Allowed(p, ops[i])
    ensures |r| == |d|
  {
    if ops == [] then d else Apply(ApplyAll(d, es, p, ops[..|ops| - 1]), es, p, ops[|ops| - 1])
  }

  /** The shape of a partition no operation can reach out of: whole blocks, or one that, being partial, either
      starts on a boundary or reaches at least to the end of the block it starts in. */
  predicate SelfContained(p: Slave, es: u64)
    requires es > 0 && p.offset + p.size < TWO64
  {
    if p.partial then ModEb(p.offset, es) == 0 || ModEb(p.offset, es) + p.size >= es
    else ModEb(p.offset, es) == 0 && ModEb(p.offset + p.size, es) == 0
  }

  lemma ApplyStaysInside(d: seq<byte>, es: u64, p: Slave, op: Op, k: nat)
    requires Erasable(p, es, |d|) && Allowed(p, op) && SelfContained(p, es) && k < |d| && !Inside(p, k)
    ensures Apply(d, es, p, op)[k] == d[k]
  {
    hide Touched;
    if op.Erase? {
      if p.partial {
        PartialEraseAt(d, es, p, k);
      } else if Touched(es, p.offset + op.addr, op.len, k) {
        TouchedInside(es, p.offset, p.offset + p.size, p.offset + op.addr, op.len, k);
      }
    }
  }

  /** Isolation: no run of writes and erases through a self-contained partition changes a byte outside it, so
      whatever a disjoint partition reads stays the same. */
  lemma {:induction false} RunStaysInside(d: seq<byte>, es: u64, p: Slave, ops: seq<Op>, k: nat)
    requires Erasable(p, es, |d|) && forall i :: 0 <= i < |ops| ==> Allowed(p, ops[i])
    requires SelfContained(p, es) && k < |d| && !Inside(p, k)
    ensures ApplyAll(d, es, p, ops)[k] == d[k]
  {
    hide Apply, SelfContained, Erasable;
    if ops != [] {
      var prefix := ops[..|ops| - 1];
      RunStaysInside(d, es, p, prefix, k);
      ApplyStaysInside(ApplyAll(d, es, p, prefix), es, p, ops[|ops| - 1], k);
    }
  }

  lemma Isolation(d: seq<byte>, es: u64, p: Slave, ops: seq<Op>, q: Slave)
    requires Erasable(p, es, |d|) && forall i :: 0 <= i < |ops| ==> Allowed(p, ops[i])
    requires SelfContained(p, es) && q.offset + q.size <= |d|
    requires p.offset + p.size <= q.offset || q.offset + q.size <= p.offset
    ensures ApplyAll(d, es, p, ops)[q.offset..q.offset + q.size] == d[q.offset..q.offset + q.size]
  {
    hide ApplyAll, SelfContained, Erasable, Allowed;
    forall k | q.offset <= k < q.offset + q.size ensures ApplyAll(d, es, p, ops)[k] == d[k] {
      RunStaysInside(d, es, p, ops, k);
    }
  }

  // ----- all partitions at once -----------------------------------------------------------------------------

  /** An operation through one of several partitions. */
  datatype Via = Via(part: nat, op: Op)

  /** Self-contained partitions of one chip that do not overlap. */
  ghost predicate Separate(parts: seq<Slave>, es: u64, n: nat) {
    && (forall i :: 0 <= i < |parts| ==> Erasable(parts[i], es, n) && SelfContained(parts[i], es))
    && (forall i, j :: 0 <= i < j < |parts| ==>
          parts[i].offset + parts[i].size <= parts[j].offset || parts[j].offset + parts[j].size <= parts[i].offset)
  }

  ghost predicate AllAllowed(parts: seq<Slave>, ops: seq<Via>) {
    forall i :: 0 <= i < |ops| ==> ops[i].part < |parts| && Allowed(parts[ops[i].part], ops[i].op)
  }

  /** A run that interleaves operations through all of them. */
  ghost function RunAll(d: seq<byte>, es: u64, parts: seq<Slave>, ops: seq<Via>): (r: seq<byte>)
    requires Separate(parts, es, |d|) && AllAllowed(parts, ops)
    ensures |r| == |d|
  {
    if ops == [] then d else
      var last := ops[|ops| - 1];
      Apply(RunAll(d, es, parts, ops[..|ops| - 1]), es, parts[last.part], last.op)
  }

  /** The operations through partition j, in order. */
  function Own(ops: seq<Via>, j: nat): seq<Op> {
    if ops == [] then [] else
      var last := ops[|ops| - 1];
      Own(ops[..|ops| - 1], j) + if last.part == j then [last.op] else []
  }

  /** What an operation does to a byte depends on that byte alone. */
  lemma ApplyLocal(d: seq<byte>, d': seq<byte>, es: u64, p: Slave, op: Op, k: nat)
    requires |d| == |d'| && Erasable(p, es, |d|) && Allowed(p, op) && k < |d| && d[k] == d'[k]
    ensures Apply(d, es, p, op)[k] == Apply(d', es, p, op)[k]
  {
    hide Touched, ModEb;
    if op.Erase? && p.partial {
      PartialEraseAt(d, es, p, k);
      PartialEraseAt(d', es, p, k);
      hide EraseThrough;
    }
  }

  lemma {:induction false} OwnAllowed(parts: seq<Slave>, ops: seq<Via>, j: nat)
    requires AllAllowed(parts, ops) && j < |parts|
    ensures forall i :: 0 <= i < |Own(ops, j)| ==> Allowed(parts[j], Own(ops, j)[i])
  {
    hide Allowed;
    if ops != [] { OwnAllowed(parts, ops[..|ops| - 1], j); }
  }

  /** Whatever is done through the others, each partition holds what its own operations alone would have left. */
  lemma {:induction false} EachAsIfAlone(d: seq<byte>, es: u64, parts: seq<Slave>, ops: seq<Via>, j: nat, k: nat)
    requires Separate(parts, es, |d|) && AllAllowed(parts, ops) && j < |parts| && k < |d| && Inside(parts[j], k)
    ensures forall i :: 0 <= i < |Own(ops, j)| ==> Allowed(parts[j], Own(ops, j)[i])
    ensures RunAll(d, es, parts, ops)[k] == ApplyAll(d, es, parts[j], Own(ops, j))[k]
  {
    hide Apply, SelfContained, Erasable, Allowed;
    OwnAllowed(parts, ops, j);
    if ops != [] {
      var before, last := ops[..|ops| - 1], ops[|ops| - 1];
      var sofar := RunAll(d, es, parts, before);
      EachAsIfAlone(d, es, parts, before, j, k);
      if last.part == j {
        assert Own(ops, j)[..|Own(ops, j)| - 1] == Own(before, j);
        ApplyLocal(sofar, ApplyAll(d, es, parts[j], Own(before, j)), es, parts[j], last.op, k);
      } else {
        assert Own(ops, j) == Own(before, j);
        ApplyStaysInside(sofar, es, parts[last.part], last.op, k);
      }
    }
  }

  /** The shape is also necessary: a non-empty partition without it has an operation, and the chip a content,
      that change a byte outside. */
  lemma NotSelfContainedLeaks(es: u64, p: Slave, n: nat) returns (d: seq<byte>, op: Op, k: nat)
    requires Erasable(p, es, n) && p.size > 0 && !SelfContained(p, es)
    ensures |d| == n && Allowed(p, op) && k < n && !Inside(p, k) && Apply(d, es, p, op)[k] != d[k]
  {
    hide ModEb, EraseThrough, EraseBlocks, Program;
    d := seq(n, i => 0);
    if p.partial {
      k, op := p.offset + p.size, Erase(0, p.size);
      BlockInside(p.offset, es, n);
      PartialEraseAt(d, es, p, k);
    } else if ModEb(p.offset, es) != 0 {
      LeakBefore(d, es, p);
      k, op := p.offset - 1, Erase(0, 1);
    } else {
      k, op := p.offset + p.size, Erase(p.size - 1, 1);
      NotAtChipEnd(es, p, n);
      LeakBehind(d, es, p);
    }
  }

  lemma NotAtChipEnd(es: u64, p: Slave, n: nat)
    requires Erasable(p, es, n) && ModEb(p.offset + p.size, es) != 0
    ensures p.offset + p.size < n
  {
  }

  lemma LeakBefore(d: seq<byte>, es: u64, p: Slave)
    requires Erasable(p, es, |d|) && !p.partial && p.size > 0 && ModEb(p.offset, es) != 0
    ensures 0 < p.offset && EraseThrough(d, es, p, 0, 1)[p.offset - 1] == ERASED
  {
    assert 0 < p.offset;
    SameBlock(p.offset - 1, es);
    hide ModEb, EraseBlocks;
    EraseBlocksAt(d, es, p.offset, 1, p.offset - 1);
  }

  lemma LeakBehind(d: seq<byte>, es: u64, p: Slave)
    requires Erasable(p, es, |d|) && !p.partial && p.size > 0 && ModEb(p.offset + p.size, es) != 0
    requires p.offset + p.size < |d|
    ensures EraseThrough(d, es, p, p.size - 1, 1)[p.offset + p.size] == ERASED
  {
    SameBlock(p.offset + p.size - 1, es);
    hide ModEb, EraseBlocks;
    EraseBlocksAt(d, es, p.offset + p.size - 1, 1, p.offset + p.size);
  }

  /** Neighbours with no boundary between them are in one block. */
  lemma SameBlock(x: u64, es: u64)
    requires es > 0 && x + 1 < TWO64 && ModEb(x + 1, es) != 0
    ensures x / es == (x + 1) / es
  {
    var q, r := (x + 1) / es, (x + 1) % es;
    assert x + 1 == q * es + r;
    Modulo.DivModUnique(x, es, q, r - 1);
  }

  // ----- a failing erase --------------------------------------------------------------------------------------

  /** An erase of [addr, addr + len) through p that fails leaves byte k outside the partition alone. */
  predicate Spares(d: seq<byte>, es: u64, p: Slave, addr: u64, len: nat, torn: seq<byte>, k: nat)
    requires es > 0 && p.offset + p.size <= |d| < TWO64 && |torn| == |d|
  {
    k < |d| && !Inside(p, k) ==> TornThrough(d, es, p, addr, len, torn)[k] == d[k]
  }

  /** A failing erase keeps to the partition, whatever the chip holds and whatever the erase leaves behind. */
  ghost predicate FailureContained(es: u64, p: Slave, n: nat)
    requires es > 0 && p.offset + p.size <= n < TWO64
  {
    forall d: seq<byte>, torn: seq<byte>, addr: u64, len: nat, k: nat ::
      |d| == n && |torn| == n && InRange(p, addr, len) ==> Spares(d, es, p, addr, len, torn, k)
  }

  lemma TornAt(d: seq<byte>, es: nat, addr: int, len: int, torn: seq<byte>, k: nat)
    requires es > 0 && |torn| == |d| && k < |d|
    ensures TornBlocks(d, es, addr, len, torn)[k] == if Touched(es, addr, len, k) then torn[k] else d[k]
  {
  }

  /** What a failing master erase leaves in every byte: torn in the whole block a partial partition starts in,
      otherwise in every block with a byte in the range of the request. */
  lemma FailureAt(d: seq<byte>, es: u64, p: Slave, addr: u64, len: nat, torn: seq<byte>, k: nat)
    requires Erasable(p, es, |d|) && InRange(p, addr, len) && |torn| == |d| && k < |d|
    ensures var r := TornThrough(d, es, p, addr, len, torn)[k]; var block := p.offset - p.offset % es;
            r == if (if p.partial then block <= k < block + es else SharesBlock(es, p.offset + addr, len, k))
                 then torn[k] else d[k]
  {
    hide Touched, TornBlocks, SharesBlock;
    if p.partial {
      PartialBlock(p, es, |d|);
      if StartOff(p, es) > 0 {
        TouchesBlock(es, p.offset - StartOff(p, es), len, k);
        TornAt(d, es, p.offset - StartOff(p, es), len, torn, k);
      } else {
        EndInFirstBlock(p, es);
        TouchesBlock(es, p.offset, len + EndGap(p, es), k);
        TornAt(d, es, p.offset, len + EndGap(p, es), torn, k);
      }
    } else {
      TouchedIff(es, p.offset + addr, len, k);
      TornAt(d, es, p.offset + addr, len, torn, k);
    }
  }

  lemma WholeBlocksSpare(d: seq<byte>, es: u64, p: Slave, addr: u64, len: nat, torn: seq<byte>, k: nat)
    requires Erasable(p, es, |d|) && |torn| == |d| && InRange(p, addr, len)
    requires !p.partial && ModEb(p.offset, es) == 0 && ModEb(p.offset + p.size, es) == 0
    ensures Spares(d, es, p, addr, len, torn, k)
  {
    if k < |d| && !Inside(p, k) {
      if Touched(es, p.offset + addr, len, k) {
        TouchedInside(es, p.offset, p.offset + p.size, p.offset + addr, len, k);
      }
      hide Touched, ModEb;
      TornAt(d, es, p.offset + addr, len, torn, k);
    }
  }

  lemma StartsBehindZero(p: Slave, es: u64)
    requires ModEb(p.offset, es) != 0
    ensures p.offset > 0
  {
  }

  /** The byte just outside that a failing erase of an unaligned or partial partition can take with it. */
  lemma FailureLeaks(es: u64, p: Slave, n: nat) returns (addr: u64, len: nat, k: nat)
    requires Erasable(p, es, n) && p.size > 0
    requires p.partial || ModEb(p.offset, es) != 0 || ModEb(p.offset + p.size, es) != 0
    ensures InRange(p, addr, len) && k < n && !Inside(p, k)
    ensures if !p.partial then Touched(es, p.offset + addr, len, k)
            else if StartOff(p, es) > 0 then Touched(es, p.offset - StartOff(p, es), len, k)
            else Touched(es, p.offset, len + EndGap(p, es), k)
  {
    hide ModEb;
    if p.partial {
      PartialBlock(p, es, n);
      addr, len := 0, p.size;
      if StartOff(p, es) > 0 {
        k := p.offset - StartOff(p, es);
        TouchesBlock(es, k, p.size, k);
      } else {
        EndInFirstBlock(p, es);
        k := p.offset + p.size;
        TouchesBlock(es, p.offset, es, k);
      }
    } else if ModEb(p.offset, es) != 0 {
      StartsBehindZero(p, es);
      addr, len, k := 0, 1, p.offset - 1;
      SameBlock(p.offset - 1, es);
    } else {
      addr, len, k := p.size - 1, 1, p.offset + p.size;
      NotAtChipEnd(es, p, n);
      SameBlock(p.offset + p.size - 1, es);
    }
  }

  /** A failing erase keeps to the partition if and only if the partition is not partial and starts and ends on
      erase-block boundaries: what was saved of the neighbours is not put back. */
  lemma FailureContainedIff(es: u64, p: Slave, n: nat)
    requires Erasable(p, es, n) && p.size > 0
    ensures FailureContained(es, p, n) <==> !p.partial && ModEb(p.offset, es) == 0 && ModEb(p.offset + p.size, es) == 0
  {
    hide ModEb, Touched, TornThrough, TornBlocks, Spares;
    if !p.partial && ModEb(p.offset, es) == 0 && ModEb(p.offset + p.size, es) == 0 {
      forall d: seq<byte>, torn: seq<byte>, addr: u64, len: nat, k: nat
        | |d| == n && |torn| == n && InRange(p, addr, len)
        ensures Spares(d, es, p, addr, len, torn, k)
      {
        WholeBlocksSpare(d, es, p, addr, len, torn, k);
      }
    } else {
      var addr, len, k := FailureLeaks(es, p, n);
      var d: seq<byte>, torn: seq<byte> := seq(n, i => 0), seq(n, i => 1);
      NotSpared(d, es, p, addr, len, torn, k);
      assert !Spares(d, es, p, addr, len, torn, k);
    }
  }

  lemma NotSpared(d: seq<byte>, es: u64, p: Slave, addr: u64, len: nat, torn: seq<byte>, k: nat)
    requires Erasable(p, es, |d|) && |torn| == |d| && k < |d| && !Inside(p, k) && torn[k] != d[k]
    requires if !p.partial then Touched(es, p.offset + addr, len, k)
             else if StartOff(p, es) > 0 then Touched(es, p.offset - StartOff(p, es), len, k)
             else Touched(es, p.offset, len + EndGap(p, es), k)
    ensures !Spares(d, es, p, addr, len, torn, k)
  {
    hide ModEb, Touched, TornBlocks;
    if !p.partial {
      TornAt(d, es, p.offset + addr, len, torn, k);
    } else if StartOff(p, es) > 0 {
      TornAt(d, es, p.offset - StartOff(p, es), len, torn, k);
    } else {
      TornAt(d, es, p.offset, len + EndGap(p, es), torn, k);
    }
  }

  // ----- the layout decides the shape --------------------------------------------------------------------

  /** Without CONFIG_SUPPORT_OPENWRT every partition the layout leaves writeable is self-contained. */
  lemma WriteableIsSelfContained(m: Master, e: Entry, cur: u64)
    requires |m.regions| <= 1 && m.eraseSize > 0 && m.size % m.eraseSize == 0
    requires var s := Allocate(false, m, e, cur); s.eraseSize > 0 && s.writeable && s.offset + s.size <= m.size
    ensures var s := Allocate(false, m, e, cur); Erasable(s, m.eraseSize, m.size) && SelfContained(s, m.eraseSize)
  {
    hide Allocate;
    var s := Allocate(false, m, e, cur);
    WriteableIffAligned(m, e, cur);
    Modulo.AddMultiple(s.offset, s.size / m.eraseSize, m.eraseSize);
    assert s.size == (s.size / m.eraseSize) * m.eraseSize;
  }

  /** With CONFIG_SUPPORT_OPENWRT a non-empty writeable partition can be erased as modelled, and it is
      self-contained unless it lies inside one block and touches neither of that block's ends. */
  lemma OpenWrtSelfContainedIff(m: Master, e: Entry, cur: u64)
    requires |m.regions| <= 1 && m.size < TWO32 && m.eraseSize > 0 && m.size % m.eraseSize == 0
    requires var t := Allocate(false, m, e, cur); t.eraseSize > 0 && t.offset + t.size <= m.size
    requires var s := Allocate(true, m, e, cur); s.writeable && s.size > 0
    ensures var s := Allocate(true, m, e, cur);
            var off := s.offset % m.eraseSize;
            Erasable(s, m.eraseSize, m.size) &&
            (SelfContained(s, m.eraseSize) <==> !(off != 0 && off + s.size < m.eraseSize))
  {
    hide Allocate;
    var s := Allocate(true, m, e, cur);
    WriteableIffAligned(m, e, cur);
    OpenWrtWriteableIff(m, e, cur);
  }
}
