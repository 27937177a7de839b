/** Reading, writing and erasing through a partition (part_read, part_write, part_erase and
    mtd_erase_callback of config/mtk2/kernel/mtdpart.c), including the read-modify-write erase of a partition
    that covers only part of an erase block. */
module MtdErase {
  import Modulo
  import opened MtdLayout

  type byte = bv8
  const ERASED: byte := 0xFF
  const EINVAL: int := 22
  const ENOMEM: int := 12

  // ----- the chip --------------------------------------------------------------------------------------

  /** Byte k lies in an erase block touched by [addr, addr + len). */
  predicate Touched(es: nat, addr: int, len: int, k: int)
    requires es > 0
  {
    len > 0 && addr / es <= k / es <= (addr + len - 1) / es
  }

  /** Erasing sets every byte of every touched block. */
  function EraseBlocks(d: seq<byte>, es: nat, addr: int, len: int): (r: seq<byte>)
    requires es > 0
    ensures |r| == |d|
  {
    seq(|d|, k requires 0 <= k < |d| => if Touched(es, addr, len, k) then ERASED else d[k])
  }

  /** What a failing erase leaves: torn in every touched block. */
  function TornBlocks(d: seq<byte>, es: nat, addr: int, len: int, torn: seq<byte>): (r: seq<byte>)
    requires es > 0 && |torn| == |d|
    ensures |r| == |d|
  {
    seq(|d|, k requires 0 <= k < |d| => if Touched(es, addr, len, k) then torn[k] else d[k])
  }

  /** Programming flash can only clear bits. */
  function Program(d: seq<byte>, addr: int, buf: seq<byte>): (r: seq<byte>)
    ensures |r| == |d|
  {
    seq(|d|, k requires 0 <= k < |d| => if addr <= k < addr + |buf| then d[k] & buf[k - addr] else d[k])
  }

  lemma EraseBlocksAt(d: seq<byte>, es: nat, addr: int, len: int, k: nat)
    requires es > 0 && k < |d|
    ensures EraseBlocks(d, es, addr, len)[k] == if Touched(es, addr, len, k) then ERASED else d[k]
  {
  }

  lemma ProgramAt(d: seq<byte>, addr: int, buf: seq<byte>, k: nat)
    requires k < |d|
    ensures Program(d, addr, buf)[k] == if addr <= k < addr + |buf| then d[k] & buf[k - addr] else d[k]
  {
  }

  /** The master device: an array of bytes and its driver's read, write and erase. */
  class Flash {
    const es: u64
    const data: array<byte>

    ghost predicate Valid() { es > 0 && data.Length % es == 0 }

    constructor (es: u64, blocks: nat)
      requires es > 0
      ensures Valid() && this.es == es && data.Length == blocks * es && fresh(data)
    {
      this.es := es;
      data := new byte[blocks * es];
      new;
      Modulo.MultipleMod(blocks, es);
    }

    method Read(addr: nat, len: nat) returns (buf: seq<byte>)
      requires addr + len <= data.Length
      ensures buf == data[addr..addr + len]
    {
      buf := data[addr..addr + len];
    }

    method Write(addr: nat, buf: seq<byte>)
      requires addr + |buf| <= data.Length
      modifies data
      ensures data[..] == Program(old(data[..]), addr, buf)
    {
      for i := 0 to |buf|
        invariant forall k :: 0 <= k < data.Length ==>
                    data[k] == if addr <= k < addr + i then old(data[k]) & buf[k - addr] else old(data[k])
      {
        data[addr + i] := data[addr + i] & buf[i];
      }
    }

    method Erase(addr: nat, len: nat)
      requires Valid() && len > 0 && addr + len <= data.Length
      modifies data
      ensures data[..] == EraseBlocks(old(data[..]), es, addr, len)
    {
      var first, last := addr / es, (addr + len - 1) / es;
      for k := 0 to data.Length
        invariant forall j :: 0 <= j < k ==>
                    data[j] == if first <= j / es <= last then ERASED else old(data[j])
        invariant forall j :: k <= j < data.Length ==> data[j] == old(data[j])
      {
        if first <= k / es <= last { data[k] := ERASED; }
      }
    }

    /** An erase that fails half way leaves anything, but in the touched blocks only. */
    method EraseFails(addr: nat, len: nat, torn: seq<byte>)
      requires Valid() && len > 0 && addr + len <= data.Length && |torn| == data.Length
      modifies data
      ensures data[..] == TornBlocks(old(data[..]), es, addr, len, torn)
    {
      var first, last := addr / es, (addr + len - 1) / es;
      for k := 0 to data.Length
        invariant forall j :: 0 <= j < k ==>
                    data[j] == if first <= j / es <= last then torn[j] else old(data[j])
        invariant forall j :: k <= j < data.Length ==> data[j] == old(data[j])
      {
        if first <= k / es <= last { data[k] := torn[k]; }
      }
    }
  }

  /** part_read */
  method PartRead(flash: Flash, p: Slave, from: nat, len: nat) returns (buf: seq<byte>)
    requires from + len <= p.size && p.offset + p.size <= flash.data.Length
    ensures buf == flash.data[p.offset..p.offset + p.size][from..from + len]
  {
    buf := flash.Read(from + p.offset, len);
  }

  /** part_write */
  method PartWrite(flash: Flash, p: Slave, to: nat, buf: seq<byte>)
    requires to + |buf| <= p.size && p.offset + p.size <= flash.data.Length
    modifies flash.data
    ensures flash.data[..] == Program(old(flash.data[..]), to + p.offset, buf)
  {
    flash.Write(to + p.offset, buf);
  }

  // ----- erasing through a partition ----------------------------------------------------------------------

  /** How far into its block the partition starts. */
  function StartOff(p: Slave, es: u64): (r: nat)
    requires es > 0
    ensures r < es && r <= p.offset
  {
    ModEb(p.offset, es)
  }

  /** From the partition's end to the end of its block; a whole block if the end is on a boundary. */
  function EndGap(p: Slave, es: u64): (r: nat)
    requires es > 0 && p.offset + p.size < TWO64
    ensures 1 <= r <= es
  {
    es - ModEb(p.offset + p.size, es)
  }

  /** What an erase of [addr, addr + len) through p leaves on the chip. */
  function EraseThrough(d: seq<byte>, es: u64, p: Slave, addr: nat, len: nat): seq<byte>
    requires es > 0 && p.offset + p.size <= |d| < TWO64
  {
    if !p.partial then EraseBlocks(d, es, p.offset + addr, len)
    else if StartOff(p, es) > 0 then
      var block := p.offset - StartOff(p, es);
      Program(EraseBlocks(d, es, block, len), block, d[block..p.offset])
    else
      var stop := p.offset + p.size;
      Program(EraseBlocks(d, es, p.offset, len + EndGap(p, es)), stop,
              if stop + EndGap(p, es) <= |d| then d[stop..stop + EndGap(p, es)] else [])
  }

  /** What a failing master erase of such a request leaves, with nothing put back. */
  function TornThrough(d: seq<byte>, es: u64, p: Slave, addr: u64, len: nat, torn: seq<byte>): (r: seq<byte>)
    requires es > 0 && p.offset + p.size <= |d| < TWO64 && |torn| == |d|
    ensures |r| == |d|
  {
    if !p.partial then TornBlocks(d, es, p.offset + addr, len, torn)
    else if StartOff(p, es) > 0 then TornBlocks(d, es, p.offset - StartOff(p, es), len, torn)
    else TornBlocks(d, es, p.offset, len + EndGap(p, es), torn)
  }

  /** struct erase_info */
  class EraseInfo {
    var addr: u64
    var len: nat
    var buf: seq<byte>       // erase_buf
    var bufOfs: nat          // erase_buf_ofs
    var partialStart: bool

    constructor (addr: u64, len: nat)
      ensures this.addr == addr && this.len == len
    {
      this.addr, this.len := addr, len;
      buf, bufOfs, partialStart := [], 0, false;
    }
  }

  /** An erase mtdcore lets through: in range and not empty; a partial partition, whose erase size is its
      whole extent, is erased whole. */
  predicate InRange(p: Slave, addr: nat, len: nat) {
    len > 0 && addr + len <= p.size && (p.partial ==> addr == 0 && len == p.size)
  }

  /** A partition of this chip that may be erased. */
  predicate Erasable(p: Slave, es: u64, size: nat) {
    && es > 0 && size < TWO64 && size % es == 0 && p.offset + p.size <= size
    && (p.partial ==> 0 < p.size <= es && (ModEb(p.offset, es) != 0 || ModEb(p.offset + p.size, es) != 0))
  }

  lemma BlockInside(x: u64, es: u64, size: nat)
    requires es > 0 && size % es == 0 && x < size
    ensures 0 <= x - ModEb(x, es) && x - ModEb(x, es) + es <= size
  {
    Modulo.BlockInside(x, es, size);
  }

  /** The read half of the read-modify-write: save the block whose other bytes the erase will take, and widen
      the request to block boundaries. */
  method SaveBlock(flash: Flash, p: Slave, instr: EraseInfo, readResult: int) returns (ret: int)
    requires flash.Valid() && Erasable(p, flash.es, flash.data.Length)
    requires p.partial && InRange(p, instr.addr, instr.len)
    modifies instr
    ensures ret == if readResult < 0 then readResult else 0
    ensures instr.bufOfs == if StartOff(p, flash.es) > 0 then StartOff(p, flash.es) else EndGap(p, flash.es)
    ensures instr.addr == Sub64(0, StartOff(p, flash.es)) && instr.bufOfs <= flash.es
    ensures instr.len == p.size + if StartOff(p, flash.es) > 0 then 0 else instr.bufOfs
    ensures StartOff(p, flash.es) == 0 ==> instr.len == flash.es
    ensures ret == 0 ==>
              && instr.partialStart == (StartOff(p, flash.es) > 0)
              && 0 <= p.offset - StartOff(p, flash.es)
              && p.offset - StartOff(p, flash.es) + flash.es <= flash.data.Length
              && instr.buf == flash.data[p.offset - StartOff(p, flash.es)..p.offset - StartOff(p, flash.es) + flash.es]
  {
    hide ModEb;
    var es := flash.es;
    BlockInside(p.offset, es, flash.data.Length);
    instr.partialStart := false;
    instr.bufOfs := ModEb(p.offset + instr.addr, es);
    if instr.bufOfs > 0 {
      instr.addr := Sub64(instr.addr, instr.bufOfs);
      if readResult < 0 { return readResult; }
      instr.buf := flash.Read(Add64(instr.addr, p.offset), es);
      instr.partialStart := true;
    } else {
      EndInFirstBlock(p, es);
      instr.bufOfs := es - ModEb(p.offset + p.size, es);
      instr.len := instr.len + instr.bufOfs;
      if readResult < 0 { return readResult; }
      instr.buf := flash.Read(p.offset + instr.addr + instr.len - es, es);
    }
    return 0;
  }

  /** part_erase. `memory`, `readResult` and `eraseResult` are what kmalloc, mtd_read and the master's erase
      say; a successful master erase reports back through mtd_erase_callback, and a failing one leaves `torn` in the
      blocks it touches. A failure leaves addr lowered to the block boundary and len widened to the block's end, and
      after a failing erase nothing that was saved is put back. */
  method PartErase(flash: Flash, p: Slave, instr: EraseInfo, memory: bool, readResult: int, eraseResult: int,
                   torn: seq<byte>)
    returns (ret: int)
    requires |torn| == flash.data.Length
    requires flash.Valid() && Erasable(p, flash.es, flash.data.Length) && InRange(p, instr.addr, instr.len)
    modifies flash.data, instr
    ensures ret == if p.partial && !memory then -ENOMEM
                   else if p.partial && readResult < 0 then readResult
                   else eraseResult
    ensures ret == 0 ==>
              && flash.data[..] == EraseThrough(old(flash.data[..]), flash.es, p, old(instr.addr), old(instr.len))
              && instr.addr == old(instr.addr) && instr.len == old(instr.len)
    ensures ret != 0 ==>
              if p.partial && memory
              then instr.addr == Sub64(old(instr.addr), StartOff(p, flash.es)) &&
                   instr.len == old(instr.len) + (if StartOff(p, flash.es) > 0 then 0 else EndGap(p, flash.es))
              else instr.addr == old(instr.addr) && instr.len == old(instr.len)
    ensures ret != 0 ==>
              flash.data[..] == if p.partial && (!memory || readResult < 0) then old(flash.data[..]) else
                TornThrough(old(flash.data[..]), flash.es, p, old(instr.addr), old(instr.len), torn)
  {
    hide Touched, ModEb, EraseBlocks, TornBlocks, Program;
    if p.partial {
      if !memory { return -ENOMEM; }
      ret := SaveBlock(flash, p, instr, readResult);
      if ret < 0 { return; }
    }
    ret := eraseResult;
    if ret != 0 {
      MasterEraseFails(flash, p, instr, torn);
    } else {
      MasterErase(flash, p, instr, old(flash.data[..]));
    }
  }

  /** Lines 291-301 with a failing master erase. */
  method MasterEraseFails(flash: Flash, p: Slave, instr: EraseInfo, torn: seq<byte>)
    requires flash.Valid() && |torn| == flash.data.Length && instr.len > 0
    requires Add64(instr.addr, p.offset) + instr.len <= flash.data.Length
    modifies flash.data, instr
    ensures flash.data[..] ==
            TornBlocks(old(flash.data[..]), flash.es, Add64(old(instr.addr), p.offset), old(instr.len), torn)
    ensures instr.addr == old(instr.addr) && instr.len == old(instr.len)
  {
    hide Touched, TornBlocks;
    instr.addr := Add64(instr.addr, p.offset);
    flash.EraseFails(instr.addr, instr.len, torn);
    instr.addr := Sub64(instr.addr, p.offset);
  }

  /** Lines 291-292 with a successful one, which calls mtd_erase_callback. */
  method MasterErase(flash: Flash, p: Slave, instr: EraseInfo, ghost d: seq<byte>)
    requires flash.Valid() && Erasable(p, flash.es, flash.data.Length) && flash.data[..] == d
    requires !p.partial ==> InRange(p, instr.addr, instr.len)
    requires p.partial ==>
      && instr.partialStart == (StartOff(p, flash.es) > 0) && instr.addr == Sub64(0, StartOff(p, flash.es))
      && instr.bufOfs == (if instr.partialStart then StartOff(p, flash.es) else EndGap(p, flash.es)) <= flash.es
      && instr.len == p.size + (if instr.partialStart then 0 else instr.bufOfs)
      && var block := p.offset - StartOff(p, flash.es);
         0 <= block && block + flash.es <= |d| && instr.buf == d[block..block + flash.es]
    modifies flash.data, instr
    ensures flash.data[..] == EraseThrough(d, flash.es, p, if p.partial then 0 else old(instr.addr),
                                           if p.partial then p.size else old(instr.len))
    ensures instr.addr == (if p.partial then 0 else old(instr.addr))
    ensures instr.len == if p.partial then p.size else old(instr.len)
  {
    hide Touched, ModEb, EraseBlocks, Program;
    if p.partial { SavedPart(d, flash.es, p); }
    instr.addr := Add64(instr.addr, p.offset);
    flash.Erase(instr.addr, instr.len);
    EraseCallback(flash, p, instr);
  }

  /** What the callback writes back is what stood outside the partition. */
  lemma SavedPart(d: seq<byte>, es: u64, p: Slave)
    requires Erasable(p, es, |d|) && p.partial
    ensures var block := p.offset - StartOff(p, es);
            && 0 <= block && block + es <= |d|
            && (StartOff(p, es) > 0 ==> d[block..block + es][..StartOff(p, es)] == d[block..p.offset])
            && (StartOff(p, es) == 0 ==>
                  p.size + EndGap(p, es) == es &&
                  d[block..block + es][es - EndGap(p, es)..] == d[p.offset + p.size..p.offset + p.size + EndGap(p, es)])
  {
    hide ModEb;
    BlockInside(p.offset, es, |d|);
    if StartOff(p, es) == 0 { EndInFirstBlock(p, es); }
  }

  /** A partial partition that starts on a boundary ends strictly inside that block. */
  lemma EndInFirstBlock(p: Slave, es: u64)
    requires es > 0 && ModEb(p.offset, es) == 0 && 0 < p.size <= es
    requires p.offset + p.size < TWO64 && ModEb(p.offset + p.size, es) != 0
    ensures p.size < es && ModEb(p.offset + p.size, es) == p.size && EndGap(p, es) == es - p.size
  {
    var q := p.offset / es;
    assert p.offset == q * es;
    if p.size == es {
      assert (q + 1) * es == q * es + es;
      Modulo.MultipleMod(q + 1, es);
    } else {
      Modulo.DivModUnique(p.offset + p.size, es, q, p.size);
    }
  }

  /** mtd_erase_callback: put back what the erase took from the neighbours, and make addr and len relative to
      the partition again. */
  method EraseCallback(flash: Flash, p: Slave, instr: EraseInfo)
    requires flash.Valid() && p.offset + p.size <= flash.data.Length < TWO64
    requires !p.partial ==> p.offset <= instr.addr
    requires p.partial ==> |instr.buf| == flash.es >= instr.bufOfs
    requires p.partial && instr.partialStart ==> instr.addr + instr.bufOfs == p.offset
    requires p.partial && !instr.partialStart ==>
               instr.addr == p.offset && instr.bufOfs <= instr.len && instr.addr + instr.len <= flash.data.Length
    modifies flash.data, instr
    ensures !p.partial ==> flash.data[..] == old(flash.data[..])
    ensures p.partial && old(instr.partialStart) ==>
              flash.data[..] == Program(old(flash.data[..]), old(instr.addr), old(instr.buf[..instr.bufOfs]))
    ensures p.partial && !old(instr.partialStart) ==>
              flash.data[..] == Program(old(flash.data[..]), old(instr.addr + instr.len - instr.bufOfs),
                                        old(instr.buf[flash.es - instr.bufOfs..]))
    ensures instr.len ==
            if p.partial && !old(instr.partialStart) then old(instr.len) - old(instr.bufOfs) else old(instr.len)
    ensures instr.addr == if p.partial then 0 else old(instr.addr) - p.offset
  {
    if p.partial {
      if instr.partialStart {
        flash.Write(instr.addr, instr.buf[..instr.bufOfs]);
        instr.addr := Add64(instr.addr, instr.bufOfs);
      } else {
        instr.len := instr.len - instr.bufOfs;
        flash.Write(instr.addr + instr.len, instr.buf[flash.es - instr.bufOfs..]);
      }
      instr.buf := [];
    }
    instr.addr := Sub64(instr.addr, p.offset);
  }
}
