/** The bad-block scans that find where the root file system starts behind a kernel image on NAND (split_uimage
    and mtd_pad_erasesize of config/mtk2/kernel/mtdpart.c, CONFIG_SUPPORT_OPENWRT).

    A block is bad if the first spare byte read for it is not 0xFF. Past the end of the device the read fails
    and the byte of the last read stays in the buffer. */
module MtdScan {
  import Modulo

  /** The marks of the blocks up to the device's end, counted from where the scan's own offsets count (the partition
      for split_uimage, offset 0 for mtd_pad_erasesize), and what the read buffer holds before the first read. The
      erase size is a power of two in the source, so its masks are remainders. */
  datatype Marks = Marks(bad: seq<bool>, initially: bool)

  function IsBad(m: Marks, k: nat): bool {
    if k < |m.bad| then m.bad[k] else if m.bad != [] then m.bad[|m.bad| - 1] else m.initially
  }

  /** Bad blocks among blocks lo, ..., hi - 1. */
  function Bad(m: Marks, lo: nat, hi: nat): (n: nat)
    requires lo <= hi
    ensures n <= hi - lo
    decreases hi
  {
    if lo == hi then 0 else Bad(m, lo, hi - 1) + if IsBad(m, hi - 1) then 1 else 0
  }

  function Good(m: Marks, lo: nat, hi: nat): nat
    requires lo <= hi
  {
    hi - lo - Bad(m, lo, hi)
  }

  /** The blocks among lo, ..., hi - 1 that are marked bad. */
  function BadBlocks(bad: seq<bool>, lo: nat, hi: nat): set<nat>
    requires hi <= |bad|
  {
    set j: nat | lo <= j < hi && bad[j]
  }

  /** Inside the device the counts are those of the blocks' own marks. */
  lemma {:induction false} BadIsMarked(m: Marks, lo: nat, hi: nat)
    requires lo <= hi <= |m.bad|
    ensures Bad(m, lo, hi) == |BadBlocks(m.bad, lo, hi)|
  {
    if lo == hi {
      assert BadBlocks(m.bad, lo, hi) == {};
    } else {
      BadIsMarked(m, lo, hi - 1);
      var before := BadBlocks(m.bad, lo, hi - 1);
      assert BadBlocks(m.bad, lo, hi) == if m.bad[hi - 1] then before + {hi - 1} else before;
    }
  }

  lemma {:induction false} GoodGrows(m: Marks, lo: nat, a: nat, b: nat)
    requires lo <= a <= b
    ensures Good(m, lo, a) <= Good(m, lo, b) <= Good(m, lo, a) + (b - a)
  {
    if a < b { GoodGrows(m, lo, a, b - 1); }
  }

  /** `n` good blocks follow block `lo`. */
  ghost predicate Enough(m: Marks, lo: nat, n: nat) {
    exists k: nat :: lo <= k && Good(m, lo, k) >= n
  }

  lemma {:induction false} StaleGoodGrows(m: Marks, lo: nat, extra: nat)
    requires !IsBad(m, |m.bad|)
    ensures Good(m, lo, lo + |m.bad| + extra) >= extra
  {
    if extra > 0 { StaleGoodGrows(m, lo, extra - 1); }
  }

  lemma {:induction false} StaleBadStops(m: Marks, lo: nat, k: nat)
    requires IsBad(m, |m.bad|) && lo <= |m.bad| <= k
    ensures Good(m, lo, k) == Good(m, lo, |m.bad|)
  {
    if k > |m.bad| { StaleBadStops(m, lo, k - 1); }
  }

  /** A scan for n good blocks ends exactly when the device has that many, or its last block reads as good, so
      that everything behind the device does too. */
  lemma EnoughIff(m: Marks, lo: nat, n: nat)
    requires lo <= |m.bad|
    ensures var stale := if m.bad == [] then m.initially else m.bad[|m.bad| - 1];
            Enough(m, lo, n) <==> |m.bad| - lo - |BadBlocks(m.bad, lo, |m.bad|)| >= n || !stale
  {
    BadIsMarked(m, lo, |m.bad|);
    if !IsBad(m, |m.bad|) {
      StaleGoodGrows(m, lo, n);
    } else {
      forall k: nat | lo <= k ensures Good(m, lo, k) <= Good(m, lo, |m.bad|) {
        if k <= |m.bad| { GoodGrows(m, lo, k, |m.bad|); } else { StaleBadStops(m, lo, k); }
      }
    }
  }

  /** ceil(len / es) */
  function BlocksFor(len: nat, es: nat): nat
    requires es > 0
  {
    if len % es == 0 then len / es else len / es + 1
  }

  lemma BlocksForIs(len: nat, es: nat, n: nat)
    requires es > 0
    ensures n * es >= len <==> n >= BlocksFor(len, es)
  {
    var q, r := len / es, len % es;
    var whole := q * es;
    assert len == whole + r;
    assert (q + 1) * es == whole + es;
    if n <= q { Modulo.ProductMonotone(n, q, es); } else { Modulo.ProductMonotone(q + 1, n, es); }
    if n >= q { Modulo.ProductMonotone(q, n, es); }
    if n < q {
      Modulo.ProductMonotone(n + 1, q, es);
      assert (n + 1) * es == n * es + es;
    }
  }

  lemma FindGoal(m: Marks, lo: nat, n: nat) returns (goal: nat)
    requires Enough(m, lo, n)
    ensures lo <= goal && Good(m, lo, goal) >= n
  {
    goal :| lo <= goal && Good(m, lo, goal) >= n;
  }

  lemma CountNothing(m: Marks, lo: nat)
    ensures Bad(m, lo, lo) == 0 && Good(m, lo, lo) == 0
  {
  }

  /** One more block is counted as bad or as good; one that is short of the goal lies in front of it. */
  lemma CountStep(m: Marks, lo: nat, block: nat, goal: nat, n: nat)
    requires lo <= block && lo <= goal && Good(m, lo, goal) >= n
    ensures Bad(m, lo, block + 1) == Bad(m, lo, block) + (if IsBad(m, block) then 1 else 0)
    ensures Good(m, lo, block + 1) == Good(m, lo, block) + (if IsBad(m, block) then 0 else 1)
    ensures Good(m, lo, block) < n ==> block < goal
  {
    if block >= goal { GoodGrows(m, lo, goal, block); }
  }

  lemma OwnMark(m: Marks, k: nat)
    requires k < |m.bad|
    ensures IsBad(m, k) == m.bad[k]
  {
  }

  /** The counts of lo, ..., k - 1 and their last block. */
  lemma CountLast(m: Marks, lo: nat, k: nat)
    requires lo < k && !IsBad(m, k - 1)
    ensures Good(m, lo, k) == k - lo - Bad(m, lo, k) && Good(m, lo, k - 1) == Good(m, lo, k) - 1
  {
  }

  class Splitter {
    var badDetected: nat     // static int bad_detected
    var rootfsOffset: nat

    constructor ()
      ensures badDetected == 0
    {
      badDetected, rootfsOffset := 0, 0;
    }

    /** The scan loop of split_uimage. It stops after the fewest blocks that hold the image in good ones, and
        places rootfs accordingly. */
    method ScanKernel(m: Marks, offset: nat, len: nat, es: nat) returns (ghost k: nat)
      requires es > 0 && Enough(m, 0, BlocksFor(len, es))
      modifies this
      ensures badDetected == Bad(m, 0, k)
      ensures (k - badDetected) * es >= len
      ensures forall j: nat :: j < k ==> Good(m, 0, j) * es < len
      ensures k - badDetected == BlocksFor(len, es) && (k > 0 ==> !IsBad(m, k - 1))
      ensures k <= |m.bad| ==> badDetected == |BadBlocks(m.bad, 0, k)| && (k > 0 ==> !m.bad[k - 1])
      ensures rootfsOffset == offset + len + badDetected * es
      ensures len % es == 0 ==> rootfsOffset == offset + k * es
    {
      hide BlocksFor, Good;
      ghost var goal: nat :| Good(m, 0, goal) >= BlocksFor(len, es);
      badDetected := 0;
      var i, block := offset, 0;
      while i < offset + len + badDetected * es
        invariant i == offset + block * es && badDetected == Bad(m, 0, block)
        invariant forall j: nat :: j < block ==> Good(m, 0, j) * es < len
        invariant block <= goal
        decreases goal - block
      {
        StillShort(m, len, es, block, goal);
        Modulo.Less(block + 1, es);
        if IsBad(m, block) { badDetected := badDetected + 1; }
        i := i + es;
        block := block + 1;
      }
      k := block;
      if k <= |m.bad| { BadIsMarked(m, 0, k); }
      ScanResult(m, len, es, k);
      rootfsOffset := offset + len + badDetected * es;
    }

    /** mtd_pad_erasesize. On NOR the padded length ends on the next block boundary. On NAND the scan then runs
        over one good block more than the padded length holds, plus one for every bad block of the kernel, and
        every bad block seen by either scan lengthens the result. Its last block is the good one too many: the
        blocks of the result are the ones before it, among which the good ones are as many as were asked for and
        one more for every bad block of the kernel. */
    method PadEraseSize(m: Marks, offset: nat, len: nat, es: nat, nand: bool) returns (padded: nat, ghost k: nat)
      requires es > 0
      requires nand ==> Enough(m, BlocksFor(offset, es), PaddedLen(offset, len, es) / es + badDetected + 1)
      modifies this
      ensures !nand ==> padded == PaddedLen(offset, len, es) && badDetected == old(badDetected)
      ensures nand ==> k > BlocksFor(offset, es) && badDetected == old(badDetected) + Bad(m, BlocksFor(offset, es), k)
      ensures nand ==> Good(m, BlocksFor(offset, es), k) == PaddedLen(offset, len, es) / es + old(badDetected) + 1
      ensures nand && k <= |m.bad| ==>
                badDetected == old(badDetected) + |BadBlocks(m.bad, BlocksFor(offset, es), k)| && !m.bad[k - 1]
      ensures nand ==> !IsBad(m, k - 1) && padded == PaddedLen(offset, len, es) + badDetected * es
      ensures nand ==> k - 1 == BlocksFor(offset, es) + PaddedLen(offset, len, es) / es + badDetected
      ensures nand ==> Good(m, BlocksFor(offset, es), k - 1) == PaddedLen(offset, len, es) / es + old(badDetected)
    {
      hide BlocksFor, PaddedLen, Good, Bad, IsBad, Enough;
      padded := PaddedLen(offset, len, es);
      k := 0;
      if nand {
        var start := BlocksFor(offset, es);
        var todo := padded / es + badDetected;
        ghost var all := todo;
        ghost var goal := FindGoal(m, start, all + 1);
        var block := start;
        CountNothing(m, start);
        // rootfs_len, counted in blocks; it goes down by one for every good block
        while todo >= 0
          invariant start <= block <= goal && badDetected == old(badDetected) + Bad(m, start, block)
          invariant todo == all - Good(m, start, block) && todo >= -1
          invariant todo < 0 ==> block > start && !IsBad(m, block - 1)
          decreases goal - block
        {
          CountStep(m, start, block, goal, all + 1);
          if IsBad(m, block) { badDetected := badDetected + 1; } else { todo := todo - 1; }
          block := block + 1;
        }
        k := block;
        CountLast(m, start, k);
        if k <= |m.bad| {
          BadIsMarked(m, start, k);
          OwnMark(m, k - 1);
        }
        padded := padded + badDetected * es;
      }
    }
  }

  /** Round the end up to a block boundary and give the length from `offset` to there. */
  function PaddedLen(offset: nat, len: nat, es: nat): nat
    requires es > 0
  {
    BlocksForIs(len + offset % es, es, BlocksFor(len + offset % es, es));
    BlocksFor(len + offset % es, es) * es - offset % es
  }

  /** The padded length is the least one that ends on a block boundary. */
  lemma PaddedLenIsLeast(offset: nat, len: nat, es: nat)
    requires es > 0
    ensures var r := PaddedLen(offset, len, es); (offset + r) % es == 0 && len <= r < len + es
  {
    hide BlocksFor;
    var off := offset % es;
    var n := BlocksFor(len + off, es);
    BlocksForIs(len + off, es, n);
    if n > 0 {
      BlocksForIs(len + off, es, n - 1);
      Modulo.Less(n, es);
    }
    Modulo.AddMultiple(offset - off, n, es);
    Modulo.Floor(offset, es);
  }

  lemma StillShort(m: Marks, len: nat, es: nat, block: nat, goal: nat)
    requires es > 0 && Good(m, 0, goal) >= BlocksFor(len, es) && block <= goal
    requires block * es < len + Bad(m, 0, block) * es
    ensures Good(m, 0, block) * es < len && block < goal
  {
    hide BlocksFor, Bad;
    Modulo.Distribute(block, Bad(m, 0, block), es);
    BlocksForIs(len, es, Good(m, 0, block));
  }

  lemma ScanResult(m: Marks, len: nat, es: nat, k: nat)
    requires es > 0 && k * es >= len + Bad(m, 0, k) * es
    requires forall j: nat :: j < k ==> Good(m, 0, j) * es < len
    ensures Good(m, 0, k) == BlocksFor(len, es) && Good(m, 0, k) * es >= len && (k > 0 ==> !IsBad(m, k - 1))
    ensures Good(m, 0, k) == k - Bad(m, 0, k)
    ensures len % es == 0 ==> len + Bad(m, 0, k) * es == k * es
  {
    hide BlocksFor;
    Modulo.Distribute(k, Bad(m, 0, k), es);
    BlocksForIs(len, es, Good(m, 0, k));
    if k > 0 {
      assert Good(m, 0, k - 1) * es < len;
      BlocksForIs(len, es, Good(m, 0, k - 1));
    }
    WholeBlocks(len, es);
  }

  lemma WholeBlocks(len: nat, es: nat)
    requires es > 0
    ensures len % es == 0 ==> BlocksFor(len, es) * es == len
  {
    Modulo.Floor(len, es);
  }
}
