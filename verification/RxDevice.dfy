/** rt2880_eth_recv, ei_receive and ei_interrupt of config/mtk2/kernel/raether.c in their own form: the receive loop
    works on the descriptor ring and the driver's table in place while the hardware fills descriptors, and the
    interrupt handler runs, between any two statements. Every method is a run of the machine of module RxIrq. */
module RxDevice {
  import opened Wrappers
  import opened RxRing
  import opened RxIrq

  /** The last of the frames the loop consumed was given up, the k-th of them meeting available(k) and builds(k). */
  predicate LastFailed(available: nat -> bool, builds: nat -> bool, consumed: nat) {
    consumed > 0 && !(available(consumed - 1) && builds(consumed - 1))
  }

  ghost predicate AllAvailable(available: nat -> bool, builds: nat -> bool) {
    forall k: nat :: available(k) && builds(k)
  }

  /** From log l to log l' the loop consumed frames in ring order, decided the fate of each by its buffer and its skb,
      and passed on all but possibly the last. */
  ghost predicate Consumed(available: nat -> bool, builds: nat -> bool, l: Log, l': Log) {
    var c, m := |l.fates|, |l'.fates| - |l.fates|;
    && l.fates <= l'.fates && l.filled <= l'.filled && |l'.fates| <= |l'.filled|
    && (forall k: nat :: k < m ==>
          l'.fates[c + k] == if !available(k) then Dropped else if !builds(k) then Discarded else Passed)
    && (forall k: nat :: k + 1 < m ==> available(k) && builds(k))
    && l'.delivered == l.delivered + l'.filled[c..c + if LastFailed(available, builds, m) then m - 1 else m]
  }

  lemma ConsumedMore(available: nat -> bool, builds: nat -> bool, l: Log, k: Log, l': Log, passed: bool)
    requires Consumed(available, builds, l, k) && !LastFailed(available, builds, |k.fates| - |l.fates|)
    requires k.filled <= l'.filled && |k.fates| < |l'.filled|
    requires var m := |k.fates| - |l.fates|;
             && passed == (available(m) && builds(m))
             && l'.fates == k.fates + [if !available(m) then Dropped else if !builds(m) then Discarded else Passed]
    requires l'.delivered == k.delivered + if passed then [l'.filled[|k.fates|]] else []
    ensures Consumed(available, builds, l, l') && LastFailed(available, builds, |l'.fates| - |l.fates|) == !passed
  {
    var c, e := |l.fates|, |k.fates|;
    FrameAdded(k.filled, l'.filled, c, e);
    AllBefore(available, builds, e - c);
    assert l'.fates[..e] == k.fates;
    hide LastFailed;
    assert LastFailed(available, builds, e + 1 - c) == !passed by { LastIs(available, builds, e - c); }
  }

  lemma LastIs(available: nat -> bool, builds: nat -> bool, m: nat)
    ensures LastFailed(available, builds, m + 1) == !(available(m) && builds(m))
  {
  }

  lemma AllBefore(available: nat -> bool, builds: nat -> bool, m: nat)
    requires !LastFailed(available, builds, m) && forall k: nat :: k + 1 < m ==> available(k) && builds(k)
    ensures forall k: nat :: k < m ==> available(k) && builds(k)
  {
  }

  lemma FrameAdded(before: seq<Frame>, after: seq<Frame>, c: nat, e: nat)
    requires c <= e <= |before| && e < |after| && before <= after
    ensures after[c..e] == before[c..e] && after[c..e + 1] == after[c..e] + [after[e]]
  {
  }

  /** With a buffer and an skb for every frame, all that were consumed were passed on: as many as the budget allows, or
      all that waited. */
  lemma GivenOn(available: nat -> bool, builds: nat -> bool, l: Log, l': Log, budget: nat, reschedule: bool)
    requires Consumed(available, builds, l, l') && AllAvailable(available, builds)
    requires reschedule <==> |l'.fates| - |l.fates| == budget + 1 ||
                             LastFailed(available, builds, |l'.fates| - |l.fates|)
    requires !reschedule ==> |l'.fates| == |l'.filled|
    ensures |l'.delivered| == |l.delivered| + budget + 1 ||
            |l'.delivered| - |l.delivered| >= |l.filled| - |l.fates|
  {
  }

  lemma ConsumedStill(available: nat -> bool, builds: nat -> bool, l: Log, k: Log, l': Log)
    requires Consumed(available, builds, l, k)
    requires l'.fates == k.fates && l'.delivered == k.delivered && k.filled <= l'.filled
    ensures Consumed(available, builds, l, l')
  {
    var c, m := |l.fates|, |k.fates| - |l.fates|;
    var e := c + if LastFailed(available, builds, m) then m - 1 else m;
    assert l'.filled[c..e] == k.filled[c..e];
  }

  lemma ConsumedNothing(available: nat -> bool, builds: nat -> bool, l: Log)
    requires |l.fates| <= |l.filled|
    ensures Consumed(available, builds, l, l)
  {
    assert l.delivered + l.filled[|l.fates|..|l.fates|] == l.delivered;
  }

  class Device {
    const n: nat                   // NUM_RX_DESC
    const done: array<bool>        // DDONE_bit of rx_ring[0]
    const pdp: array<nat>          // PDP0 of rx_ring[0]
    const skb: array<nat>          // netrx_skbuf[0]
    var cpuIdx: nat                // rx_calc_idx[0], also written to RX_CALC_IDX0
    var packets: nat
    var dropped: nat
    var status: bool               // RX_DONE in RAETH_FE_INT_STATUS
    var interrupts: bool           // RX_DONE in RAETH_FE_INT_ENABLE
    var scheduled: bool            // the receive tasklet is scheduled
    var pendingRecv: bool
    var txRingFull: bool
    var held: set<nat>             // buffers the stack has not released
    ghost var hwIdx: nat
    ghost var mem: map<nat, Frame>
    ghost var phase: Phase
    ghost var log: Log
    ghost var tasklet: Tasklet
    ghost var trace: seq<Event>

    ghost function RingNow(): Ring
      reads `cpuIdx, `hwIdx, `mem, done, pdp, skb
    {
      Ring(done[..], pdp[..], skb[..], cpuIdx, hwIdx, mem)
    }

    ghost function IrqNow(): Irq
      reads `status, `interrupts, `scheduled, `pendingRecv, `txRingFull
    {
      Irq(status, interrupts, scheduled, pendingRecv, txRingFull)
    }

    ghost function Machine(): State
      reads `cpuIdx, `hwIdx, `mem, `packets, `dropped, `phase, `log, done, pdp, skb
    {
      State(RingNow(), Stats(packets, dropped), phase, log)
    }

    ghost predicate Valid()
      reads this, done, pdp, skb
    {
      && n >= 2 && done.Length == pdp.Length == skb.Length == n && pdp != skb && cpuIdx < n
      && held == log.held.Keys
      && Run(n, trace) == Ready(System(Machine(), IrqNow(), tasklet))
    }

    /** As ei_start leaves the ring: every slot armed with a buffer of its own, interrupts enabled. */
    constructor (n: nat)
      requires n >= 2
      ensures Valid() && this.n == n && Machine() == Init(n) && IrqNow() == Begin(n).irq && tasklet == Off
      ensures fresh(done) && fresh(pdp) && fresh(skb)
    {
      this.n := n;
      done := new bool[n](i => false);
      pdp, skb := new nat[n](i => i), new nat[n](i => i);
      cpuIdx, packets, dropped := n - 1, 0, 0;
      status, interrupts, scheduled, pendingRecv, txRingFull := false, true, false, false, false;
      held := {};
      hwIdx, mem, phase, log, tasklet, trace := 0, map[], Idle, Log(map[], [], [], []), Off, [];
      new;
      assert done[..] == Init(n).ring.done && pdp[..] == Init(n).ring.pdp && skb[..] == Init(n).ring.skb;
    }

    /** Any number of frames arrive, the stack releases any buffers, the transmit path works, and interrupts are
        handled. */
    method Hardware()
      requires Valid()
      modifies `hwIdx, `mem, `log, `trace, `status, `interrupts, `scheduled, `pendingRecv,
               `txRingFull, `held, done
      ensures Valid() && old(trace) <= trace && log.fates == old(log.fates) && log.delivered == old(log.delivered)
      ensures old(log.filled) <= log.filled && forall i :: 0 <= i < n && old(done[i]) ==> done[i]
    {
    }

    /** netdev_alloc_frag: a buffer nobody uses, if there is memory for one. */
    method NetdevAllocFrag(available: bool) returns (data: Option<nat>)
      requires Valid()
      ensures data.Some? <==> available
      ensures data.Some? ==> !InUse(Machine(), data.value)
    {
      if !available { return None; }
      var used := held + (set b | b in skb[..]) + (set b | b in pdp[..]);
      SomeUnused(used);
      var b: nat :| b !in used;
      return Some(b);
    }

    /** The fields have just been changed the way a step of the receive loop changes them: record the step. */
    ghost method Commit(s: State, a: Action)
      requires n >= 2 && done.Length == pdp.Length == skb.Length == n && pdp != skb && cpuIdx < n
      requires Run(n, trace) == Ready(System(s, IrqNow(), tasklet)) && tasklet.Looping? && a.Cpu? && Enabled(s, a)
      requires RingNow() == Next(s, a).ring && Stats(packets, dropped) == Next(s, a).stats
      requires held == Next(s, a).log.held.Keys
      modifies `phase, `log, `trace
      ensures Valid() && Machine() == Next(s, a) && trace == old(trace) + [Step(a)]
    {
      CpuFillsNothing(s, a);
      Append(n, trace, Step(a));
      hide Next, Run;
      phase, log, trace := Next(s, a).phase, Next(s, a).log, trace + [Step(a)];
    }

    /** The same for the steps of interrupt handler and tasklet. */
    ghost method Record(i: Irq, t: Tasklet, e: Event)
      requires n >= 2 && done.Length == pdp.Length == skb.Length == n && pdp != skb && cpuIdx < n
      requires held == log.held.Keys
      requires Run(n, trace) == Ready(System(Machine(), i, t)) && !e.Step? && Possible(System(Machine(), i, t), e)
      requires IrqNow() == Happen(System(Machine(), i, t), e).irq
      modifies `tasklet, `trace
      ensures Valid() && trace == old(trace) + [e] && tasklet == Happen(System(Machine(), i, t), e).tasklet
    {
      Append(n, trace, e);
      tasklet, trace := Happen(System(Machine(), i, t), e).tasklet, trace + [e];
    }

    /** In the middle of a frame the receive loop can always take its next step. */
    lemma CanStep(alloc: Option<nat>, built: bool)
      requires Valid() && !phase.Idle?
      ensures tasklet.Looping? && Enabled(Machine(), Cpu(alloc, built)) && Owner(Machine()) == (cpuIdx + 1) % n
    {
      hide Run, Slot, Others, Books, Private;
      RunIsSafe(n, trace);
    }

    lemma CanDecide(alloc: Option<nat>, built: bool)
      requires Valid() && phase.Idle? && done[(cpuIdx + 1) % n]
      requires alloc.Some? ==> !InUse(Machine(), alloc.value)
      ensures Enabled(Machine(), Cpu(alloc, built)) && Owner(Machine()) == (cpuIdx + 1) % n
    {
      hide Run, InUse, Slot, Others, Current, Books;
      RunIsSafe(n, trace);
    }

    /** A slot that is done holds the next frame in ring order. */
    lemma FrameInSlot()
      requires Valid() && if phase.Idle? then done[(cpuIdx + 1) % n] else phase.GotNew?
      ensures var b := skb[(cpuIdx + 1) % n];
              |log.fates| < |log.filled| && b in mem && mem[b] == log.filled[|log.fates|]
    {
      hide Run, Slot, Others, Books, Private, PassedOf, CountFate;
      RunIsSafe(n, trace);
    }

    /** The loop has a new buffer, or not, and an skb around the old one, or not. */
    method Decide(i: nat, alloc: Option<nat>, built: bool)
      requires Valid() && tasklet.Looping? && phase.Idle? && i == (cpuIdx + 1) % n && done[i]
      requires alloc.Some? ==> !InUse(Machine(), alloc.value)
      modifies `dropped, `phase, `log, `trace
      ensures Valid() && trace == old(trace) + [Step(Cpu(alloc, built))] && log == old(log)
      ensures dropped == old(dropped) + if alloc.None? then 1 else 0
      ensures phase ==
              if alloc.None? then Refused(Dropped) else if !built then Refused(Discarded) else GotNew(alloc.value)
    {
      hide Run, InUse;
      CanDecide(alloc, built);
      ghost var s := Machine();
      if alloc.None? { dropped := dropped + 1; }
      Commit(s, Cpu(alloc, built));
    }

    /** The frame goes to the HNAT hook or the stack. */
    method HandOver(i: nat, rxData: nat, ghost b: nat)
      requires Valid() && phase == GotNew(b) && i == (cpuIdx + 1) % n && rxData == skb[i]
      modifies `packets, `phase, `log, `trace, `held
      ensures Valid() && trace == old(trace) + [Step(Cpu(None, true))] && phase == Handed(b)
      ensures packets == old(packets) + 1 && log.fates == old(log.fates) && log.filled == old(log.filled)
      ensures rxData in mem && log.held == old(log.held)[rxData := mem[rxData]]
      ensures log.delivered == old(log.delivered) + [mem[rxData]]
    {
      hide Run;
      CanStep(None, true);
      ghost var s := Machine();
      packets := packets + 1;
      held := held + {rxData};
      Commit(s, Cpu(None, true));
    }

    method PointDescriptor(i: nat, data: nat)
      requires Valid() && phase == Handed(data) && i == (cpuIdx + 1) % n
      modifies `phase, `log, `trace, pdp
      ensures Valid() && trace == old(trace) + [Step(Cpu(None, true))] && phase == Addressed(data) && log == old(log)
      ensures pdp[..] == old(pdp[..])[i := data]
    {
      hide Run;
      CanStep(None, true);
      ghost var s := Machine();
      pdp[i] := data;
      Commit(s, Cpu(None, true));
    }

    method ClearDone(i: nat)
      requires Valid() && (phase.Addressed? || phase.Refused?) && i == (cpuIdx + 1) % n
      modifies `phase, `log, `trace, done
      ensures Valid() && trace == old(trace) + [Step(Cpu(None, true))] && log == old(log)
      ensures done[..] == old(done[..])[i := false]
      ensures phase == if old(phase.Addressed?) then Cleared(old(phase.b)) else Recycled(old(phase.f))
    {
      hide Run;
      CanStep(None, true);
      ghost var s := Machine();
      done[i] := false;
      Commit(s, Cpu(None, true));
    }

    method PointTable(i: nat, data: nat)
      requires Valid() && phase == Cleared(data) && i == (cpuIdx + 1) % n
      modifies `phase, `log, `trace, skb
      ensures Valid() && trace == old(trace) + [Step(Cpu(None, true))] && phase == Swapped(data) && log == old(log)
      ensures skb[..] == old(skb[..])[i := data]
    {
      hide Run;
      CanStep(None, true);
      ghost var s := Machine();
      skb[i] := data;
      Commit(s, Cpu(None, true));
    }

    /** The CPU index moves on: the hardware may use the slot again. */
    method Advance(i: nat)
      requires Valid() && (phase.Swapped? || phase.Recycled?) && i == (cpuIdx + 1) % n
      modifies `cpuIdx, `phase, `log, `trace
      ensures Valid() && trace == old(trace) + [Step(Cpu(None, true))] && phase == Idle && cpuIdx == i
      ensures log == old(log).(fates := old(log.fates) + [if old(phase.Swapped?) then Passed else old(phase.f)])
    {
      hide Run;
      CanStep(None, true);
      ghost var s := Machine();
      cpuIdx := i;
      Commit(s, Cpu(None, true));
    }

    /** No buffer, or no skb: the frame is given up and the slot goes back to the hardware with the buffer it had. */
    method RecycleSlot(i: nat)
      requires Valid() && phase.Refused? && i == (cpuIdx + 1) % n
      modifies `cpuIdx, `phase, `hwIdx, `mem, `log, `trace, `status, `interrupts, `scheduled, `pendingRecv,
               `txRingFull, `held, done
      ensures Valid() && old(trace) <= trace && phase == Idle && cpuIdx == i
      ensures log.fates == old(log.fates) + [old(phase.f)] && old(log.filled) <= log.filled
      ensures log.delivered == old(log.delivered)
    {
      hide Run;
      Hardware();
      ClearDone(i);
      Hardware();
      Advance(i);
    }

    method Rearm(i: nat, data: nat)
      requires Valid() && phase == Handed(data) && i == (cpuIdx + 1) % n
      modifies `phase, `hwIdx, `mem, `log, `trace, `status, `interrupts, `scheduled, `pendingRecv,
               `txRingFull, `held, done, pdp
      ensures Valid() && old(trace) <= trace && phase == Cleared(data)
      ensures log.fates == old(log.fates) && old(log.filled) <= log.filled && log.delivered == old(log.delivered)
    {
      hide Run;
      Hardware();
      PointDescriptor(i, data);
      Hardware();
      ClearDone(i);
    }

    method Complete(i: nat, data: nat)
      requires Valid() && phase == Cleared(data) && i == (cpuIdx + 1) % n
      modifies `cpuIdx, `phase, `hwIdx, `mem, `log, `trace, `status, `interrupts, `scheduled, `pendingRecv,
               `txRingFull, `held, done, skb
      ensures Valid() && old(trace) <= trace && phase == Idle && cpuIdx == i
      ensures log.fates == old(log.fates) + [Passed] && old(log.filled) <= log.filled
      ensures log.delivered == old(log.delivered) && skb[..] == old(skb[..])[i := data]
    {
      hide Run;
      Hardware();
      PointTable(i, data);
      Hardware();
      Advance(i);
    }

    /** The frame is passed on and the slot goes back to the hardware with the new buffer. */
    method PassOn(i: nat, rxData: nat, data: nat)
      requires Valid() && phase == GotNew(data) && i == (cpuIdx + 1) % n && rxData == skb[i]
      modifies `cpuIdx, `packets, `phase, `hwIdx, `mem, `log, `trace, `status, `interrupts, `scheduled,
               `pendingRecv, `txRingFull, `held, done, pdp, skb
      ensures Valid() && old(trace) <= trace && phase == Idle && cpuIdx == i
      ensures log.fates == old(log.fates) + [Passed] && old(log.filled) <= log.filled
      ensures packets == old(packets) + 1 && skb[..] == old(skb[..])[i := data]
      ensures rxData in old(mem) && log.delivered == old(log.delivered) + [old(mem)[rxData]]
      ensures |old(log.fates)| < |old(log.filled)| && old(mem)[rxData] == old(log.filled)[|old(log.fates)|]
    {
      hide Run, Valid, Machine;
      FrameInSlot();
      Hardware();
      FrameInSlot();
      HandOver(i, rxData, data);
      Rearm(i, data);
      Complete(i, data);
    }

    /** The two error paths of the loop. */
    method GiveUp(i: nat, data: Option<nat>, built: bool)
      requires Valid() && tasklet.Looping? && phase.Idle? && i == (cpuIdx + 1) % n && done[i]
      requires data.Some? ==> !built && !InUse(Machine(), data.value)
      modifies `cpuIdx, `dropped, `phase, `hwIdx, `mem, `log, `trace, `status, `interrupts, `scheduled, `pendingRecv,
               `txRingFull, `held, done
      ensures Valid() && old(trace) <= trace && phase == Idle && cpuIdx == i
      ensures log.fates == old(log.fates) + [if data.None? then Dropped else Discarded]
      ensures dropped == old(dropped) + if data.None? then 1 else 0
      ensures old(log.filled) <= log.filled && log.delivered == old(log.delivered)
    {
      hide Run, Machine, InUse;
      Decide(i, data, built);
      RecycleSlot(i);
    }

    /** One turn of the loop on a done slot. `available` and `builds` are what netdev_alloc_frag and build_skb would
        say: with both the frame in the slot's buffer goes to the stack and the slot gets a new buffer; otherwise the
        frame is given up, counted exactly if there was no new buffer, and the slot keeps the one it had. */
    method Serve(i: nat, rxData: nat, available: bool, builds: bool) returns (passed: bool)
      requires Valid() && tasklet.Looping? && phase.Idle? && i == (cpuIdx + 1) % n && rxData == skb[i] && done[i]
      modifies `cpuIdx, `packets, `dropped, `phase, `hwIdx, `mem, `log, `trace, `status, `interrupts, `scheduled,
               `pendingRecv, `txRingFull, `held, done, pdp, skb
      ensures Valid() && old(trace) <= trace && phase == Idle && cpuIdx == i && old(log.filled) <= log.filled
      ensures passed <==> available && builds
      ensures log.fates ==
              old(log.fates) + [if !available then Dropped else if !builds then Discarded else Passed]
      ensures rxData in old(mem) && log.delivered == old(log.delivered) + if passed then [old(mem)[rxData]] else []
      ensures |old(log.fates)| < |old(log.filled)| && old(mem)[rxData] == old(log.filled)[|old(log.fates)|]
      ensures packets == old(packets) + if passed then 1 else 0
      ensures dropped == old(dropped) + if available then 0 else 1
      ensures forall k :: 0 <= k < n && k != i ==> skb[k] == old(skb[k])
      ensures skb[i] == rxData <==> !passed
    {
      hide Run, Machine, InUse, Possible, Happen, Enabled, Next, IrqNow;
      FrameInSlot();
      var data := NetdevAllocFrag(available);
      if data.None? {
        GiveUp(i, data, true);
        return false;
      }
      if !builds {
        GiveUp(i, data, false);
        return false;
      }
      assert data.value != rxData by { UsedInTable(rxData, i); }
      Decide(i, data, true);
      PassOn(i, rxData, data.value);
      return true;
    }

    /** The same for the k-th frame since log l. */
    method ServeNext(i: nat, rxData: nat, k: nat, available: nat -> bool, builds: nat -> bool, ghost l: Log)
      returns (passed: bool)
      requires Valid() && tasklet.Looping? && phase.Idle? && i == (cpuIdx + 1) % n && rxData == skb[i] && done[i]
      requires Consumed(available, builds, l, log) && |log.fates| == |l.fates| + k && !LastFailed(available, builds, k)
      modifies `cpuIdx, `packets, `dropped, `phase, `hwIdx, `mem, `log, `trace, `status, `interrupts, `scheduled,
               `pendingRecv, `txRingFull, `held, done, pdp, skb
      ensures Valid() && old(trace) <= trace && phase == Idle && cpuIdx == i
      ensures Consumed(available, builds, l, log) && |log.fates| == |l.fates| + k + 1
      ensures LastFailed(available, builds, k + 1) == !passed
      ensures forall k :: 0 <= k < n && k != i ==> skb[k] == old(skb[k])
    {
      hide *;
      Shapes();
      ghost var before := log;
      passed := Serve(i, rxData, available(k), builds(k));
      ConsumedMore(available, builds, l, before, log, passed);
    }

    lemma UsedInTable(b: nat, i: nat)
      requires i < skb.Length && skb[i] == b
      ensures InUse(Machine(), b)
    {
      assert skb[..][i] == b;
    }

    /** rt2880_eth_recv, `budget` being NUM_RX_MAX_PROCESS; `available(k)` and `builds(k)` are what netdev_alloc_frag
        and build_skb would say to the k-th frame. At most budget + 1 frames are consumed and every one but possibly
        the last is passed on, in ring order. The caller is told to come back exactly if that many were consumed or
        the last one was given up; otherwise nothing completed was left in the ring at the last test of a done bit,
        when lastTest frames had been completed. */
    method EthRecv(budget: nat, available: nat -> bool, builds: nat -> bool)
      returns (reschedule: bool, ghost lastTest: nat)
      requires Valid() && tasklet.Looping? && phase.Idle?
      modifies `cpuIdx, `packets, `dropped, `phase, `hwIdx, `mem, `log, `tasklet, `trace, `status, `interrupts,
               `scheduled, `pendingRecv, `txRingFull, `held, done, pdp, skb
      ensures Valid() && phase.Idle? && old(trace) <= trace && tasklet == if reschedule then Told else Drained(lastTest)
      ensures Consumed(available, builds, old(log), log)
      ensures var m := |log.fates| - |old(log.fates)|;
              && 0 <= m <= budget + 1
              && (reschedule <==> m == budget + 1 || LastFailed(available, builds, m))
      ensures !reschedule ==> |log.fates| == |log.filled| == lastTest
    {
      hide *;
      Shapes();
      lastTest := 0;
      var processed := 0;
      var i := (cpuIdx + 1) % n;
      var rxData := skb[i];
      ghost var l := log;
      ConsumedWereFilled();
      ConsumedNothing(available, builds, l);
      assert !LastFailed(available, builds, 0) by { NoneFailed(available, builds); }
      while true
        invariant Valid() && tasklet.Looping? && phase.Idle? && old(trace) <= trace && processed <= budget + 1
        invariant i == (cpuIdx + 1) % n && rxData == skb[i]
        invariant Consumed(available, builds, l, log) && |log.fates| == |l.fates| + processed
        invariant !LastFailed(available, builds, processed)
        decreases budget + 1 - processed
      {
        if processed > budget {
          LeaveLoop(i, false);
          return true, 0;
        }
        ghost var k := log;
        Hardware();
        ConsumedStill(available, builds, l, k, log);
        if !done[i] {
          lastTest := |log.filled|;
          LeaveLoop(i, true);
          return false, lastTest;
        }
        processed := processed + 1;
        var next := (i + 1) % n;
        var rxDataNext := skb[next];
        var passed := ServeNext(i, rxData, processed - 1, available, builds, l);
        if !passed {
          LeaveLoop(next, false);
          return true, 0;
        }
        i, rxData := next, rxDataNext;
      }
    }

    lemma Shapes()
      requires Valid()
      ensures n >= 2 && done.Length == pdp.Length == skb.Length == n && pdp != skb && cpuIdx < n
      ensures held == log.held.Keys && Run(n, trace) == Ready(System(Machine(), IrqNow(), tasklet))
    {
    }

    lemma ConsumedWereFilled()
      requires Valid()
      ensures |log.fates| <= |log.filled|
    {
      hide Run, Others, Current;
      RunIsSafe(n, trace);
    }

    /** The loop ends, at the same moment as the test of the done bit if that is the reason. */
    ghost method LeaveLoop(i: nat, drained: bool)
      requires Valid() && tasklet.Looping? && phase.Idle? && i == (cpuIdx + 1) % n && (drained ==> !done[i])
      modifies `tasklet, `trace
      ensures Valid() && trace == old(trace) + [Leave(drained)]
      ensures tasklet == if drained then Drained(|log.filled|) else Told
      ensures drained ==> |log.fates| == |log.filled|
    {
      RunIsSafe(n, trace);
      if drained { DrainedNow(n, Machine()); }
      assert |log.fates| <= |log.filled| by { hide Run, Others, Current; }
      hide Run, Inv;
      Record(IrqNow(), tasklet, Leave(drained));
    }

    /** ei_receive, the tasklet. Afterwards it is scheduled again, or the interrupt is enabled; in the latter case every
        frame that waits was completed after the last test of a done bit, and either its status is pending, so that
        the interrupt comes, or the interrupt handler put it off because the transmit ring was full. With memory for
        every frame the stack gets budget + 1 frames, or all that waited. */
    method EiReceive(budget: nat, available: nat -> bool, builds: nat -> bool) returns (ghost lastTest: nat)
      requires Valid() && scheduled && tasklet.Off?
      modifies this, done, pdp, skb
      ensures Valid() && phase.Idle? && tasklet.Off? && old(trace) <= trace
      ensures old(txRingFull) ==> scheduled && log == old(log)
      ensures !scheduled ==> interrupts && |log.fates| == lastTest
      ensures !scheduled && |log.filled| > lastTest ==> status || pendingRecv
      ensures !old(txRingFull) ==> Consumed(available, builds, old(log), log)
      ensures !old(txRingFull) && AllAvailable(available, builds) ==>
                |log.delivered| == |old(log.delivered)| + budget + 1 ||
                |log.delivered| - |old(log.delivered)| >= |old(log.filled)| - |old(log.fates)|
    {
      hide Run, Happen, Machine, Consumed, LastFailed, AllAvailable;
      lastTest := 0;
      ghost var l := log;
      StartNow();
      if !txRingFull {
        var reschedule: bool;
        reschedule, lastTest := EthRecv(budget, available, builds);
        ghost var k := log;
        if AllAvailable(available, builds) { GivenOn(available, builds, l, k, budget, reschedule); }
        Hardware();
        ConsumedStill(available, builds, l, k, log);
        FinishNow(reschedule);
      }
      NothingForgotten();
    }

    /** The tasklet begins: no longer scheduled, unless the transmit ring is full. */
    method StartNow()
      requires Valid() && scheduled && tasklet.Off?
      modifies `scheduled, `tasklet, `trace
      ensures Valid() && phase.Idle? && trace == old(trace) + [Start]
      ensures scheduled == txRingFull && tasklet == if txRingFull then Off else Looping
    {
      RunIsSafe(n, trace);
      ghost var i := IrqNow();
      hide Run, Inv;
      scheduled := txRingFull;
      Record(i, tasklet, Start);
    }

    /** The tasklet ends: it schedules itself, or unmasks the interrupt. */
    method FinishNow(reschedule: bool)
      requires Valid() && if reschedule then tasklet.Told? else tasklet.Drained?
      modifies `scheduled, `interrupts, `tasklet, `trace
      ensures Valid() && phase.Idle? && trace == old(trace) + [Finish] && tasklet == Off
      ensures scheduled == (old(scheduled) || reschedule) && interrupts == (old(interrupts) || !reschedule)
      ensures !reschedule ==> |log.fates| == old(tasklet).upTo
    {
      RunIsSafe(n, trace);
      ghost var i := IrqNow();
      hide Run, Inv;
      if reschedule { scheduled := true; } else { interrupts := true; }
      Record(i, tasklet, Finish);
    }

    /** At every moment the frames handed over are the completed ones with fate Passed, in the order of the ring. */
    lemma HandsOverInOrder()
      requires Valid()
      ensures |log.fates| <= |log.filled| && (HandingOver(phase) ==> |log.fates| < |log.filled|)
      ensures log.delivered ==
              PassedOf(log.filled, log.fates) + (if HandingOver(phase) then [log.filled[|log.fates|]] else [])
    {
      hide Run, PassedOf;
      OrderOfRun(n, trace);
    }

    lemma NothingForgotten()
      requires Valid() && tasklet.Off?
      ensures |log.fates| < |log.filled| && !scheduled ==> interrupts && (status || pendingRecv)
    {
      hide Run;
      NoFrameForgotten(n, trace);
    }

    /** ei_interrupt; `full` is tx_ring_full after its housekeeping. What it acknowledges it acts on: it masks the
        receive interrupt and schedules the tasklet, or remembers to. */
    method EiInterrupt(full: bool)
      requires Valid()
      modifies `status, `interrupts, `scheduled, `pendingRecv, `txRingFull, `tasklet, `trace
      ensures Valid() && trace == old(trace) + [Interrupt(full)] && tasklet == old(tasklet) && !status
      ensures txRingFull == full
      ensures if old(status || pendingRecv) && !full then scheduled && !interrupts && !pendingRecv
              else scheduled == old(scheduled) && interrupts == old(interrupts) &&
                   pendingRecv == old(pendingRecv || status)
    {
      hide Run, Machine, Possible, Happen, Valid;
      Shapes();
      ghost var i := IrqNow();
      InterruptIs(System(Machine(), i, tasklet), full);
      var recv := status;
      txRingFull := full;
      status := false;
      if (recv || pendingRecv) && !txRingFull {
        interrupts, pendingRecv, scheduled := false, false, true;
      } else if recv && txRingFull {
        pendingRecv := true;
      }
      Record(i, tasklet, Interrupt(full));
    }
  }

  lemma InterruptIs(y: System, full: bool)
    ensures Possible(y, Interrupt(full)) && Happen(y, Interrupt(full)) == y.(irq := Handled(y.irq, full))
  {
  }

  lemma NoneFailed(available: nat -> bool, builds: nat -> bool)
    ensures !LastFailed(available, builds, 0)
  {
  }

  /** A finite set leaves a number out. */
  lemma SomeUnused(used: set<nat>)
    ensures exists b: nat :: b !in used
  {
    var top := Above(used);
    assert top !in used;
  }

  /** A number above all in a set. */
  lemma {:induction false} Above(used: set<nat>) returns (top: nat)
    ensures forall b: nat :: b in used ==> b < top
  {
    if used == {} {
      top := 0;
    } else {
      var b: nat :| b in used;
      var rest := Above(used - {b});
      top := if b < rest then rest else b + 1;
      forall x: nat | x in used ensures x < top {
        if x != b { assert x in used - {b}; }
      }
    }
  }

  lemma CpuFillsNothing(s: State, a: Action)
    requires Enabled(s, a) && a.Cpu?
    ensures |Next(s, a).log.filled| == |s.log.filled|
  {
  }
}
