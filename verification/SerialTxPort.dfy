/** The transmit functions of config/mtk2/kernel/generic.c in their own form: a port whose fields the writer,
    the URB loop and the completion callback change in place. Between two critical sections any other thread
    may run (`OtherThreads`). Every method is shown to be a run of the machine of module SerialWrite, so what
    is proved there about all runs holds of these methods under every interleaving. */
module SerialTxPort {
  import opened SerialWrite

  const ENODEV: int := 19

  class TxPort {
    const cfg: Config
    var busy: bool                // USB_SERIAL_WRITE_BUSY in port->flags
    var fifo: seq<byte>           // port->write_fifo
    var free: seq<bool>           // port->write_urbs_free
    var txBytes: int              // port->tx_bytes
    var urbs: seq<Urb>            // port->write_urbs
    ghost var pcs: map<nat, Pc>
    ghost var log: Log
    ghost var trace: seq<Action>  // everything that happened so far

    ghost function Machine(): State
      reads this
    {
      State(Port(busy, fifo, free, txBytes, urbs), pcs, log)
    }

    ghost predicate Valid()
      reads this
    {
      After(cfg, trace) == At(Machine())
    }

    constructor (cfg: Config)
      ensures Valid() && this.cfg == cfg && Machine() == Init(cfg)
    {
      this.cfg := cfg;
      busy, fifo, txBytes := false, [], 0;
      free := seq(cfg.urbCount, i => true);
      urbs := seq(cfg.urbCount, i => Urb([], Idle));
      pcs, log, trace := map[], Init(cfg).log, [];
    }

    /** Any number of steps of any other threads; thread t does not move. */
    method OtherThreads(ghost t: nat)
      requires Valid() && t in pcs
      modifies this
      ensures Valid() && t in pcs && pcs[t] == old(pcs[t]) && old(trace) <= trace
    {
    }

    /** The fields have just been changed the way action `a` changes them: record the action. */
    ghost method Commit(s: State, a: Action)
      requires After(cfg, trace) == At(s) && Enabled(cfg, s, a)
      requires Port(busy, fifo, free, txBytes, urbs) == Next(cfg, s, a).port
      modifies `pcs, `log, `trace
      ensures Valid() && Machine() == Next(cfg, s, a) && trace == old(trace) + [a]
    {
      Extend(cfg, trace, a);
      pcs, log, trace := Next(cfg, s, a).pcs, Next(cfg, s, a).log, trace + [a];
    }

    /** What was on the wire stays there, and so do the accepted bytes. */
    twostate lemma NothingUndone()
      requires old(Valid()) && Valid() && old(trace) <= trace
      ensures old(log.wire) <= log.wire && old(log.accepted) <= log.accepted
    {
      hide After;
      WireGrows(cfg, old(trace), trace);
      AcceptedGrows(cfg, old(trace), trace);
    }

    /** usb_serial_generic_write_start. `verdict(k)` is what usb_submit_urb says to the k-th URB of this call
        (0 or an errno); `passes` bounds how often the retry loop is followed here. The result is what it said to
        the last URB submitted, and it took all the ones before.
        The call returns 0 only if somebody else holds WRITE_BUSY or, in the very critical section that
        cleared it, there was nothing to send or nothing to send it with. */
    method WriteStart(ghost t: nat, passes: nat, verdict: nat -> int)
      returns (result: int, finished: bool, ghost submitted: nat)
      requires Valid() && t in pcs && pcs[t] == TestBusy
      modifies this
      ensures Valid() && old(trace) <= trace
      ensures finished ==> t !in pcs
      ensures !finished ==> t in pcs && pcs[t] == Check && result == 0 && submitted == passes
      ensures finished && result == 0 ==> busy || fifo == [] || !AnyFree(free)
      ensures submitted <= passes && (forall k: nat :: k + 1 < submitted ==> verdict(k) == 0)
      ensures result == if submitted == 0 then 0 else verdict(submitted - 1)
      ensures result != 0 ==> finished && log.refusedLast
      ensures |log.wire| >= |old(log.wire)| + if result == 0 then submitted else submitted - 1
    {
      hide *;
      var taken := TakeBusy(t);
      NothingUndone();
      if !taken { return 0, true, 0; }
      for pass := 0 to passes
        invariant Valid() && old(trace) <= trace && t in pcs && pcs[t] == Check
        invariant forall k: nat :: k < pass ==> verdict(k) == 0
        invariant |log.wire| >= |old(log.wire)| + pass
      {
        result := verdict(pass);
        var found := OnePass(t, result == 0);
        if !found { return 0, true, pass; }
        if result != 0 { return result, true, pass + 1; }
      }
      return 0, false, passes;
    }

    /** One pass of the retry loop, which ends the loop if there is nothing to send or no URB, or on a refusal. */
    method OnePass(ghost t: nat, ok: bool) returns (found: bool)
      requires Valid() && t in pcs && pcs[t] == Check
      modifies this
      ensures Valid() && old(trace) <= trace
      ensures !found ==> t !in pcs && (fifo == [] || !AnyFree(free))
      ensures found && ok ==> t in pcs && pcs[t] == Check
      ensures found && !ok ==> t !in pcs && log.refusedLast
      ensures |log.wire| >= |old(log.wire)| + if found && ok then 1 else 0
    {
      hide *;
      OtherThreads(t);
      var i;
      i, found := PickUrb(t);
      NothingUndone();
      if found { SendUrb(t, i, ok); }
    }

    /** One pass of the retry loop with URB i chosen: fill it, count it, claim it, submit it. */
    method SendUrb(ghost t: nat, i: nat, ok: bool)
      requires Valid() && t in pcs && pcs[t] == Fill(i)
      modifies this
      ensures Valid() && old(trace) <= trace
      ensures ok ==> t in pcs && pcs[t] == Check
      ensures !ok ==> t !in pcs && !busy && log.refusedLast
      ensures |log.wire| >= |old(log.wire)| + if ok then 1 else 0
    {
      hide *;
      OtherThreads(t);
      var count := PrepareWriteBuffer(t, i);
      OtherThreads(t);
      AddTxBytes(t, i, count);
      OtherThreads(t);
      ClaimUrb(t, i, count);
      OtherThreads(t);
      NothingUndone();
      SubmitUrb(t, i, count, ok);
      if !ok {
        BackOff(t, i, count);
        NothingUndone();
      }
    }

    /** The error path: free bit, byte counter, and WRITE_BUSY outside the lock. */
    method BackOff(ghost t: nat, i: nat, count: nat)
      requires Valid() && t in pcs && pcs[t] == GiveUp(i, count)
      modifies this
      ensures Valid() && old(trace) <= trace && t !in pcs && !busy && log.refusedLast
    {
      hide *;
      OtherThreads(t);
      UnclaimUrb(t, i, count);
      OtherThreads(t);
      SubTxBytes(t, i, count);
      OtherThreads(t);
      ReleaseBusy(t, i);
    }

    /** test_and_set_bit_lock(USB_SERIAL_WRITE_BUSY) */
    method TakeBusy(ghost t: nat) returns (taken: bool)
      requires Valid() && t in pcs && pcs[t] == TestBusy
      modifies this
      ensures Valid() && trace == old(trace) + [Step(t, true)] && taken == !old(busy) && busy
      ensures if taken then t in pcs && pcs[t] == Check else t !in pcs
    {
      ghost var s := Machine();
      taken := !busy;
      busy := true;
      Commit(s, Step(t, true));
    }

    /** The critical section at the top of the retry loop: either the lowest free URB, or WRITE_BUSY is
        cleared because there is none or nothing to send. */
    method PickUrb(ghost t: nat) returns (i: nat, found: bool)
      requires Valid() && t in pcs && pcs[t] == Check
      modifies this
      ensures Valid() && trace == old(trace) + [Step(t, true)]
      ensures fifo == old(fifo) && free == old(free) && found == (AnyFree(free) && fifo != [])
      ensures found ==> i < |free| && free[i] && (forall j :: 0 <= j < i ==> !free[j]) && t in pcs && pcs[t] == Fill(i)
      ensures !found ==> !busy && t !in pcs
    {
      ghost var s := Machine();
      if !AnyFree(free) || fifo == [] {
        busy := false;
        Commit(s, Step(t, true));
        return 0, false;
      }
      i, found := FirstFree(free), true;
      Commit(s, Step(t, true));
    }

    /** prepare_write_buffer and the assignment of transfer_buffer_length */
    method PrepareWriteBuffer(ghost t: nat, i: nat) returns (count: nat)
      requires Valid() && t in pcs && pcs[t] == Fill(i)
      modifies this
      ensures Valid() && trace == old(trace) + [Step(t, true)]
      ensures count == (if |old(fifo)| <= cfg.bulkSize then |old(fifo)| else cfg.bulkSize) && fifo == old(fifo)[count..]
      ensures i < |urbs| == |old(urbs)| && urbs == old(urbs)[i := urbs[i]] && urbs[i].buf == old(fifo)[..count]
      ensures t in pcs && pcs[t] == Count(i, count)
    {
      hide After;
      RunKeeps(cfg, trace);
      ghost var s := Machine();
      assert StepDefined(s, s.pcs[t]) by { StepKeeps(cfg, s, t, true); }
      count := Min(cfg.bulkSize, |fifo|);
      urbs := urbs[i := urbs[i].(buf := fifo[..count])];
      fifo := fifo[count..];
      Commit(s, Step(t, true));
    }

    method AddTxBytes(ghost t: nat, ghost i: nat, count: nat)
      requires Valid() && t in pcs && pcs[t] == Count(i, count)
      modifies this
      ensures Valid() && trace == old(trace) + [Step(t, true)] && txBytes == old(txBytes) + count
      ensures t in pcs && pcs[t] == Claim(i, count)
    {
      ghost var s := Machine();
      txBytes := txBytes + count;
      Commit(s, Step(t, true));
    }

    method ClaimUrb(ghost t: nat, i: nat, ghost count: nat)
      requires Valid() && t in pcs && pcs[t] == Claim(i, count)
      modifies this
      ensures Valid() && trace == old(trace) + [Step(t, true)]
      ensures i < |free| && free == old(free)[i := false] && t in pcs && pcs[t] == Submit(i, count)
    {
      RunKeeps(cfg, trace);
      ghost var s := Machine();
      free := free[i := false];
      Commit(s, Step(t, true));
    }

    /** usb_submit_urb: the URB was idle, and is in flight afterwards if the USB core took it. */
    method SubmitUrb(ghost t: nat, i: nat, ghost count: nat, ok: bool)
      requires Valid() && t in pcs && pcs[t] == Submit(i, count)
      modifies this
      ensures Valid() && trace == old(trace) + [Step(t, ok)]
      ensures i < |urbs| == |old(urbs)| && old(urbs)[i].st == Idle
      ensures urbs == if ok then old(urbs)[i := old(urbs)[i].(st := InFlight)] else old(urbs)
      ensures log.wire == old(log.wire) + if ok then [urbs[i].buf] else []
      ensures t in pcs && pcs[t] == if ok then Check else GiveUp(i, count)
    {
      hide After, Bytes, SentOf, Concat, Outstanding, Accounting, Wakeup;
      RunKeeps(cfg, trace);
      ghost var s := Machine();
      if ok { urbs := urbs[i := urbs[i].(st := InFlight)]; }
      Commit(s, Step(t, ok));
    }

    method UnclaimUrb(ghost t: nat, i: nat, ghost count: nat)
      requires Valid() && t in pcs && pcs[t] == GiveUp(i, count)
      modifies this
      ensures Valid() && trace == old(trace) + [Step(t, true)]
      ensures i < |free| && free == old(free)[i := true] && t in pcs && pcs[t] == Uncount(i, count)
    {
      hide After, Mutex, Urbs, Callbacks, History, Accounting, Wakeup;
      RunKeeps(cfg, trace);
      ghost var s := Machine();
      assert StepDefined(s, s.pcs[t]) by { StepKeeps(cfg, s, t, true); }
      free := free[i := true];
      Commit(s, Step(t, true));
    }

    method SubTxBytes(ghost t: nat, ghost i: nat, count: nat)
      requires Valid() && t in pcs && pcs[t] == Uncount(i, count)
      modifies this
      ensures Valid() && trace == old(trace) + [Step(t, true)] && txBytes == old(txBytes) - count
      ensures t in pcs && pcs[t] == Release(i)
    {
      ghost var s := Machine();
      txBytes := txBytes - count;
      Commit(s, Step(t, true));
    }

    /** clear_bit_unlock after a refused submission, outside the lock */
    method ReleaseBusy(ghost t: nat, ghost i: nat)
      requires Valid() && t in pcs && pcs[t] == Release(i)
      modifies this
      ensures Valid() && trace == old(trace) + [Step(t, true)] && t !in pcs && !busy && log.refusedLast
    {
      ghost var s := Machine();
      busy := false;
      Commit(s, Step(t, true));
    }

    /** usb_serial_generic_write: the longest prefix of the data that fits goes to the back of the FIFO, and its length
        is the result unless a submission fails. */
    method Write(ghost t: nat, data: seq<byte>, passes: nat, verdict: nat -> int)
      returns (result: int, finished: bool, ghost submitted: nat)
      requires Valid() && t !in pcs
      modifies this
      ensures Valid() && old(trace) <= trace
      ensures cfg.bulkSize == 0 ==> result == -ENODEV && finished && trace == old(trace)
      ensures cfg.bulkSize > 0 && data == [] ==> result == 0 && finished && trace == old(trace)
      ensures cfg.bulkSize > 0 && data != [] ==>
                var room := cfg.fifoSize - |old(fifo)|;
                var k := if |data| <= room then |data| else room;
                && k >= 0 && old(log.accepted) + data[..k] <= log.accepted
                && |trace| > |old(trace)| && trace[|old(trace)|] == SerialWrite.Write(t, data)
                && submitted <= passes && (forall k: nat :: k + 1 < submitted ==> verdict(k) == 0)
                && if submitted == 0 || verdict(submitted - 1) == 0
                   then result == k
                   else result == verdict(submitted - 1) && finished && log.refusedLast
      ensures finished ==> t !in pcs
      ensures !finished ==> t in pcs && pcs[t] == Check && submitted == passes
      ensures cfg.bulkSize > 0 && data != [] ==>
                var taken := if submitted == 0 || verdict(submitted - 1) == 0 then submitted else submitted - 1;
                |log.wire| >= |old(log.wire)| + taken
    {
      hide After, Bytes, SentOf, Concat, Outstanding, History, Accounting, Wakeup;
      if cfg.bulkSize == 0 { return -ENODEV, true, 0; }
      if data == [] { return 0, true, 0; }
      RunKeeps(cfg, trace);
      ghost var s := Machine();
      var count := Min(|data|, cfg.fifoSize - |fifo|);
      WriteQueuesPrefix(cfg, s, SerialWrite.Write(t, data), count);
      fifo := fifo + data[..count];
      Commit(s, SerialWrite.Write(t, data));
      label Queued:
      OtherThreads(t);
      NothingUndone@Queued();
      result, finished, submitted := WriteStart(t, passes, verdict);
      NothingUndone@Queued();
      if result != 0 { return; }
      result := count;
    }

    /** usb_serial_generic_write_bulk_callback, after the hardware gave URB i back to callback thread t. */
    method WriteBulkCallback(ghost t: nat, i: nat, failed: bool, passes: nat, verdict: nat -> int)
      returns (finished: bool, ghost submitted: nat)
      requires Valid() && t in pcs && pcs[t] == Complete(i, failed)
      modifies this
      ensures Valid() && old(trace) + [Step(t, true)] <= trace
      ensures finished ==> t !in pcs
      ensures !finished ==> t in pcs && pcs[t] == Check && submitted == passes
      ensures submitted <= passes && (forall k: nat :: k + 1 < submitted ==> verdict(k) == 0)
      ensures var taken := if submitted == 0 || verdict(submitted - 1) == 0 then submitted else submitted - 1;
              |log.wire| >= |old(log.wire)| + taken
      ensures failed ==> finished && fifo == []
    {
      hide After;
      submitted := 0;
      FinishUrb(t, i, failed);
      OtherThreads(t);
      NothingUndone();
      if failed {
        ghost var s := Machine();
        fifo := [];
        Commit(s, Step(t, true));
        return true, 0;
      }
      var result;
      result, finished, submitted := WriteStart(t, passes, verdict);
    }

    /** The first critical section of the completion callback. */
    method FinishUrb(ghost t: nat, i: nat, ghost failed: bool)
      requires Valid() && t in pcs && pcs[t] == Complete(i, failed)
      modifies this
      ensures Valid() && trace == old(trace) + [Step(t, true)]
      ensures i < |urbs| == |old(urbs)| && urbs == old(urbs)[i := old(urbs)[i].(st := Idle)]
      ensures i < |free| && free == old(free)[i := true] && txBytes == old(txBytes) - |urbs[i].buf| >= 0
      ensures t in pcs && pcs[t] == if failed then Flush else TestBusy
    {
      hide After, Mutex, Urbs, History, Wakeup;
      RunKeeps(cfg, trace);
      ghost var s := Machine();
      assert StepDefined(s, s.pcs[t]) by { StepKeeps(cfg, s, t, true); }
      txBytes := txBytes - |urbs[i].buf|;
      free := free[i := true];
      urbs := urbs[i := urbs[i].(st := Idle)];
      Commit(s, Step(t, true));
      RunKeeps(cfg, trace);
    }

    /** chars_in_buffer, read under the lock */
    method CharsInBufferNow() returns (chars: int)
      requires Valid()
      ensures chars >= 0
      ensures cfg.bulkSize == 0 ==> chars == 0
      ensures cfg.bulkSize > 0 ==>
                var pc := OwnerPc(Machine());
                chars == |log.accepted| - log.completed - LostBytes(log.ledger)
                  - (if pc.Count? then pc.n else 0) + (if pc.GiveUp? || pc.Uncount? then pc.n else 0)
      ensures cfg.bulkSize > 0 && pcs == map[] ==>
                chars == |log.accepted| - log.completed - LostBytes(log.ledger)
    {
      if cfg.bulkSize == 0 { return 0; }
      RunKeeps(cfg, trace);
      CharsInBufferExact(cfg, trace);
      chars := |fifo| + txBytes;
    }
  }
}
