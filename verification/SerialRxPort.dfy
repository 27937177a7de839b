/** The receive functions of config/mtk2/kernel/generic.c in their own form, with other threads running
    between any two critical sections. Every method is a run of the machine of module SerialRead. */
module SerialRxPort {
  import opened SerialRead

  class RxPort {
    const n: nat                  // ARRAY_SIZE(port->read_urbs)
    var free: seq<bool>           // port->read_urbs_free
    var throttled: bool
    var throttleReq: bool
    var urbs: seq<UrbState>       // port->read_urbs
    ghost var pcs: map<nat, Pc>
    ghost var log: Log
    ghost var trace: seq<Action>

    ghost function Machine(): State
      reads this
    {
      State(Port(free, throttled, throttleReq, urbs), pcs, log)
    }

    ghost predicate Valid()
      reads this
    {
      After(n, trace) == At(Machine())
    }

    constructor (n: nat)
      ensures Valid() && this.n == n && Machine() == Init(n)
    {
      this.n := n;
      free, urbs := seq(n, i => true), seq(n, i => Idle);
      throttled, throttleReq := false, false;
      pcs, log, trace := map[], Init(n).log, [];
    }

    /** Any number of steps of any other threads; thread t does not move. */
    method OtherThreads(ghost t: nat)
      requires Valid() && t in pcs
      modifies this
      ensures Valid() && t in pcs && pcs[t] == old(pcs[t]) && old(trace) <= trace
    {
    }

    /** The fields have just been changed the way action `a` changes them: record the action. */
    ghost method Commit(s: State, a: Action)
      requires After(n, trace) == At(s) && Enabled(s, a)
      requires Port(free, throttled, throttleReq, urbs) == Next(s, a).port
      modifies `pcs, `log, `trace
      ensures Valid() && Machine() == Next(s, a) && trace == old(trace) + [a]
    {
      Extend(n, trace, a);
      pcs, log, trace := Next(s, a).pcs, Next(s, a).log, trace + [a];
    }

    /** The thread has an action of its own to run next. */
    lemma Ready(t: nat, accept: bool)
      requires Valid() && t in pcs && !pcs[t].Kill?
      ensures Enabled(Machine(), Step(t, accept))
    {
      RunKeeps(n, trace);
    }

    /** test_and_clear_bit on the free bit of URB i; `inLoop` says which function asks. */
    method TakeUrb(ghost t: nat, i: nat, inLoop: bool) returns (taken: bool)
      requires Valid() && t in pcs && pcs[t] == (if inLoop then Loop(i) else Single(i)) && i < n
      modifies this
      ensures Valid() && trace == old(trace) + [Step(t, true)]
      ensures i < |old(free)| && taken == old(free)[i] && free == old(free)[i := false]
      ensures taken ==> t in pcs && pcs[t] == SerialRead.Submit(i, inLoop)
      ensures !taken && inLoop ==> t in pcs && pcs[t] == Loop(i + 1)
      ensures !taken && !inLoop ==> t !in pcs
    {
      Ready(t, true);
      RunKeeps(n, trace);
      ghost var s := Machine();
      taken := free[i];
      free := free[i := false];
      Commit(s, Step(t, true));
    }

    /** usb_submit_urb: the URB was idle. */
    method SubmitUrb(ghost t: nat, i: nat, ghost inLoop: bool, ok: bool)
      requires Valid() && t in pcs && pcs[t] == SerialRead.Submit(i, inLoop)
      modifies this
      ensures Valid() && trace == old(trace) + [Step(t, ok)]
      ensures i < |old(urbs)| && old(urbs)[i] == Idle && urbs == if ok then old(urbs)[i := InFlight] else old(urbs)
      ensures ok && inLoop ==> t in pcs && pcs[t] == Loop(i + 1)
      ensures ok && !inLoop ==> t !in pcs
      ensures !ok ==> t in pcs && pcs[t] == PutBack(i, inLoop)
    {
      Ready(t, ok);
      RunKeeps(n, trace);
      ghost var s := Machine();
      if ok { urbs := urbs[i := InFlight]; }
      Commit(s, Step(t, ok));
    }

    method PutBackUrb(ghost t: nat, i: nat, ghost inLoop: bool)
      requires Valid() && t in pcs && pcs[t] == PutBack(i, inLoop)
      modifies this
      ensures Valid() && trace == old(trace) + [Step(t, true)] && i < |old(free)| && free == old(free)[i := true]
      ensures if inLoop then t in pcs && pcs[t] == Kill(i) else t !in pcs
    {
      Ready(t, true);
      ghost var s := Machine();
      free := free[i := true];
      Commit(s, Step(t, true));
    }

    /** usb_serial_generic_submit_read_urb. `verdict` is what usb_submit_urb would say. */
    method SubmitReadUrb(ghost t: nat, i: nat, inLoop: bool, verdict: int) returns (res: int)
      requires Valid() && i < n && t in pcs && pcs[t] == (if inLoop then Loop(i) else Single(i))
      modifies this
      ensures Valid() && old(trace) <= trace && (res == 0 || res == verdict)
      ensures res == 0 && inLoop ==> t in pcs && pcs[t] == Loop(i + 1)
      ensures res != 0 && inLoop ==> t in pcs && pcs[t] == Kill(i)
      ensures !inLoop ==> t !in pcs
    {
      hide After, Inv;
      var taken := TakeUrb(t, i, inLoop);
      if !taken { return 0; }
      OtherThreads(t);
      SubmitUrb(t, i, inLoop, verdict == 0);
      if verdict != 0 {
        OtherThreads(t);
        PutBackUrb(t, i, inLoop);
      }
      return verdict;
    }

    /** usb_kill_urb waits until the URB is idle; `done` is false if that has not happened yet. */
    method KillUrb(ghost t: nat, i: nat) returns (done: bool)
      requires Valid() && t in pcs && pcs[t] == Kill(i) && i < n
      modifies this
      ensures Valid() && old(trace) <= trace
      ensures !done ==> t in pcs && pcs[t] == Kill(i) && i < |urbs| && urbs[i] != Idle
      ensures done ==> if i == 0 then t !in pcs else t in pcs && pcs[t] == Kill(i - 1)
    {
      hide After;
      OtherThreads(t);
      RunKeeps(n, trace);
      ghost var s := Machine();
      done := urbs[i] == Idle;
      if done { Commit(s, Step(t, true)); }
    }

    /** Thread t is on the error path of the submission loop, at an URB that is not idle. */
    ghost predicate WaitsToKill(t: nat)
      reads `pcs, `urbs
    {
      t in pcs && pcs[t].Kill? && pcs[t].urb < |urbs| && urbs[pcs[t].urb] != Idle
    }

    /** No open and no unthrottle came after the one at place k of the trace, so if the throttle request is set, a
        throttle did. */
    lemma RequestIsNew(k: nat)
      requires Valid() && k < |trace| && (trace[k].Open? || trace[k].Unthrottle?)
      ensures throttleReq ==> exists j: nat :: k < j < |trace| && trace[j] == SerialRead.Throttle
    {
      hide After;
      RequestedIff(n, trace);
    }

    /** usb_serial_generic_submit_read_urbs. A refusal kills the URBs submitted so far and is passed on;
        `finished` is false only while that still waits. */
    method SubmitReadUrbs(ghost t: nat, verdict: nat -> int) returns (res: int, finished: bool)
      requires Valid() && t in pcs && pcs[t] == Loop(0)
      modifies this
      ensures Valid() && old(trace) <= trace
      ensures finished ==> t !in pcs
      ensures !finished ==> WaitsToKill(t)
      ensures res == 0 ==> finished
      ensures res != 0 ==> exists i: nat :: i < n && verdict(i) == res
    {
      hide After, Inv;
      var i := 0;
      while i < n
        invariant i <= n && Valid() && old(trace) <= trace && t in pcs && pcs[t] == Loop(i)
      {
        OtherThreads(t);
        res := SubmitReadUrb(t, i, true, verdict(i));
        if res != 0 {
          var k := i;
          while true
            invariant k < n && Valid() && old(trace) <= trace && t in pcs && pcs[t] == Kill(k)
            decreases k
          {
            var done := KillUrb(t, k);
            if !done { return res, false; }
            if k == 0 { return res, true; }
            k := k - 1;
          }
        }
        i := i + 1;
      }
      LeaveLoop(t);
      return 0, true;
    }

    method LeaveLoop(ghost t: nat)
      requires Valid() && t in pcs && pcs[t] == Loop(n)
      modifies this
      ensures Valid() && trace == old(trace) + [Step(t, true)] && t !in pcs
    {
      RunKeeps(n, trace);
      Commit(Machine(), Step(t, true));
    }

    /** The critical section of open. */
    method ClearFlags(ghost t: nat)
      requires Valid() && t !in pcs
      modifies this
      ensures Valid() && trace == old(trace) + [SerialRead.Open(t)] && t in pcs && pcs[t] == Loop(0)
      ensures !throttled && !throttleReq && free == old(free) && urbs == old(urbs)
    {
      hide After;
      RunKeeps(n, trace);
      ghost var s := Machine();
      throttled, throttleReq := false, false;
      Commit(s, SerialRead.Open(t));
    }

    /** usb_serial_generic_open: both flags are cleared, so that afterwards the throttle request is set only if a
        throttle came since; then the read URBs are submitted. */
    method Open(ghost t: nat, verdict: nat -> int) returns (res: int, finished: bool)
      requires Valid() && t !in pcs
      modifies this
      ensures Valid() && old(trace) + [SerialRead.Open(t)] <= trace
      ensures if finished then t !in pcs else WaitsToKill(t)
      ensures if res == 0 then finished else exists i: nat :: i < n && verdict(i) == res
      ensures throttleReq ==> exists j: nat :: |old(trace)| < j < |trace| && trace[j] == SerialRead.Throttle
    {
      hide After;
      ClearFlags(t);
      res, finished := SubmitReadUrbs(t, verdict);
      RequestIsNew(|old(trace)|);
    }

    /** usb_serial_generic_throttle */
    method Throttle()
      requires Valid()
      modifies this
      ensures Valid() && trace == old(trace) + [SerialRead.Throttle] && throttleReq && throttled == old(throttled)
    {
      RunKeeps(n, trace);
      ghost var s := Machine();
      throttleReq := true;
      Commit(s, SerialRead.Throttle);
    }

    /** usb_serial_generic_unthrottle: the flags go down together, and only a port that really was throttled
        has URBs to submit again. */
    method Unthrottle(ghost t: nat, verdict: nat -> int) returns (finished: bool)
      requires Valid() && t !in pcs
      modifies this
      ensures Valid() && old(trace) + [SerialRead.Unthrottle(t)] <= trace
      ensures if finished then t !in pcs else WaitsToKill(t)
      ensures throttleReq ==> exists j: nat :: |old(trace)| < j < |trace| && trace[j] == SerialRead.Throttle
      ensures !old(throttled) ==> finished && !throttled && !throttleReq && urbs == old(urbs)
    {
      hide After;
      RunKeeps(n, trace);
      ghost var s := Machine();
      var wasThrottled := throttled;
      throttled, throttleReq := false, false;
      Commit(s, SerialRead.Unthrottle(t));
      if !wasThrottled { return true; }
      OtherThreads(t);
      var res;
      res, finished := SubmitReadUrbs(t, verdict);
      RequestIsNew(|old(trace)|);
    }

    /** usb_serial_generic_read_bulk_callback, after the hardware gave URB i back to callback thread t. */
    method ReadBulkCallback(ghost t: nat, i: nat, failed: bool, verdict: int)
      requires Valid() && t in pcs && pcs[t] == Complete(i, failed)
      modifies this
      ensures Valid() && old(trace) + [Step(t, true)] <= trace && t !in pcs
    {
      hide After, Inv;
      FinishUrb(t, i, failed);
      if failed { return; }
      OtherThreads(t);
      ProcessReadUrb(t, i);
      OtherThreads(t);
      var resubmit := CheckThrottle(t, i);
      if resubmit {
        OtherThreads(t);
        var res := SubmitReadUrb(t, i, false, verdict);
      }
    }

    method FinishUrb(ghost t: nat, i: nat, ghost failed: bool)
      requires Valid() && t in pcs && pcs[t] == Complete(i, failed)
      modifies this
      ensures Valid() && trace == old(trace) + [Step(t, true)] && i < n
      ensures i < |old(free)| && free == old(free)[i := true] && i < |old(urbs)| && urbs == old(urbs)[i := Idle]
      ensures if failed then t !in pcs else t in pcs && pcs[t] == Reading(i)
    {
      Ready(t, true);
      RunKeeps(n, trace);
      ghost var s := Machine();
      free := free[i := true];
      urbs := urbs[i := Idle];
      Commit(s, Step(t, true));
    }

    /** process_read_urb: the data go to the tty, whoever may have submitted the URB again by now. */
    method ProcessReadUrb(ghost t: nat, ghost i: nat)
      requires Valid() && t in pcs && pcs[t] == Reading(i)
      modifies this
      ensures Valid() && trace == old(trace) + [Step(t, true)] && t in pcs && pcs[t] == Process(i)
      ensures Port(free, throttled, throttleReq, urbs) == old(Port(free, throttled, throttleReq, urbs))
    {
      Ready(t, true);
      Commit(Machine(), Step(t, true));
    }

    /** The critical section of the callback: pick the throttle request up. */
    method CheckThrottle(ghost t: nat, ghost i: nat) returns (resubmit: bool)
      requires Valid() && t in pcs && pcs[t] == Process(i)
      modifies this
      ensures Valid() && trace == old(trace) + [Step(t, true)] && i < n
      ensures throttled == old(throttleReq) == throttleReq && resubmit == !throttled
      ensures if resubmit then t in pcs && pcs[t] == Single(i) else t !in pcs
    {
      Ready(t, true);
      RunKeeps(n, trace);
      ghost var s := Machine();
      throttled := throttleReq;
      resubmit := !throttled;
      Commit(s, Step(t, true));
    }
  }
}
