/** The receive half of the generic USB serial engine (config/mtk2/kernel/generic.c).

    Completion callbacks, throttle, unthrottle and open interleave over the bitmap of free read URBs and the
    two throttle flags. Every spinlock section and every atomic bit operation is one step; a thread is a
    program counter. The class `RxPort` of module SerialRxPort is the same code in the source's own form. */
module SerialRead {

  /** `Giveback(t)`: the hardware has finished with the URB; thread t is its callback and has not set the
      free bit yet. */
  datatype UrbState = Idle | InFlight | Giveback(callback: nat)

  datatype Pc =
    | Single(urb: nat)                 // submit_read_urb, about to test_and_clear the free bit
    | Loop(urb: nat)                   // the same inside submit_read_urbs
    | Submit(urb: nat, inLoop: bool)   // free bit cleared, about to hand the URB to the USB core
    | PutBack(urb: nat, inLoop: bool)  // refused, about to set the free bit again
    | Kill(urb: nat)                   // error path of submit_read_urbs, waiting for the URB to be idle
    | Complete(urb: nat, failed: bool) // completion callback, about to set the free bit
    | Reading(urb: nat)                // process_read_urb, passing the URB's data on
    | Process(urb: nat)                // data passed on, about to look at the throttle request

  datatype Port = Port(free: seq<bool>, throttled: bool, throttleReq: bool, urbs: seq<UrbState>)

  /** History the code does not keep: which thread cleared a free bit last, and the free URBs nobody is in
      charge of, because the port was never opened or because an error path dropped them. */
  datatype Log = Log(taker: seq<nat>, dropped: set<nat>)

  datatype State = State(port: Port, pcs: map<nat, Pc>, log: Log)

  datatype Action =
    | Open(t: nat)
    | Throttle
    | Unthrottle(t: nat)
    | Step(t: nat, accept: bool)            // thread t runs on; accept is the USB core's verdict
    | Done(t: nat, urb: nat, failed: bool)  // the hardware gives an URB back to a callback thread t

  // ----- the machine ----------------------------------------------------------------------------------

  function FreeFrom(free: seq<bool>, i: nat): set<nat> { set j: nat | i <= j < |free| && free[j] }

  function Init(n: nat): State {
    var free := seq(n, i => true);
    State(Port(free, false, false, seq(n, i => Idle)), map[], Log(seq(n, i => 0), FreeFrom(free, 0)))
  }

  function Goto(s: State, t: nat, pc: Pc): State { s.(pcs := s.pcs[t := pc]) }

  function Leave(s: State, t: nat): State { s.(pcs := s.pcs - {t}) }

  predicate Sized(s: State) { |s.port.free| == |s.port.urbs| == |s.log.taker| }

  predicate Enabled(s: State, a: Action) {
    Sized(s) &&
    match a
    case Open(t) => t !in s.pcs
    case Throttle => true
    case Unthrottle(t) => t !in s.pcs
    case Done(t, i, _) => t !in s.pcs && i < |s.port.urbs| && s.port.urbs[i] == InFlight
    case Step(t, _) =>
      t in s.pcs &&
      match s.pcs[t]
      case Loop(i) => true
      case Kill(i) => i < |s.port.urbs| && s.port.urbs[i] == Idle
      case pc => pc.urb < |s.port.urbs|
  }

  /** test_and_clear_bit succeeded for URB i. */
  function Take(s: State, t: nat, i: nat, inLoop: bool): State
    requires Sized(s) && i < |s.port.free|
  {
    Goto(s.(port := s.port.(free := s.port.free[i := false]),
            log := Log(s.log.taker[i := t], s.log.dropped - {i})), t, Submit(i, inLoop))
  }

  function StepThread(s: State, t: nat, accept: bool): State
    requires Enabled(s, Step(t, accept))
  {
    var p := s.port;
    match s.pcs[t]
    case Single(i) => if !p.free[i] then Leave(s, t) else Take(s, t, i, false)
    case Loop(i) =>
      if i >= |p.free| then Leave(s, t)
      else if !p.free[i] then Goto(s, t, Loop(i + 1))
      else Take(s, t, i, true)
    case Submit(i, inLoop) =>
      if !accept then Goto(s, t, PutBack(i, inLoop)) else
        var s' := s.(port := p.(urbs := p.urbs[i := InFlight]));
        if inLoop then Goto(s', t, Loop(i + 1)) else Leave(s', t)
    case PutBack(i, inLoop) =>
      var free := p.free[i := true];
      var s' := s.(port := p.(free := free),
                   log := s.log.(dropped := s.log.dropped + if inLoop then FreeFrom(free, i) else {i}));
      if inLoop then Goto(s', t, Kill(i)) else Leave(s', t)
    case Kill(i) => if i == 0 then Leave(s, t) else Goto(s, t, Kill(i - 1))
    case Complete(i, failed) =>
      var s' := s.(port := p.(free := p.free[i := true], urbs := p.urbs[i := Idle]));
      if failed then Leave(s'.(log := s.log.(dropped := s.log.dropped + {i})), t) else Goto(s', t, Reading(i))
    case Reading(i) => Goto(s, t, Process(i))
    case Process(i) =>
      var s' := s.(port := p.(throttled := p.throttleReq));
      if p.throttleReq then Leave(s', t) else Goto(s', t, Single(i))
  }

  function Next(s: State, a: Action): State
    requires Enabled(s, a)
  {
    match a
    case Open(t) => Goto(s.(port := s.port.(throttled := false, throttleReq := false)), t, Loop(0))
    case Throttle => s.(port := s.port.(throttleReq := true))
    case Unthrottle(t) =>
      var s' := s.(port := s.port.(throttled := false, throttleReq := false));
      if s.port.throttled then Goto(s', t, Loop(0)) else s'
    case Step(t, accept) => StepThread(s, t, accept)
    case Done(t, i, failed) =>
      Goto(s.(port := s.port.(urbs := s.port.urbs[i := Giveback(t)])), t, Complete(i, failed))
  }

  datatype Outcome = Stuck | At(s: State)

  function After(n: nat, acts: seq<Action>): Outcome {
    if acts == [] then At(Init(n)) else
      match After(n, acts[..|acts| - 1])
      case Stuck => Stuck
      case At(m) => if Enabled(m, acts[|acts| - 1]) then At(Next(m, acts[|acts| - 1])) else Stuck
  }

  // ----- the invariant --------------------------------------------------------------------------------

  predicate Owns(pc: Pc, i: nat) { (pc.Submit? || pc.PutBack?) && pc.urb == i }

  /** A clear free bit belongs to exactly one party: the hardware, the URB's completion callback, or the
      thread that cleared it. */
  ghost predicate Bits(p: Port, taker: seq<nat>, pcs: map<nat, Pc>) {
    forall i :: 0 <= i < |p.urbs| == |p.free| == |taker| ==>
      && (p.free[i] ==> p.urbs[i] == Idle)
      && (!p.free[i] && p.urbs[i] == Idle ==> taker[i] in pcs && Owns(pcs[taker[i]], i))
  }

  ghost predicate Threads(n: nat, p: Port, taker: seq<nat>, pcs: map<nat, Pc>) {
    && |p.urbs| == |p.free| == |taker| == n
    && forall t :: t in pcs ==>
         match pcs[t]
         case Loop(i) => i <= n
         case Submit(i, _) => i < n && !p.free[i] && p.urbs[i] == Idle && taker[i] == t
         case PutBack(i, _) => i < n && !p.free[i] && p.urbs[i] == Idle && taker[i] == t
         case Complete(i, _) => i < n && !p.free[i] && p.urbs[i] == Giveback(t)
         case pc => pc.urb < n
  }

  ghost predicate Callbacks(urbs: seq<UrbState>, pcs: map<nat, Pc>) {
    forall i {:trigger urbs[i].callback} :: 0 <= i < |urbs| && urbs[i].Giveback? ==>
      urbs[i].callback in pcs && pcs[urbs[i].callback].Complete? && pcs[urbs[i].callback].urb == i
  }

  /** This thread will come to free URB i on its own. */
  predicate Serves(pc: Pc, i: nat) {
    match pc
    case Single(j) => j == i
    case Reading(j) => j == i
    case Process(j) => j == i
    case Loop(j) => j <= i
    case Submit(j, inLoop) => inLoop && j < i
    case PutBack(j, inLoop) => inLoop && j < i
    case _ => false
  }

  ghost predicate Served(pcs: map<nat, Pc>, i: nat) {
    exists t :: t in pcs && Serves(pcs[t], i)
  }

  /** A free URB is one the throttle holds back, one an error path dropped, or one a thread will come to. */
  ghost predicate Coverage(p: Port, dropped: set<nat>, pcs: map<nat, Pc>) {
    && (p.throttled ==> p.throttleReq)
    && (forall i :: i in dropped ==> i < |p.free| && p.free[i])
    && (!p.throttled ==> forall i :: 0 <= i < |p.free| && p.free[i] && i !in dropped ==> Served(pcs, i))
  }

  ghost predicate Ownership(n: nat, s: State) {
    && Threads(n, s.port, s.log.taker, s.pcs)
    && Bits(s.port, s.log.taker, s.pcs)
    && Callbacks(s.port.urbs, s.pcs)
  }

  ghost predicate Inv(n: nat, s: State) {
    && Ownership(n, s)
    && Coverage(s.port, s.log.dropped, s.pcs)
  }

  // ----- every step keeps the invariant ----------------------------------------------------------------

  lemma InitInv(n: nat)
    ensures Inv(n, Init(n))
  {
  }

  lemma TakeKeeps(n: nat, s: State, t: nat, i: nat, inLoop: bool)
    requires Ownership(n, s) && i < n && s.port.free[i] && (t in s.pcs ==> s.pcs[t].Single? || s.pcs[t].Loop?)
    ensures Ownership(n, Take(s, t, i, inLoop))
  {
  }

  lemma SubmitKeeps(n: nat, s: State, t: nat, accept: bool)
    requires Ownership(n, s) && t in s.pcs && s.pcs[t].Submit?
    ensures Enabled(s, Step(t, accept)) && Ownership(n, StepThread(s, t, accept))
  {
    hide FreeFrom;
  }

  lemma PutBackKeeps(n: nat, s: State, t: nat)
    requires Ownership(n, s) && t in s.pcs && s.pcs[t].PutBack?
    ensures Enabled(s, Step(t, true)) && Ownership(n, StepThread(s, t, true))
  {
    hide FreeFrom;
  }

  lemma CompleteKeeps(n: nat, s: State, t: nat)
    requires Ownership(n, s) && t in s.pcs && s.pcs[t].Complete?
    ensures Enabled(s, Step(t, true)) && Ownership(n, StepThread(s, t, true))
  {
    hide FreeFrom;
  }

  /** A thread that owns no URB moves on, leaves or arrives; only the throttle flags may change. */
  lemma MoveKeeps(n: nat, s: State, s': State, t: nat)
    requires Ownership(n, s)
    requires t in s.pcs ==>
               s.pcs[t].Single? || s.pcs[t].Loop? || s.pcs[t].Kill? || s.pcs[t].Reading? || s.pcs[t].Process?
    requires s'.port.free == s.port.free && s'.port.urbs == s.port.urbs && s'.log.taker == s.log.taker
    requires s'.pcs == s.pcs - {t} ||
             exists pc: Pc :: s'.pcs == s.pcs[t := pc] && (if pc.Loop? then pc.urb <= n else pc.urb < n) &&
                              (pc.Single? || pc.Loop? || pc.Kill? || pc.Reading? || pc.Process?)
    ensures Ownership(n, s')
  {
  }

  lemma DoneKeeps(n: nat, s: State, t: nat, i: nat, failed: bool)
    requires Ownership(n, s) && Enabled(s, Done(t, i, failed))
    ensures Ownership(n, Next(s, Done(t, i, failed)))
  {
  }

  lemma OwnershipKept(n: nat, s: State, a: Action)
    requires Enabled(s, a) && Ownership(n, s)
    ensures Ownership(n, Next(s, a))
  {
    hide Bits, Callbacks, FreeFrom;
    match a
    case Open(t) => MoveKeeps(n, s, Next(s, a), t);
    case Throttle => OwnershipIgnoresFlags(n, s, Next(s, a));
    case Unthrottle(t) =>
      if s.port.throttled { MoveKeeps(n, s, Next(s, a), t); } else { OwnershipIgnoresFlags(n, s, Next(s, a)); }
    case Done(t, i, failed) => DoneKeeps(n, s, t, i, failed);
    case Step(t, accept) =>
      match s.pcs[t] {
        case Single(i) =>
          if s.port.free[i] { TakeKeeps(n, s, t, i, false); } else { MoveKeeps(n, s, Next(s, a), t); }
        case Loop(i) =>
          if i < n && s.port.free[i] { TakeKeeps(n, s, t, i, true); } else { MoveKeeps(n, s, Next(s, a), t); }
        case Submit(_, _) => SubmitKeeps(n, s, t, accept);
        case PutBack(_, _) => PutBackKeeps(n, s, t);
        case Complete(_, _) => CompleteKeeps(n, s, t);
        case _ => MoveKeeps(n, s, Next(s, a), t);
      }
  }

  lemma OwnershipIgnoresFlags(n: nat, s: State, s': State)
    requires Ownership(n, s) && s'.pcs == s.pcs && s'.log.taker == s.log.taker
    requires s'.port.free == s.port.free && s'.port.urbs == s.port.urbs
    ensures Ownership(n, s')
  {
  }

  /** URB i stays served if the thread serving it did not move, or still serves it. */
  lemma StillServed(s: State, a: Action, i: nat)
    requires Enabled(s, a) && Served(s.pcs, i)
    requires forall t, ok :: a == Step(t, ok) && Serves(s.pcs[t], i) ==>
               t in Next(s, a).pcs && Serves(Next(s, a).pcs[t], i)
    ensures Served(Next(s, a).pcs, i)
  {
    hide FreeFrom, Serves;
    var w :| w in s.pcs && Serves(s.pcs[w], i);
    assert w in Next(s, a).pcs && Serves(Next(s, a).pcs[w], i);
  }

  lemma CoverageKept(n: nat, s: State, a: Action)
    requires Enabled(s, a) && Threads(n, s.port, s.log.taker, s.pcs) && Coverage(s.port, s.log.dropped, s.pcs)
    ensures var s' := Next(s, a); Coverage(s'.port, s'.log.dropped, s'.pcs)
  {
    var s' := Next(s, a);
    var p := s'.port;
    if !p.throttled {
      forall i | 0 <= i < |p.free| && p.free[i] && i !in s'.log.dropped ensures Served(s'.pcs, i) {
        match a
        case Open(t) => assert Serves(s'.pcs[t], i);
        case Unthrottle(t) => if s.port.throttled { assert Serves(s'.pcs[t], i); } else { StillServed(s, a, i); }
        case Throttle => StillServed(s, a, i);
        case Done(_, _, _) => StillServed(s, a, i);
        case Step(t, _) => CoverageStep(n, s, a, i);
      }
    }
  }

  lemma CoverageStep(n: nat, s: State, a: Action, i: nat)
    requires Enabled(s, a) && a.Step? && Threads(n, s.port, s.log.taker, s.pcs)
    requires Coverage(s.port, s.log.dropped, s.pcs)
    requires i < n && Next(s, a).port.free[i] && i !in Next(s, a).log.dropped && !Next(s, a).port.throttled
    ensures Served(Next(s, a).pcs, i)
  {
    var s' := Next(s, a);
    var pc := s.pcs[a.t];
    if pc.urb == i && (pc.Complete? || pc.Reading? || pc.Process?) {
      assert Serves(s'.pcs[a.t], i);
    } else {
      assert s.port.free[i] && i !in s.log.dropped && !s.port.throttled;
      StillServed(s, a, i);
    }
  }

  lemma NextKeeps(n: nat, s: State, a: Action)
    requires Inv(n, s) && Enabled(s, a)
    ensures Inv(n, Next(s, a))
  {
    hide Next, Bits, Callbacks, Coverage;
    OwnershipKept(n, s, a);
    CoverageKept(n, s, a);
  }

  lemma {:induction false} RunKeeps(n: nat, acts: seq<Action>)
    requires After(n, acts).At?
    ensures Inv(n, After(n, acts).s)
  {
    hide Next, Inv, Enabled;
    if acts == [] {
      InitInv(n);
    } else {
      RunKeeps(n, acts[..|acts| - 1]);
      NextKeeps(n, After(n, acts[..|acts| - 1]).s, acts[|acts| - 1]);
    }
  }

  lemma Extend(n: nat, acts: seq<Action>, a: Action)
    requires After(n, acts).At? && Enabled(After(n, acts).s, a)
    ensures After(n, acts + [a]) == At(Next(After(n, acts).s, a))
  {
    assert (acts + [a])[..|acts|] == acts;
  }

  // ----- what holds in every run ------------------------------------------------------------------------

  /** A read URB about to be submitted is not in flight, and only one thread is about to submit it. */
  lemma NoDoubleSubmit(n: nat, acts: seq<Action>, t: nat, u: nat)
    requires After(n, acts).At? && t in After(n, acts).s.pcs && After(n, acts).s.pcs[t].Submit?
    ensures var s := After(n, acts).s;
            s.pcs[t].urb < n == |s.port.urbs| && s.port.urbs[s.pcs[t].urb] == Idle &&
            (u in s.pcs && s.pcs[u].Submit? && s.pcs[u].urb == s.pcs[t].urb ==> u == t)
  {
    RunKeeps(n, acts);
  }

  lemma ThrottledImpliesRequested(n: nat, acts: seq<Action>)
    requires After(n, acts).At?
    ensures After(n, acts).s.port.throttled ==> After(n, acts).s.port.throttleReq
  {
    RunKeeps(n, acts);
  }

  /** What a step does to the throttle flags: open and unthrottle clear both, throttle sets the request, and a
      completion callback that has passed its data on picks the request up. */
  lemma FlagsStep(s: State, a: Action)
    requires Enabled(s, a)
    ensures var p, p' := s.port, Next(s, a).port;
            if a.Open? || a.Unthrottle? then !p'.throttled && !p'.throttleReq
            else if a.Throttle? then p'.throttled == p.throttled && p'.throttleReq
            else p'.throttleReq == p.throttleReq &&
                 p'.throttled == if a.Step? && s.pcs[a.t].Process? then p.throttleReq else p.throttled
  {
    hide FreeFrom;
  }

  /** Neither open nor unthrottle from action k on. */
  predicate Undisturbed(acts: seq<Action>, k: nat) {
    forall j :: k <= j < |acts| ==> !acts[j].Open? && !acts[j].Unthrottle?
  }

  /** A throttle came after the last open and the last unthrottle. */
  predicate Requested(acts: seq<Action>) {
    exists k: nat :: k < |acts| && acts[k] == Throttle && Undisturbed(acts, k)
  }

  lemma RequestedStep(acts: seq<Action>, a: Action)
    ensures Requested(acts + [a]) <==> a == Throttle || (Requested(acts) && !a.Open? && !a.Unthrottle?)
  {
    var more := acts + [a];
    if a == Throttle { assert more[|acts|] == Throttle && Undisturbed(more, |acts|); }
    if Requested(acts) && !a.Open? && !a.Unthrottle? {
      var k: nat :| k < |acts| && acts[k] == Throttle && Undisturbed(acts, k);
      assert more[k] == Throttle && Undisturbed(more, k);
    }
    if Requested(more) && a != Throttle {
      var k: nat :| k < |more| && more[k] == Throttle && Undisturbed(more, k);
      assert more[|acts|] == a && acts[k] == Throttle;
      assert forall j :: k <= j < |acts| ==> acts[j] == more[j];
      assert Undisturbed(acts, k);
    }
  }

  /** The request flag is set exactly if a throttle came after the last open and the last unthrottle. */
  lemma {:induction false} RequestedIff(n: nat, acts: seq<Action>)
    requires After(n, acts).At?
    ensures After(n, acts).s.port.throttleReq <==> Requested(acts)
  {
    hide Next, Enabled, Requested;
    if acts == [] {
      assert !Requested([]) by { NeverRequested(); }
    } else {
      var before, last := acts[..|acts| - 1], acts[|acts| - 1];
      RequestedIff(n, before);
      FlagsStep(After(n, before).s, last);
      RequestedStep(before, last);
      assert acts == before + [last];
    }
  }

  lemma NeverRequested()
    ensures !Requested([])
  {
  }

  /** Action j of the run is a callback that picks a request up, and neither open nor unthrottle follows. */
  ghost predicate PicksUp(n: nat, acts: seq<Action>, j: nat)
    requires After(n, acts).At?
  {
    j < |acts| && acts[j].Step? && Undisturbed(acts, j) && Requested(acts[..j]) &&
    var o := After(n, acts[..j]); o.At? && acts[j].t in o.s.pcs && o.s.pcs[acts[j].t].Process?
  }

  /** The port is throttled exactly if a callback has picked up a request that still stands. */
  lemma {:induction false} ThrottledIff(n: nat, acts: seq<Action>)
    requires After(n, acts).At?
    ensures After(n, acts).s.port.throttled <==> exists j: nat :: PicksUp(n, acts, j)
  {
    hide Next, Enabled, Requested;
    if acts != [] {
      var before, last := acts[..|acts| - 1], acts[|acts| - 1];
      var s := After(n, before).s;
      ThrottledIff(n, before);
      RequestedIff(n, before);
      FlagsStep(s, last);
      StepsAThread(s, last);
      assert s.port.throttled ==> s.port.throttleReq by { ThrottledImpliesRequested(n, before); }
      forall j: nat | j < |before|
        ensures PicksUp(n, acts, j) <==> PicksUp(n, before, j) && !last.Open? && !last.Unthrottle?
      {
        assert acts[..j] == before[..j] && acts[j] == before[j] && acts[|before|] == last;
        assert Undisturbed(acts, j) <==> Undisturbed(before, j) && !last.Open? && !last.Unthrottle?;
      }
      assert PicksUp(n, acts, |before|) <==> last.Step? && s.pcs[last.t].Process? && s.port.throttleReq;
    }
  }

  lemma StepsAThread(s: State, a: Action)
    requires Enabled(s, a)
    ensures a.Step? ==> a.t in s.pcs
  {
  }

  /** A URB joins the dropped ones only if its completion or its submission, or in the loop an earlier submission,
      failed, and leaves them only when it is submitted. */
  lemma DroppedByErrors(s: State, a: Action, i: nat)
    requires Enabled(s, a) && i < |s.port.free|
    ensures i !in s.log.dropped && i in Next(s, a).log.dropped ==>
              a.Step? && (s.pcs[a.t] == Complete(i, true) || s.pcs[a.t] == PutBack(i, false) ||
                          (s.pcs[a.t].PutBack? && s.pcs[a.t].inLoop && s.pcs[a.t].urb <= i))
    ensures i in s.log.dropped && i !in Next(s, a).log.dropped ==>
              Next(s, a).pcs[a.t].Submit? && Next(s, a).pcs[a.t].urb == i
  {
  }

  /** With no thread inside and the port not throttled, the read URBs the hardware does not have are exactly
      those an error path dropped, or a port never opened: no URB is forgotten. */
  lemma IdleUrbsAreDropped(n: nat, acts: seq<Action>, i: nat)
    requires After(n, acts).At? && After(n, acts).s.pcs == map[] && !After(n, acts).s.port.throttled && i < n
    ensures var s := After(n, acts).s;
            |s.port.urbs| == n && s.port.urbs[i] == if i in s.log.dropped then Idle else InFlight
  {
    RunKeeps(n, acts);
    var s := After(n, acts).s;
    assert !Served(s.pcs, i);
    CallbackPresent(s.port.urbs, s.pcs, i);
  }

  lemma CallbackPresent(urbs: seq<UrbState>, pcs: map<nat, Pc>, i: nat)
    requires Callbacks(urbs, pcs) && i < |urbs|
    ensures urbs[i].Giveback? ==> pcs != map[]
  {
    if urbs[i].Giveback? { assert urbs[i].callback in pcs; }
  }

  predicate ErrorFree(a: Action) {
    (a.Step? ==> a.accept) && (a.Done? ==> !a.failed)
  }

  /** No thread has met an error. */
  ghost predicate NoErrors(pcs: map<nat, Pc>) {
    forall t :: t in pcs ==> !pcs[t].PutBack? && !pcs[t].Kill? && (pcs[t].Complete? ==> !pcs[t].failed)
  }

  /** The thread of the first open still has to come to every URB that is dropped. */
  ghost predicate ComesTo(pcs: map<nat, Pc>, t0: nat, dropped: set<nat>) {
    dropped != {} ==>
      t0 in pcs &&
      match pcs[t0]
      case Loop(j) => forall i :: i in dropped ==> j <= i
      case Submit(j, inLoop) => inLoop && forall i :: i in dropped ==> j < i
      case _ => false
  }

  ghost predicate Opening(s: State, t0: nat) {
    ComesTo(s.pcs, t0, s.log.dropped) && NoErrors(s.pcs)
  }

  lemma NoErrorsKept(s: State, a: Action)
    requires NoErrors(s.pcs) && Enabled(s, a) && ErrorFree(a)
    ensures NoErrors(Next(s, a).pcs)
  {
    hide FreeFrom;
  }

  lemma ComesToKept(n: nat, s: State, a: Action, t0: nat)
    requires Coverage(s.port, s.log.dropped, s.pcs) && ComesTo(s.pcs, t0, s.log.dropped) && NoErrors(s.pcs)
    requires Enabled(s, a) && ErrorFree(a)
    ensures ComesTo(Next(s, a).pcs, t0, Next(s, a).log.dropped)
  {
    hide FreeFrom, Served;
  }

  lemma OpeningKept(n: nat, s: State, a: Action, t0: nat)
    requires Inv(n, s) && Opening(s, t0) && Enabled(s, a) && ErrorFree(a)
    ensures Opening(Next(s, a), t0)
  {
    hide Ownership, Coverage, NoErrors, ComesTo, Next, Enabled;
    NoErrorsKept(s, a);
    ComesToKept(n, s, a, t0);
  }

  lemma {:induction false} RunOpens(n: nat, acts: seq<Action>, t0: nat)
    requires acts != [] && acts[0] == Open(t0) && After(n, acts).At?
    requires forall k :: 0 <= k < |acts| ==> ErrorFree(acts[k])
    ensures Opening(After(n, acts).s, t0)
  {
    if |acts| == 1 {
      assert acts[..0] == [];
    } else {
      var prefix := acts[..|acts| - 1];
      RunOpens(n, prefix, t0);
      RunKeeps(n, prefix);
      OpeningKept(n, After(n, prefix).s, acts[|acts| - 1], t0);
    }
  }

  /** In every error-free run of an opened port, whenever no thread is inside: either the port is throttled and a
      throttle came after the last open and the last unthrottle, or the hardware has every read URB. */
  lemma NoLostResume(n: nat, acts: seq<Action>)
    requires acts != [] && acts[0].Open? && After(n, acts).At? && After(n, acts).s.pcs == map[]
    requires forall k :: 0 <= k < |acts| ==> ErrorFree(acts[k])
    ensures var p := After(n, acts).s.port;
            if p.throttled then Requested(acts)
            else |p.urbs| == n && forall i :: 0 <= i < n ==> p.urbs[i] == InFlight
  {
    hide After, Requested;
    RunKeeps(n, acts);
    RequestedIff(n, acts);
    RunOpens(n, acts, acts[0].t);
    var s := After(n, acts).s;
    if !s.port.throttled {
      forall i | 0 <= i < n ensures s.port.urbs[i] == InFlight {
        IdleUrbsAreDropped(n, acts, i);
      }
    }
  }

  // ----- a buffer that is being read --------------------------------------------------------------------

  /** No URB is in flight while a callback still reads its buffer. */
  ghost predicate ReadSafe(s: State) {
    forall u :: u in s.pcs && s.pcs[u].Reading? && s.pcs[u].urb < |s.port.urbs| ==> s.port.urbs[s.pcs[u].urb] == Idle
  }

  /** The USB core accepts an URB whose buffer a callback reads. */
  ghost predicate Grabs(s: State, a: Action) {
    a.Step? && a.accept && a.t in s.pcs && s.pcs[a.t].Submit? &&
    exists u :: u in s.pcs && s.pcs[u] == Reading(s.pcs[a.t].urb)
  }

  /** The step that breaks it is exactly such a submission. */
  lemma GrabIff(n: nat, s: State, a: Action)
    requires Inv(n, s) && Enabled(s, a) && ReadSafe(s)
    ensures ReadSafe(Next(s, a)) <==> !Grabs(s, a)
  {
    hide Bits, Callbacks, Coverage, FreeFrom;
    var s' := Next(s, a);
    if Grabs(s, a) {
      var u :| u in s.pcs && s.pcs[u] == Reading(s.pcs[a.t].urb);
      assert u in s'.pcs && s'.pcs[u] == Reading(s.pcs[a.t].urb) && s'.port.urbs[s.pcs[a.t].urb] == InFlight;
    } else {
      forall u | u in s'.pcs && s'.pcs[u].Reading? && s'.pcs[u].urb < |s'.port.urbs|
        ensures s'.port.urbs[s'.pcs[u].urb] == Idle
      {
        if u in s.pcs && s.pcs[u] == s'.pcs[u] { }
      }
    }
  }

  ghost predicate AlwaysReadSafe(n: nat, acts: seq<Action>)
    requires After(n, acts).At?
  {
    ReadSafe(After(n, acts).s) && (acts != [] ==> AlwaysReadSafe(n, acts[..|acts| - 1]))
  }

  ghost predicate NeverGrabs(n: nat, acts: seq<Action>)
    requires After(n, acts).At?
  {
    acts == [] ||
    (NeverGrabs(n, acts[..|acts| - 1]) && !Grabs(After(n, acts[..|acts| - 1]).s, acts[|acts| - 1]))
  }

  /** Over a whole run no URB is in flight while its callback reads it if and only if none is ever accepted then. */
  lemma {:induction false} ReadSafeIff(n: nat, acts: seq<Action>)
    requires After(n, acts).At?
    ensures AlwaysReadSafe(n, acts) <==> NeverGrabs(n, acts)
  {
    hide Next, Inv, Enabled, Grabs, ReadSafe;
    if acts == [] {
      assert ReadSafe(Init(n)) by { NothingRead(n); }
    } else {
      var before := acts[..|acts| - 1];
      ReadSafeIff(n, before);
      RunKeeps(n, before);
      if AlwaysReadSafe(n, before) { GrabIff(n, After(n, before).s, acts[|acts| - 1]); }
    }
  }

  lemma NothingRead(n: nat)
    ensures ReadSafe(Init(n))
  {
  }

  /** The thread is at URB i, or will come to it. */
  predicate Claims(pc: Pc, i: nat) {
    Serves(pc, i) || ((pc.Submit? || pc.PutBack? || pc.Complete?) && pc.urb == i)
  }

  /** One thread at most is at an URB or will come to it, and only a completion callback does so while the URB is not
      idle. */
  ghost predicate Exclusive(n: nat, s: State) {
    && |s.port.urbs| == n
    && (forall t, u, i: nat :: t in s.pcs && u in s.pcs && t != u && i < n ==>
          !(Claims(s.pcs[t], i) && Claims(s.pcs[u], i)))
    && (forall t, i: nat :: t in s.pcs && i < n && Claims(s.pcs[t], i) && !s.pcs[t].Complete? ==>
          s.port.urbs[i] == Idle)
    && (forall t :: t in s.pcs && s.pcs[t].Complete? ==>
          s.pcs[t].urb < n && s.port.urbs[s.pcs[t].urb] == Giveback(t))
  }

  predicate NoResubmission(a: Action) { !a.Open? && !a.Unthrottle? }

  /** Only thread t moved, towards fewer URBs, which are idle; and it changed at most an URB it was at. */
  ghost predicate Shrinks(n: nat, s: State, s': State, t: nat) {
    && t in s.pcs && |s.port.urbs| == |s'.port.urbs| == n
    && (forall u :: u != t ==> (u in s'.pcs <==> u in s.pcs) && (u in s.pcs ==> s'.pcs[u] == s.pcs[u]))
    && (t in s'.pcs ==>
          !s'.pcs[t].Complete? &&
          forall i: nat :: i < n && Claims(s'.pcs[t], i) ==> Claims(s.pcs[t], i) && s'.port.urbs[i] == Idle)
    && (forall i: nat :: i < n && !Claims(s.pcs[t], i) ==> s'.port.urbs[i] == s.port.urbs[i])
  }

  lemma ShrinkKeeps(n: nat, s: State, s': State, t: nat)
    requires Exclusive(n, s) && Shrinks(n, s, s', t)
    ensures Exclusive(n, s')
  {
    hide Serves;
  }

  lemma OnlyOneMoves(s: State, a: Action)
    requires Enabled(s, a) && a.Step?
    ensures var s' := Next(s, a);
            && |s'.port.urbs| == |s.port.urbs|
            && (forall u :: u != a.t ==> (u in s'.pcs <==> u in s.pcs) && (u in s.pcs ==> s'.pcs[u] == s.pcs[u]))
  {
    hide FreeFrom;
  }

  lemma ClaimsShrink(s: State, a: Action, i: nat)
    requires Enabled(s, a) && a.Step? && i < |s.port.urbs|
    requires Claims(s.pcs[a.t], i) && !s.pcs[a.t].Complete? ==> s.port.urbs[i] == Idle
    ensures var s' := Next(s, a);
            && |s'.port.urbs| == |s.port.urbs|
            && (a.t in s'.pcs ==> !s'.pcs[a.t].Complete?)
            && (a.t in s'.pcs && Claims(s'.pcs[a.t], i) ==> Claims(s.pcs[a.t], i) && s'.port.urbs[i] == Idle)
            && (!Claims(s.pcs[a.t], i) ==> s'.port.urbs[i] == s.port.urbs[i])
  {
    hide FreeFrom;
  }

  lemma StepShrinks(n: nat, s: State, a: Action)
    requires Exclusive(n, s) && Enabled(s, a) && a.Step?
    ensures Shrinks(n, s, Next(s, a), a.t)
  {
    OnlyOneMoves(s, a);
    forall i: nat | i < n
      ensures a.t in Next(s, a).pcs && Claims(Next(s, a).pcs[a.t], i) ==>
                Claims(s.pcs[a.t], i) && Next(s, a).port.urbs[i] == Idle
      ensures !Claims(s.pcs[a.t], i) ==> Next(s, a).port.urbs[i] == s.port.urbs[i]
    {
      ClaimsShrink(s, a, i);
    }
    NeverBackToComplete(s, a);
    hide Claims, Next;
  }

  lemma NeverBackToComplete(s: State, a: Action)
    requires Enabled(s, a) && a.Step?
    ensures a.t in Next(s, a).pcs ==> !Next(s, a).pcs[a.t].Complete?
  {
    hide FreeFrom;
  }

  lemma DoneKeepsExclusive(n: nat, s: State, t: nat, i: nat, failed: bool)
    requires Exclusive(n, s) && Enabled(s, Done(t, i, failed))
    ensures Exclusive(n, Next(s, Done(t, i, failed)))
  {
    forall u | u in s.pcs ensures !Claims(s.pcs[u], i) { }
    assert forall k: nat :: Claims(Complete(i, failed), k) <==> k == i;
    hide Claims, StepThread;
  }

  lemma ExclusiveKept(n: nat, s: State, a: Action)
    requires Exclusive(n, s) && Enabled(s, a) && NoResubmission(a)
    ensures Exclusive(n, Next(s, a))
  {
    match a
    case Done(t, i, failed) => DoneKeepsExclusive(n, s, t, i, failed);
    case Step(t, _) =>
      StepShrinks(n, s, a);
      hide Claims, Next;
      ShrinkKeeps(n, s, Next(s, a), t);
    case Throttle =>
      hide Claims;
  }

  /** Every URB is idle, and no thread is at one or will come to one. */
  ghost predicate Quiet(n: nat, s: State) {
    && |s.port.urbs| == n
    && (forall i :: 0 <= i < n ==> s.port.urbs[i] == Idle)
    && (forall t :: t in s.pcs ==> !s.pcs[t].Complete? && forall i: nat :: i < n ==> !Claims(s.pcs[t], i))
  }

  lemma QuietLoop(n: nat, s: State, a: Action)
    requires Quiet(n, s) && Enabled(s, a) && !NoResubmission(a)
    ensures Exclusive(n, Next(s, a))
  {
    hide StepThread, FreeFrom;
    var s' := Next(s, a);
    assert forall u :: u in s'.pcs && u != a.t ==> u in s.pcs && s'.pcs[u] == s.pcs[u];
    assert a.t in s'.pcs ==> s'.pcs[a.t] == Loop(0);
    hide Claims, Next;
  }

  /** An open or unthrottle while the port is quiet is followed, up to the next one, by states in which no URB is in
      flight while its callback reads it, whatever completes and throttles in whatever order. */
  lemma {:induction false} QuietLoopIsReadSafe(n: nat, r: seq<Action>, acts: seq<Action>)
    requires After(n, r).At? && Quiet(n, After(n, r).s)
    requires acts != [] && !NoResubmission(acts[0]) && After(n, r + acts).At?
    requires forall k :: 0 < k < |acts| ==> NoResubmission(acts[k])
    ensures Exclusive(n, After(n, r + acts).s) && ReadSafe(After(n, r + acts).s)
    decreases |acts|
  {
    hide Next, Enabled, Quiet, Exclusive, ReadSafe, NoResubmission;
    var last := |acts| - 1;
    assert (r + acts)[..|r + acts| - 1] == r + acts[..last] && (r + acts)[|r + acts| - 1] == acts[last];
    if last == 0 {
      assert r + acts[..0] == r;
      QuietLoop(n, After(n, r).s, acts[0]);
    } else {
      QuietLoopIsReadSafe(n, r, acts[..last]);
      ExclusiveKept(n, After(n, r + acts[..last]).s, acts[last]);
    }
    ExclusiveReadSafe(n, After(n, r + acts).s);
  }

  /** With one open and no unthrottle, no URB is ever in flight while its callback reads it: it takes a second
      submission loop to submit an URB that its own callback has not finished with. */
  lemma OneLoopIsReadSafe(n: nat, acts: seq<Action>, t0: nat)
    requires acts != [] && acts[0] == Open(t0) && After(n, acts).At?
    requires forall k :: 0 < k < |acts| ==> NoResubmission(acts[k])
    ensures Exclusive(n, After(n, acts).s) && ReadSafe(After(n, acts).s)
  {
    hide After, Exclusive, ReadSafe;
    AfterNothing(n);
    assert [] + acts == acts;
    QuietLoopIsReadSafe(n, [], acts);
  }

  lemma ExclusiveReadSafe(n: nat, s: State)
    requires Exclusive(n, s)
    ensures ReadSafe(s)
  {
    forall u | u in s.pcs && s.pcs[u].Reading? && s.pcs[u].urb < |s.port.urbs|
      ensures s.port.urbs[s.pcs[u].urb] == Idle
    {
      assert Claims(s.pcs[u], s.pcs[u].urb);
    }
  }

  /** A number above all thread numbers. */
  lemma Above(threads: set<nat>) returns (b: nat)
    ensures forall t :: t in threads ==> t < b
  {
    if threads == {} {
      b := 0;
    } else {
      var t :| t in threads;
      b := Above(threads - {t});
      assert forall k :: k in threads ==> k == t || k in threads - {t};
      if b <= t { b := t + 1; }
    }
  }

  /** A submission loop that has not passed URB i can submit it under the eyes of the callback that reads it. */
  lemma {:induction false} LoopRaces(n: nat, r: seq<Action>, t: nat, u: nat, i: nat, j: nat) returns (more: seq<Action>)
    requires After(n, r).At? && Sized(After(n, r).s) && t != u && j <= i < |After(n, r).s.port.urbs|
    requires var s := After(n, r).s;
             t in s.pcs && s.pcs[t] == Reading(i) && u in s.pcs && s.pcs[u] == Loop(j) && s.port.free[i]
    ensures After(n, r + more).At? && !ReadSafe(After(n, r + more).s)
    decreases i - j
  {
    hide After, FreeFrom;
    var s, a := After(n, r).s, Step(u, true);
    Extend(n, r, a);
    if j < i && !s.port.free[j] {
      var rest := LoopRaces(n, r + [a], t, u, i, j + 1);
      more := [a] + rest;
      assert r + more == r + [a] + rest;
    } else {
      Extend(n, r + [a], a);
      if j < i {
        var rest := LoopRaces(n, r + [a] + [a], t, u, i, j + 1);
        more := [a, a] + rest;
        assert r + more == r + [a] + [a] + rest;
      } else {
        more := [a, a];
        assert r + more == r + [a] + [a];
        var s' := After(n, r + more).s;
        assert t in s'.pcs && s'.pcs[t] == Reading(i) && s'.port.urbs[i] == InFlight;
      }
    }
  }

  /** The URB completes, and its callback is about to read it. */
  lemma CompletesAndReads(n: nat, r: seq<Action>, t: nat, i: nat)
    requires After(n, r).At? && Sized(After(n, r).s) && t !in After(n, r).s.pcs
    requires i < |After(n, r).s.port.urbs| && After(n, r).s.port.urbs[i] == InFlight
    ensures var o := After(n, r + [Done(t, i, false)] + [Step(t, true)]);
            var s := After(n, r).s;
            && o.At? && Sized(o.s) && o.s.pcs == s.pcs[t := Reading(i)] && |o.s.port.urbs| == |s.port.urbs|
            && o.s.port.free == s.port.free[i := true] && o.s.port.throttled == s.port.throttled
  {
    hide After, FreeFrom;
    Extend(n, r, Done(t, i, false));
    Extend(n, r + [Done(t, i, false)], Step(t, true));
  }

  /** And from every reachable state in which the port is throttled and an URB is in flight the race can follow: the
      URB completes, and an unthrottle comes while its callback reads it. */
  lemma ThrottledRaces(n: nat, r: seq<Action>, i: nat) returns (more: seq<Action>)
    requires After(n, r).At? && After(n, r).s.port.throttled
    requires i < |After(n, r).s.port.urbs| && After(n, r).s.port.urbs[i] == InFlight
    ensures After(n, r + more).At? && !ReadSafe(After(n, r + more).s)
  {
    hide After, FreeFrom, Bits, Callbacks, Coverage, ReadSafe, StepThread;
    RunKeeps(n, r);
    var t := Above(After(n, r).s.pcs.Keys);
    var u := t + 1;
    CompletesAndReads(n, r, t, i);
    var r' := r + [Done(t, i, false)] + [Step(t, true)];
    Extend(n, r', Unthrottle(u));
    var rest := LoopRaces(n, r' + [Unthrottle(u)], t, u, i, 0);
    more := [Done(t, i, false), Step(t, true), Unthrottle(u)] + rest;
    assert r + more == r' + [Unthrottle(u)] + rest;
  }

  /** Two URBs are in flight. The first completes while a throttle is requested and is held back; the second has
      completed and is being read when the port is unthrottled, whose loop submits both. */
  lemma ReadRaceHappens()
    ensures var acts := [Open(0), Step(0, true), Step(0, true), Step(0, true), Step(0, true), Step(0, true)] +
                        [Throttle, Done(1, 0, false), Step(1, true), Step(1, true), Step(1, true)] +
                        [Done(2, 1, false), Step(2, true), Unthrottle(3)] +
                        [Step(3, true), Step(3, true), Step(3, true), Step(3, true)];
            After(2, acts).At? && !ReadSafe(After(2, acts).s)
  {
    BothInFlight();
    var r1 := [Open(0), Step(0, true), Step(0, true), Step(0, true), Step(0, true), Step(0, true)];
    FirstHeldBack(r1);
    var r2 := r1 + [Throttle, Done(1, 0, false), Step(1, true), Step(1, true), Step(1, true)];
    SecondRead(r2);
    var r3 := r2 + [Done(2, 1, false), Step(2, true), Unthrottle(3)];
    BothSubmitted(r3);
  }

  /** Running one action after a prefix. */
  lemma Then(n: nat, r: seq<Action>, acts: seq<Action>, k: nat)
    requires k < |acts| && After(n, r + acts[..k]).At? && Enabled(After(n, r + acts[..k]).s, acts[k])
    ensures After(n, r + acts[..k + 1]) == At(Next(After(n, r + acts[..k]).s, acts[k]))
  {
    hide Next, Enabled;
    Extend(n, r + acts[..k], acts[k]);
    assert r + acts[..k + 1] == r + acts[..k] + [acts[k]];
  }

  lemma FirstInFlight()
    ensures var o := After(2, [Open(0), Step(0, true), Step(0, true)]);
            o.At? && o.s.pcs == map[0 := Loop(1)] && Sized(o.s) &&
            o.s.port == Port([false, true], false, false, [InFlight, Idle])
  {
    hide FreeFrom, After;
    var acts := [Open(0), Step(0, true), Step(0, true)];
    assert After(2, [] + acts[..0]) == At(Init(2)) by { AfterNothing(2); assert [] + acts[..0] == []; }
    assert Init(2).port.free == [true, true] && Init(2).port.urbs == [Idle, Idle];
    Then(2, [], acts, 0);
    Then(2, [], acts, 1);
    Then(2, [], acts, 2);
    assert [] + acts[..3] == acts;
  }

  lemma BothInFlight()
    ensures var o := After(2, [Open(0), Step(0, true), Step(0, true), Step(0, true), Step(0, true), Step(0, true)]);
            o.At? && o.s.pcs == map[] && Sized(o.s) &&
            o.s.port == Port([false, false], false, false, [InFlight, InFlight])
  {
    hide FreeFrom, After;
    FirstInFlight();
    var r := [Open(0), Step(0, true), Step(0, true)];
    var acts := [Step(0, true), Step(0, true), Step(0, true)];
    assert r + acts[..0] == r;
    Then(2, r, acts, 0);
    Then(2, r, acts, 1);
    Then(2, r, acts, 2);
    assert r + acts[..3] == [Open(0), Step(0, true), Step(0, true), Step(0, true), Step(0, true), Step(0, true)];
  }

  lemma AfterNothing(n: nat)
    ensures After(n, []) == At(Init(n))
  {
  }

  lemma FirstHeldBack(r: seq<Action>)
    requires var o := After(2, r);
             o.At? && o.s.pcs == map[] && o.s.port == Port([false, false], false, false, [InFlight, InFlight]) &&
             Sized(o.s)
    ensures var o := After(2, r + [Throttle, Done(1, 0, false), Step(1, true), Step(1, true), Step(1, true)]);
            o.At? && o.s.pcs == map[] && o.s.port == Port([true, false], true, true, [Idle, InFlight]) && Sized(o.s)
  {
    hide FreeFrom, After;
    var acts := [Throttle, Done(1, 0, false), Step(1, true), Step(1, true), Step(1, true)];
    assert r + acts[..0] == r;
    Then(2, r, acts, 0);
    Then(2, r, acts, 1);
    Then(2, r, acts, 2);
    Then(2, r, acts, 3);
    Then(2, r, acts, 4);
    assert acts[..5] == acts;
  }

  lemma SecondRead(r: seq<Action>)
    requires var o := After(2, r);
             o.At? && o.s.pcs == map[] && o.s.port == Port([true, false], true, true, [Idle, InFlight]) && Sized(o.s)
    ensures var o := After(2, r + [Done(2, 1, false), Step(2, true), Unthrottle(3)]);
            o.At? && o.s.pcs == map[2 := Reading(1), 3 := Loop(0)] && Sized(o.s) &&
            o.s.port == Port([true, true], false, false, [Idle, Idle])
  {
    hide FreeFrom, After;
    var acts := [Done(2, 1, false), Step(2, true), Unthrottle(3)];
    assert r + acts[..0] == r;
    Then(2, r, acts, 0);
    Then(2, r, acts, 1);
    Then(2, r, acts, 2);
    assert acts[..3] == acts;
  }

  lemma BothSubmitted(r: seq<Action>)
    requires var o := After(2, r);
             o.At? && o.s.pcs == map[2 := Reading(1), 3 := Loop(0)] && Sized(o.s) &&
             o.s.port == Port([true, true], false, false, [Idle, Idle])
    ensures var o := After(2, r + [Step(3, true), Step(3, true), Step(3, true), Step(3, true)]);
            o.At? && !ReadSafe(o.s)
  {
    hide FreeFrom, After;
    var acts := [Step(3, true), Step(3, true), Step(3, true), Step(3, true)];
    assert r + acts[..0] == r;
    Then(2, r, acts, 0);
    Then(2, r, acts, 1);
    Then(2, r, acts, 2);
    Then(2, r, acts, 3);
    assert acts[..4] == acts;
    var s := After(2, r + acts).s;
    assert 2 in s.pcs && s.pcs[2] == Reading(1) && s.port.urbs[1] == InFlight;
  }
}
