/** The receive interrupt and the receive tasklet around the ring of module RxRing (config/mtk2/kernel/raether.c:
    ei_interrupt, ei_receive), without NAPI and delayed interrupts.

    Every completed frame raises the receive status. The interrupt handler reads and acknowledges the status, masks
    the receive interrupt and schedules the tasklet; the tasklet consumes frames and either schedules itself again or
    unmasks the interrupt. Frames may complete, and the handler may run, between any two of its statements. */
module RxIrq {
  import opened RxRing

  /** status: RX_DONE in the status register; enabled: its bit in the enable register. */
  datatype Irq = Irq(status: bool, enabled: bool, scheduled: bool, pendingRecv: bool, txFull: bool)

  /** Where the tasklet stands. Drained(upTo): the loop found its next slot not done when upTo frames had completed;
      Told: the loop asked to be called again. */
  datatype Tasklet = Off | Looping | Drained(upTo: nat) | Told

  datatype System = System(rx: State, irq: Irq, tasklet: Tasklet)

  datatype Event =
    | Step(a: Action)            // a step of the ring's machine
    | Interrupt(full: bool)      // ei_interrupt; full: the transmit ring is full after its housekeeping
    | TxFull(full: bool)         // the transmit path changes tx_ring_full
    | Start                      // the scheduled tasklet runs
    | Leave(drained: bool)       // the receive loop ends
    | Finish                     // the tasklet schedules itself or unmasks the interrupt

  datatype Result = Blocked | Ready(sys: System)

  // ----- the machine ----------------------------------------------------------------------------------------

  function Begin(n: nat): System
    requires n >= 2
  {
    System(Init(n), Irq(false, true, false, false, false), Off)
  }

  predicate Possible(y: System, e: Event) {
    match e
    case Step(a) => Enabled(y.rx, a) && (a.Cpu? ==> y.tasklet.Looping?)
    case Start => y.irq.scheduled && y.tasklet.Off?
    case Leave(drained) =>
      y.tasklet.Looping? && y.rx.phase.Idle? && Sized(y.rx) && (drained ==> !y.rx.ring.done[Owner(y.rx)])
    case Finish => y.tasklet.Drained? || y.tasklet.Told?
    case _ => true
  }

  /** The interrupt handler: what it acknowledges it also acts on. */
  function Handled(i: Irq, full: bool): Irq {
    var recv := i.status;
    if (recv || i.pendingRecv) && !full then Irq(false, false, true, false, full)
    else Irq(false, i.enabled, i.scheduled, i.pendingRecv || recv, full)
  }

  function Happen(y: System, e: Event): System
    requires Possible(y, e)
  {
    match e
    case Step(a) =>
      var rx := RxRing.Next(y.rx, a);
      var stored := |rx.log.filled| > |y.rx.log.filled|;
      y.(rx := rx, irq := y.irq.(status := y.irq.status || stored))
    case Interrupt(full) => y.(irq := Handled(y.irq, full))
    case TxFull(full) => y.(irq := y.irq.(txFull := full))
    case Start => if y.irq.txFull then y else y.(irq := y.irq.(scheduled := false), tasklet := Looping)
    case Leave(drained) => y.(tasklet := if drained then Drained(|y.rx.log.filled|) else Told)
    case Finish =>
      y.(irq := if y.tasklet.Told? then y.irq.(scheduled := true) else y.irq.(enabled := true), tasklet := Off)
  }

  function Run(n: nat, events: seq<Event>): Result
    requires n >= 2
  {
    if events == [] then Ready(Begin(n)) else
      match Run(n, events[..|events| - 1])
      case Blocked => Blocked
      case Ready(y) => if Possible(y, events[|events| - 1]) then Ready(Happen(y, events[|events| - 1])) else Blocked
  }

  // ----- the invariant ----------------------------------------------------------------------------------------

  /** Completed frames that nobody has consumed. */
  predicate Waiting(rx: State) { |rx.log.fates| < |rx.log.filled| }

  /** Somebody is going to look at the ring. */
  predicate Awake(i: Irq, t: Tasklet) { i.status || i.scheduled || i.pendingRecv || t.Looping? || t.Told? }

  ghost predicate Watched(y: System) {
    && (Waiting(y.rx) ==> Awake(y.irq, y.tasklet))
    && (!y.irq.enabled ==> y.irq.scheduled || !y.tasklet.Off?)
    && (!y.tasklet.Looping? ==> y.rx.phase.Idle?)
    && (y.tasklet.Drained? ==> |y.rx.log.fates| == y.tasklet.upTo)
  }

  ghost predicate Safe(n: nat, y: System) { Inv(n, y.rx) && Watched(y) }

  /** What a step of the ring's machine does to the numbers of frames. */
  lemma RingCounts(s: State, a: Action)
    requires Enabled(s, a)
    ensures var t := RxRing.Next(s, a);
            && |t.log.filled| >= |s.log.filled| && |t.log.fates| >= |s.log.fates|
            && (!a.Cpu? ==> t.log.fates == s.log.fates && t.phase == s.phase)
  {
  }

  lemma DrainedNow(n: nat, s: State)
    requires Inv(n, s) && s.phase.Idle? && Sized(s) && !s.ring.done[Owner(s)]
    ensures !Waiting(s)
  {
    hide Slot, Others, Books, PassedOf, CountFate, Private;
  }

  lemma HappenKeeps(n: nat, y: System, e: Event)
    requires Safe(n, y) && Possible(y, e)
    ensures Safe(n, Happen(y, e))
  {
    match e
    case Step(a) =>
      NextKeeps(n, y.rx, a);
      RingCounts(y.rx, a);
    case Leave(drained) =>
      if drained {
        DrainedNow(n, y.rx);
        assert |y.rx.log.fates| <= |y.rx.log.filled| by { hide Others, Current, Books; }
      }
    case _ =>
      hide Inv, RxRing.Next, Enabled;
  }

  lemma {:induction false} RunIsSafe(n: nat, events: seq<Event>)
    requires n >= 2 && Run(n, events).Ready?
    ensures Safe(n, Run(n, events).sys)
  {
    hide Happen, Possible, Inv, Watched;
    if events == [] {
      InitInv(n);
      BeginWatched(n);
    } else {
      RunIsSafe(n, events[..|events| - 1]);
      HappenKeeps(n, Run(n, events[..|events| - 1]).sys, events[|events| - 1]);
    }
  }

  lemma BeginWatched(n: nat)
    requires n >= 2
    ensures Watched(Begin(n))
  {
  }

  lemma Append(n: nat, events: seq<Event>, e: Event)
    requires n >= 2 && Run(n, events).Ready? && Possible(Run(n, events).sys, e)
    ensures Run(n, events + [e]) == Ready(Happen(Run(n, events).sys, e))
  {
    assert (events + [e])[..|events|] == events;
  }

  // ----- the ring's part of a run ---------------------------------------------------------------------------

  function RingSteps(events: seq<Event>): seq<Action> {
    if events == [] then []
    else
      var last := events[|events| - 1];
      RingSteps(events[..|events| - 1]) + if last.Step? then [last.a] else []
  }

  /** Every run contains a run of the ring's machine, so what holds of those runs holds here. */
  lemma {:induction false} RingOfRun(n: nat, events: seq<Event>)
    requires n >= 2 && Run(n, events).Ready?
    ensures After(n, RingSteps(events)) == At(Run(n, events).sys.rx)
  {
    hide RxRing.Next, Enabled;
    if events != [] {
      var before, last := events[..|events| - 1], events[|events| - 1];
      RingOfRun(n, before);
      if last.Step? {
        RxRing.Extend(n, RingSteps(before), last.a);
      } else {
        assert RingSteps(events) == RingSteps(before);
      }
    }
  }

  /** So the frames are handed over in ring order here too. */
  lemma OrderOfRun(n: nat, events: seq<Event>)
    requires n >= 2 && Run(n, events).Ready?
    ensures var s := Run(n, events).sys.rx;
            var l := s.log;
            && |l.fates| <= |l.filled| && (HandingOver(s.phase) ==> |l.fates| < |l.filled|)
            && l.delivered == PassedOf(l.filled, l.fates) + (if HandingOver(s.phase) then [l.filled[|l.fates|]] else [])
  {
    hide Run, After, PassedOf, RingSteps;
    RingOfRun(n, events);
    RingOrder(n, RingSteps(events));
  }

  // ----- what holds in every run ----------------------------------------------------------------------------

  /** No completed frame is forgotten: when the tasklet neither runs nor is scheduled and frames wait, the interrupt
      is enabled, and either its status is pending or a full transmit ring made the handler put the frames off. */
  lemma NoFrameForgotten(n: nat, events: seq<Event>)
    requires n >= 2 && Run(n, events).Ready?
    ensures var y := Run(n, events).sys;
            Waiting(y.rx) && y.tasklet.Off? && !y.irq.scheduled ==> y.irq.enabled && (y.irq.status || y.irq.pendingRecv)
  {
    hide Run;
    RunIsSafe(n, events);
  }

  /** And the next interrupt that finds room in the transmit ring schedules the tasklet. */
  lemma NextInterruptWakes(n: nat, events: seq<Event>)
    requires n >= 2 && Run(n, events).Ready? && Waiting(Run(n, events).sys.rx)
    requires var y := Run(n, events).sys; y.tasklet.Off? && !y.irq.scheduled
    ensures Happen(Run(n, events).sys, Interrupt(false)).irq.scheduled
  {
    hide Run;
    RunIsSafe(n, events);
  }

  /** When the tasklet unmasks the interrupt, the frames that wait were all completed after the last test of a done
      bit, and for them the status is pending, unless the handler has already acted on it. */
  lemma UnmaskedAfterLastTest(n: nat, events: seq<Event>)
    requires n >= 2 && Run(n, events).Ready? && Run(n, events).sys.tasklet.Drained?
    ensures var y := Run(n, events).sys;
            && |y.rx.log.fates| == y.tasklet.upTo
            && (Waiting(y.rx) ==> y.irq.status || y.irq.scheduled || y.irq.pendingRecv)
  {
    hide Run;
    RunIsSafe(n, events);
  }

  /** A completed frame that nothing will look at until some interrupt comes: the tasklet is past its last test of a
      done bit or not running, not scheduled, and the frame's own interrupt is not pending. */
  predicate Stranded(y: System) {
    Waiting(y.rx) && !y.irq.status && !y.irq.scheduled && (y.tasklet.Off? || y.tasklet.Drained?)
  }

  /** The handler meets a full transmit ring while a frame waits whose interrupt it acknowledges. */
  predicate PutsOff(y: System, e: Event) {
    e == Interrupt(true) && y.irq.status && Waiting(y.rx) && !y.irq.scheduled && (y.tasklet.Off? || y.tasklet.Drained?)
  }

  lemma StepStrandsNothing(n: nat, y: System, a: Action)
    requires Safe(n, y) && Possible(y, Step(a)) && !Stranded(y)
    ensures !Stranded(Happen(y, Step(a)))
  {
    RingCounts(y.rx, a);
    hide Inv, RxRing.Next, Enabled;
  }

  lemma LeaveStrandsNothing(n: nat, y: System, drained: bool)
    requires Safe(n, y) && Possible(y, Leave(drained))
    ensures !Stranded(Happen(y, Leave(drained)))
  {
    if drained { DrainedNow(n, y.rx); }
    hide Inv;
  }

  /** The step that strands a frame is exactly such an interrupt. */
  lemma PutsOffIff(n: nat, y: System, e: Event)
    requires Safe(n, y) && Possible(y, e) && !Stranded(y)
    ensures Stranded(Happen(y, e)) <==> PutsOff(y, e)
  {
    match e
    case Step(a) => StepStrandsNothing(n, y, a);
    case Leave(drained) => LeaveStrandsNothing(n, y, drained);
    case _ =>
      hide Inv, RxRing.Next, Enabled;
  }

  ghost predicate NeverStranded(n: nat, events: seq<Event>)
    requires n >= 2 && Run(n, events).Ready?
  {
    !Stranded(Run(n, events).sys) && (events != [] ==> NeverStranded(n, events[..|events| - 1]))
  }

  ghost predicate NeverPutsOff(n: nat, events: seq<Event>)
    requires n >= 2 && Run(n, events).Ready?
  {
    events == [] ||
    (NeverPutsOff(n, events[..|events| - 1]) && !PutsOff(Run(n, events[..|events| - 1]).sys, events[|events| - 1]))
  }

  /** Over a whole run no completed frame is ever stranded if and only if the handler never puts one off. */
  lemma {:induction false} NeverStrandedIff(n: nat, events: seq<Event>)
    requires n >= 2 && Run(n, events).Ready?
    ensures NeverStranded(n, events) <==> NeverPutsOff(n, events)
  {
    hide Happen, Possible, Safe, Stranded, PutsOff;
    if events == [] {
      assert !Stranded(Begin(n)) by { NothingStranded(n); }
    } else {
      var before := events[..|events| - 1];
      NeverStrandedIff(n, before);
      RunIsSafe(n, before);
      if NeverStranded(n, before) { PutsOffIff(n, Run(n, before).sys, events[|events| - 1]); }
    }
  }

  lemma NothingStranded(n: nat)
    requires n >= 2
    ensures !Stranded(Begin(n))
  {
  }

  /** A stranded frame waits for the next interrupt of whatever kind, and for room in the transmit ring by then. */
  lemma StrandedUntilInterrupt(n: nat, events: seq<Event>)
    requires n >= 2 && Run(n, events).Ready? && Stranded(Run(n, events).sys)
    ensures var y := Run(n, events).sys;
            && y.irq.pendingRecv && Happen(y, Interrupt(false)).irq.scheduled
            && Stranded(Happen(y, Interrupt(true)))
            && forall full :: Stranded(Happen(y, TxFull(full)))
  {
    hide Run, Inv;
    RunIsSafe(n, events);
  }

  /** It does happen: a receive interrupt while the transmit ring is full is acknowledged and only remembered, and the
      frame stays stranded when the transmit path makes room by itself. */
  lemma PutOffHappens(n: nat, f: Frame)
    requires n >= 2
    ensures var r := Run(n, [Step(Fill(f)), Interrupt(true), TxFull(false)]);
            && r.Ready? && Stranded(r.sys) && r.sys.tasklet.Off?
            && r.sys.irq == Irq(false, true, false, true, false)
  {
    var a, b, c := Step(Fill(f)), Interrupt(true), TxFull(false);
    assert [] + [a] == [a] && [a] + [b] == [a, b] && [a, b] + [c] == [a, b, c];
    Append(n, [], a);
    Append(n, [a], b);
    Append(n, [a, b], c);
  }
}
