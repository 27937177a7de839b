/** The transmit half of the generic USB serial engine (config/mtk2/kernel/generic.c).

    Writers, completion callbacks and the final flush of a close interleave over a byte FIFO, a bitmap of
    free URBs, the WRITE_BUSY bit and a byte counter. Every spinlock section and every atomic bit operation
    of the source is one step; a thread is a program counter. `Next` is the machine, `Inv` is what every
    step keeps, and the class `TxPort` of module SerialTxPort is the same code in the source's own form, with
    arbitrary interference between its critical sections. */
module SerialWrite {
  type byte = bv8

  datatype Config = Config(fifoSize: nat, bulkSize: nat, urbCount: nat)

  /** `Giveback(t)`: the hardware has finished with the URB and thread t is its completion callback,
      which has not accounted for it yet. */
  datatype UrbState = Idle | InFlight | Giveback(callback: nat)
  datatype Urb = Urb(buf: seq<byte>, st: UrbState)

  /** Where a thread stands. `Check` to `Release` are the statements executed while holding WRITE_BUSY. */
  datatype Pc =
    | TestBusy                     // about to test_and_set WRITE_BUSY
    | Check                        // about to look for a free URB and for work
    | Fill(urb: nat)               // URB chosen, FIFO not read yet
    | Count(urb: nat, n: nat)      // n bytes copied, tx_bytes not raised yet
    | Claim(urb: nat, n: nat)      // about to clear the free bit
    | Submit(urb: nat, n: nat)     // about to hand the URB to the USB core
    | GiveUp(urb: nat, n: nat)     // submission refused, free bit still clear
    | Uncount(urb: nat, n: nat)    // about to lower tx_bytes again
    | Release(urb: nat)            // about to clear WRITE_BUSY outside the lock
    | Complete(urb: nat, failed: bool)
    | Flush                        // failed completion, about to reset the FIFO

  /** What became of the bytes that left the FIFO. */
  datatype Fate = InHand | Sent | Refused | Flushed
  datatype Chunk = Chunk(bytes: seq<byte>, fate: Fate)

  datatype Port = Port(busy: bool, fifo: seq<byte>, free: seq<bool>, txBytes: int, urbs: seq<Urb>)

  /** History the code does not keep: who took WRITE_BUSY last, the bytes `write` accepted, the chunks that
      left the FIFO, the one in hand, the buffers submitted, the bytes whose completion was accounted, and
      whether WRITE_BUSY was last released by the refused-submission path. */
  datatype Log = Log(owner: nat, accepted: seq<byte>, ledger: seq<Chunk>, hand: nat, wire: seq<seq<byte>>,
                     completed: nat, refusedLast: bool)

  datatype State = State(port: Port, pcs: map<nat, Pc>, log: Log)

  datatype Action =
    | Write(t: nat, data: seq<byte>)            // a new thread calls write
    | Step(t: nat, accept: bool)                // thread t runs on; accept is the USB core's verdict
    | Done(t: nat, urb: nat, failed: bool)      // the hardware gives an URB back to a callback thread t
    | CloseFlush                                // the last critical section of close

  // ----- small functions ------------------------------------------------------------------------------

  predicate AnyFree(free: seq<bool>) {
    exists i :: 0 <= i < |free| && free[i]
  }

  /** find_first_bit */
  function FirstFree(free: seq<bool>): (i: nat)
    requires AnyFree(free)
    ensures i < |free| && free[i] && forall j :: 0 <= j < i ==> !free[j]
  {
    if free[0] then 0 else
      assert AnyFree(free[1..]) by {
        var k :| 0 <= k < |free| && free[k];
        assert free[1..][k - 1];
      }
      var r := FirstFree(free[1..]);
      assert forall j :: 0 < j < 1 + r ==> free[j] == free[1..][j - 1];
      1 + r
  }

  function Min(a: int, b: int): int { if a < b then a else b }

  function Weight(u: Urb): nat { if u.st == Idle then 0 else |u.buf| }

  /** Bytes held by URBs the hardware or a completion callback still owns. */
  function Outstanding(urbs: seq<Urb>): nat {
    if urbs == [] then 0 else Outstanding(urbs[..|urbs| - 1]) + Weight(urbs[|urbs| - 1])
  }

  function Bytes(l: seq<Chunk>): seq<byte> {
    if l == [] then [] else Bytes(l[..|l| - 1]) + l[|l| - 1].bytes
  }

  function SentOf(l: seq<Chunk>): seq<seq<byte>> {
    if l == [] then []
    else if l[|l| - 1].fate == Sent then SentOf(l[..|l| - 1]) + [l[|l| - 1].bytes]
    else SentOf(l[..|l| - 1])
  }

  /** Bytes that left the FIFO and never reached the hardware. */
  function LostBytes(l: seq<Chunk>): nat {
    if l == [] then 0
    else
      var last := l[|l| - 1];
      LostBytes(l[..|l| - 1]) + if last.fate == Refused || last.fate == Flushed then |last.bytes| else 0
  }

  function Concat(bufs: seq<seq<byte>>): seq<byte> {
    if bufs == [] then [] else Concat(bufs[..|bufs| - 1]) + bufs[|bufs| - 1]
  }

  predicate Holding(pc: Pc) {
    pc.Check? || pc.Fill? || pc.Count? || pc.Claim? || pc.Submit? || pc.GiveUp? || pc.Uncount? || pc.Release?
  }

  // ----- the machine ----------------------------------------------------------------------------------

  function Init(c: Config): State {
    State(Port(false, [], seq(c.urbCount, i => true), 0, seq(c.urbCount, i => Urb([], Idle))), map[],
          Log(0, [], [], 0, [], 0, false))
  }

  function Goto(s: State, t: nat, pc: Pc): State { s.(pcs := s.pcs[t := pc]) }

  function Leave(s: State, t: nat): State { s.(pcs := s.pcs - {t}) }

  function FlushFifo(s: State): State {
    s.(port := s.port.(fifo := []), log := s.log.(ledger := s.log.ledger + [Chunk(s.port.fifo, Flushed)]))
  }

  /** The indices a program counter carries stay inside the arrays; implied by the invariant. */
  predicate StepDefined(s: State, pc: Pc) {
    match pc
    case Fill(i) => i < |s.port.urbs|
    case Claim(i, _) => i < |s.port.free|
    case Submit(i, _) => i < |s.port.urbs| && s.log.hand < |s.log.ledger|
    case GiveUp(i, _) => i < |s.port.free|
    case Complete(i, _) => i < |s.port.urbs| && i < |s.port.free|
    case _ => true
  }

  predicate Enabled(c: Config, s: State, a: Action) {
    match a
    case Write(t, data) => t !in s.pcs && data != [] && c.bulkSize > 0 && |s.port.fifo| <= c.fifoSize
    case Step(t, _) => t in s.pcs && StepDefined(s, s.pcs[t])
    case Done(t, i, _) => t !in s.pcs && i < |s.port.urbs| && s.port.urbs[i].st == InFlight
    case CloseFlush => true
  }

  function StepThread(c: Config, s: State, t: nat, accept: bool): State
    requires t in s.pcs && StepDefined(s, s.pcs[t])
  {
    var p, l := s.port, s.log;
    match s.pcs[t]
    case TestBusy =>
      if p.busy then Leave(s, t)
      else Goto(s.(port := p.(busy := true), log := l.(owner := t)), t, Check)
    case Check =>
      if !AnyFree(p.free) || p.fifo == [] then
        Leave(s.(port := p.(busy := false), log := l.(refusedLast := false)), t)
      else Goto(s, t, Fill(FirstFree(p.free)))
    case Fill(i) =>
      var n := Min(c.bulkSize, |p.fifo|);
      var data := p.fifo[..n];
      Goto(s.(port := p.(fifo := p.fifo[n..], urbs := p.urbs[i := p.urbs[i].(buf := data)]),
              log := l.(ledger := l.ledger + [Chunk(data, InHand)], hand := |l.ledger|)), t, Count(i, n))
    case Count(i, n) => Goto(s.(port := p.(txBytes := p.txBytes + n)), t, Claim(i, n))
    case Claim(i, n) => Goto(s.(port := p.(free := p.free[i := false])), t, Submit(i, n))
    case Submit(i, n) =>
      var chunk := l.ledger[l.hand];
      if accept then
        Goto(s.(port := p.(urbs := p.urbs[i := p.urbs[i].(st := InFlight)]),
                log := l.(wire := l.wire + [p.urbs[i].buf], ledger := l.ledger[l.hand := chunk.(fate := Sent)])),
             t, Check)
      else Goto(s.(log := l.(ledger := l.ledger[l.hand := chunk.(fate := Refused)])), t, GiveUp(i, n))
    case GiveUp(i, n) => Goto(s.(port := p.(free := p.free[i := true])), t, Uncount(i, n))
    case Uncount(i, n) => Goto(s.(port := p.(txBytes := p.txBytes - n)), t, Release(i))
    case Release(_) => Leave(s.(port := p.(busy := false), log := l.(refusedLast := true)), t)
    case Complete(i, failed) =>
      var n := |p.urbs[i].buf|;
      Goto(s.(port := p.(txBytes := p.txBytes - n, free := p.free[i := true],
                         urbs := p.urbs[i := p.urbs[i].(st := Idle)]),
              log := l.(completed := l.completed + n)), t, if failed then Flush else TestBusy)
    case Flush => Leave(FlushFifo(s), t)
  }

  function Next(c: Config, s: State, a: Action): State
    requires Enabled(c, s, a)
  {
    match a
    case Write(t, data) =>
      var got := data[..Min(|data|, c.fifoSize - |s.port.fifo|)];
      Goto(s.(port := s.port.(fifo := s.port.fifo + got), log := s.log.(accepted := s.log.accepted + got)),
           t, TestBusy)
    case Step(t, accept) => StepThread(c, s, t, accept)
    case Done(t, i, failed) =>
      Goto(s.(port := s.port.(urbs := s.port.urbs[i := s.port.urbs[i].(st := Giveback(t))])),
           t, Complete(i, failed))
    case CloseFlush => FlushFifo(s)
  }

  datatype Outcome = Stuck | At(s: State)

  /** The state after a whole run; `Stuck` if some action of it was not possible. */
  function After(c: Config, acts: seq<Action>): Outcome {
    if acts == [] then At(Init(c)) else
      match After(c, acts[..|acts| - 1])
      case Stuck => Stuck
      case At(m) => if Enabled(c, m, acts[|acts| - 1]) then At(Next(c, m, acts[|acts| - 1])) else Stuck
  }

  // ----- the invariant --------------------------------------------------------------------------------

  /** WRITE_BUSY is a mutual exclusion lock and `owner` is the thread that has it. */
  ghost predicate Mutex(busy: bool, pcs: map<nat, Pc>, owner: nat) {
    && (busy ==> owner in pcs && Holding(pcs[owner]))
    && forall t :: t in pcs && Holding(pcs[t]) ==> busy && t == owner
  }

  /** What the thread with WRITE_BUSY is doing; `TestBusy` stands for nobody having it. */
  function OwnerPc(s: State): Pc {
    if s.port.busy && s.log.owner in s.pcs then s.pcs[s.log.owner] else TestBusy
  }

  /** The URB the owner of WRITE_BUSY works on is idle, and holds what was read from the FIFO. */
  ghost predicate OwnerUrb(p: Port, pc: Pc) {
    match pc
    case Fill(i) => i < |p.urbs| == |p.free| && p.free[i]
    case Count(i, n) => i < |p.urbs| == |p.free| && p.free[i] && n == |p.urbs[i].buf|
    case Claim(i, n) => i < |p.urbs| == |p.free| && p.free[i] && n == |p.urbs[i].buf|
    case Submit(i, n) => i < |p.urbs| == |p.free| && !p.free[i] && n == |p.urbs[i].buf| && p.urbs[i].st == Idle
    case GiveUp(i, _) => i < |p.urbs| == |p.free| && !p.free[i] && p.urbs[i].st == Idle
    case Uncount(i, _) => i < |p.urbs| == |p.free| && p.free[i]
    case Release(i) => i < |p.urbs| == |p.free| && p.free[i]
    case _ => true
  }

  /** A set free bit means the hardware does not have the URB; a clear one, that the hardware, a completion
      callback or the owner of WRITE_BUSY has it. */
  ghost predicate Urbs(c: Config, p: Port, pc: Pc) {
    && |p.urbs| == |p.free| == c.urbCount
    && |p.fifo| <= c.fifoSize
    && forall i :: 0 <= i < |p.urbs| ==>
         if p.free[i] then p.urbs[i].st == Idle
         else p.urbs[i].st == Idle ==> (pc.Submit? || pc.GiveUp?) && pc.urb == i
  }

  /** An URB is given back exactly when its completion callback is about to account for it. */
  ghost predicate Callbacks(urbs: seq<Urb>, pcs: map<nat, Pc>) {
    && (forall i {:trigger urbs[i].st.callback} :: 0 <= i < |urbs| && urbs[i].st.Giveback? ==>
          urbs[i].st.callback in pcs && pcs[urbs[i].st.callback].Complete? && pcs[urbs[i].st.callback].urb == i)
    && (forall t :: t in pcs && pcs[t].Complete? ==>
          pcs[t].urb < |urbs| && urbs[pcs[t].urb].st == Giveback(t))
  }

  datatype Hand = Empty | Holds(bytes: seq<byte>)

  /** The buffer taken out of the FIFO and not yet submitted. */
  function InTheHand(p: Port, pc: Pc): Hand {
    if (pc.Count? || pc.Claim? || pc.Submit?) && pc.urb < |p.urbs| then Holds(p.urbs[pc.urb].buf) else Empty
  }

  /** The bytes accepted by write are, in order, the chunks taken out of the FIFO and then the FIFO. */
  ghost predicate History(l: Log, fifo: seq<byte>, h: Hand) {
    && Bytes(l.ledger) + fifo == l.accepted
    && SentOf(l.ledger) == l.wire
    && (h.Holds? ==>
          && l.hand < |l.ledger| && l.ledger[l.hand] == Chunk(h.bytes, InHand)
          && forall k :: l.hand < k < |l.ledger| ==> l.ledger[k].fate == Flushed)
    && forall k :: 0 <= k < |l.ledger| && l.ledger[k].fate == InHand ==> h.Holds? && k == l.hand
  }

  /** Bytes the owner of WRITE_BUSY has added to tx_bytes without an URB in flight to show for them. */
  function Pending(pc: Pc): nat {
    match pc
    case Claim(_, n) => n
    case Submit(_, n) => n
    case GiveUp(_, n) => n
    case Uncount(_, n) => n
    case _ => 0
  }

  ghost predicate Accounting(p: Port, l: Log, pc: Pc) {
    && p.txBytes == Outstanding(p.urbs) + Pending(pc)
    && |Concat(l.wire)| == l.completed + Outstanding(p.urbs)
  }

  /** Some thread is still going to look at the FIFO, or to empty it. */
  ghost predicate Obliged(pcs: map<nat, Pc>) {
    exists t :: t in pcs && (pcs[t].TestBusy? || pcs[t].Flush?)
  }

  ghost predicate Wakeup(p: Port, pcs: map<nat, Pc>, refusedLast: bool) {
    !p.busy ==>
      && (refusedLast ==> AnyFree(p.free))
      && (!refusedLast && p.fifo != [] && AnyFree(p.free) ==> Obliged(pcs))
  }

  ghost predicate Inv(c: Config, s: State) {
    var pc := OwnerPc(s);
    && Mutex(s.port.busy, s.pcs, s.log.owner)
    && OwnerUrb(s.port, pc)
    && Urbs(c, s.port, pc)
    && Callbacks(s.port.urbs, s.pcs)
    && History(s.log, s.port.fifo, InTheHand(s.port, pc))
    && Accounting(s.port, s.log, pc)
    && Wakeup(s.port, s.pcs, s.log.refusedLast)
  }

  // ----- facts about the recursive functions ------------------------------------------------------------

  lemma {:induction false} OutstandingUpdate(urbs: seq<Urb>, i: nat, u: Urb)
    requires i < |urbs|
    ensures Outstanding(urbs[i := u]) == Outstanding(urbs) - Weight(urbs[i]) + Weight(u)
  {
    var last := |urbs| - 1;
    if i == last {
      assert urbs[i := u][..last] == urbs[..last];
    } else {
      assert urbs[i := u][..last] == urbs[..last][i := u];
      OutstandingUpdate(urbs[..last], i, u);
    }
  }

  lemma {:induction false} OutstandingIdle(urbs: seq<Urb>)
    requires forall i :: 0 <= i < |urbs| ==> urbs[i].st == Idle
    ensures Outstanding(urbs) == 0
  {
    if urbs != [] { OutstandingIdle(urbs[..|urbs| - 1]); }
  }

  lemma AppendChunk(l: seq<Chunk>, e: Chunk)
    ensures Bytes(l + [e]) == Bytes(l) + e.bytes
    ensures SentOf(l + [e]) == if e.fate == Sent then SentOf(l) + [e.bytes] else SentOf(l)
  {
    assert (l + [e])[..|l|] == l;
  }

  /** Changing a chunk's fate keeps the bytes; if every later chunk was flushed, marking it Sent appends
      it to the sequence of sent buffers. */
  lemma {:induction false} ChangeFate(l: seq<Chunk>, k: nat, f: Fate)
    requires k < |l| && l[k].fate != Sent
    ensures Bytes(l[k := l[k].(fate := f)]) == Bytes(l)
    ensures f != Sent ==> SentOf(l[k := l[k].(fate := f)]) == SentOf(l)
    ensures f == Sent && (forall j :: k < j < |l| ==> l[j].fate == Flushed) ==>
              SentOf(l[k := l[k].(fate := f)]) == SentOf(l) + [l[k].bytes]
  {
    var m := l[k := l[k].(fate := f)];
    var last := |l| - 1;
    if k == last {
      assert m[..last] == l[..last];
    } else {
      assert m[..last] == l[..last][k := l[k].(fate := f)];
      ChangeFate(l[..last], k, f);
    }
  }

  lemma AppendBuffer(bufs: seq<seq<byte>>, b: seq<byte>)
    ensures Concat(bufs + [b]) == Concat(bufs) + b
  {
    assert (bufs + [b])[..|bufs|] == bufs;
  }

  // ----- every step keeps the invariant ----------------------------------------------------------------

  lemma InitInv(c: Config)
    ensures Inv(c, Init(c))
  {
    OutstandingIdle(Init(c).port.urbs);
  }

  lemma ObligedElsewhere(pcs: map<nat, Pc>, pcs': map<nat, Pc>, t: nat)
    requires Obliged(pcs) && !(t in pcs && (pcs[t].TestBusy? || pcs[t].Flush?))
    requires forall u :: u in pcs && u != t ==> u in pcs' && pcs'[u] == pcs[u]
    ensures Obliged(pcs')
  {
    var w :| w in pcs && (pcs[w].TestBusy? || pcs[w].Flush?);
    assert w in pcs' && pcs'[w] == pcs[w];
  }

  lemma HistoryIgnores(l: Log, l': Log, fifo: seq<byte>, h: Hand)
    requires History(l, fifo, h)
    requires l' == l.(owner := l'.owner, completed := l'.completed, refusedLast := l'.refusedLast)
    ensures History(l', fifo, h)
  {
    hide Bytes, SentOf;
  }

  lemma WriteKeeps(c: Config, s: State, t: nat, data: seq<byte>)
    requires Inv(c, s) && Enabled(c, s, Write(t, data))
    ensures Inv(c, Next(c, s, Write(t, data)))
  {
    hide Bytes, SentOf, Concat, Outstanding;
    var got := data[..Min(|data|, c.fifoSize - |s.port.fifo|)];
    var s' := Next(c, s, Write(t, data));
    assert Bytes(s.log.ledger) + (s.port.fifo + got) == (Bytes(s.log.ledger) + s.port.fifo) + got;
    assert t in s'.pcs && s'.pcs[t].TestBusy?;
  }

  lemma DoneKeepsUrbs(c: Config, s: State, t: nat, i: nat, failed: bool)
    requires Inv(c, s) && Enabled(c, s, Done(t, i, failed))
    ensures var s' := Next(c, s, Done(t, i, failed));
            Urbs(c, s'.port, OwnerPc(s')) && Callbacks(s'.port.urbs, s'.pcs) && OwnerUrb(s'.port, OwnerPc(s')) &&
            OwnerPc(s') == OwnerPc(s)
  {
    hide Bytes, SentOf, Concat, Outstanding, History, Accounting, Wakeup, Min, AnyFree;
  }

  lemma DoneKeeps(c: Config, s: State, t: nat, i: nat, failed: bool)
    requires Inv(c, s) && Enabled(c, s, Done(t, i, failed))
    ensures Inv(c, Next(c, s, Done(t, i, failed)))
  {
    hide Bytes, SentOf, Concat, Outstanding, History, Min, AnyFree, Urbs, Callbacks, OwnerUrb, OwnerPc;
    var s' := Next(c, s, Done(t, i, failed));
    DoneKeepsUrbs(c, s, t, i, failed);
    OutstandingUpdate(s.port.urbs, i, s.port.urbs[i].(st := Giveback(t)));
    assert InTheHand(s'.port, OwnerPc(s')) == InTheHand(s.port, OwnerPc(s));
    if Obliged(s.pcs) { ObligedElsewhere(s.pcs, s'.pcs, t); }
  }

  lemma FlushKeeps(c: Config, s: State)
    requires Inv(c, s)
    ensures Inv(c, FlushFifo(s))
  {
    hide Bytes, SentOf, Concat, Outstanding;
    AppendChunk(s.log.ledger, Chunk(s.port.fifo, Flushed));
  }

  lemma TestBusyKeeps(c: Config, s: State, t: nat)
    requires Inv(c, s) && t in s.pcs && s.pcs[t].TestBusy?
    ensures Inv(c, StepThread(c, s, t, true))
  {
    hide Bytes, SentOf, Concat, Outstanding;
  }

  lemma CheckKeeps(c: Config, s: State, t: nat)
    requires Inv(c, s) && t in s.pcs && s.pcs[t].Check?
    ensures Inv(c, StepThread(c, s, t, true))
  {
    hide Bytes, SentOf, Concat, Outstanding;
  }

  lemma FillKeeps(c: Config, s: State, t: nat)
    requires Inv(c, s) && t in s.pcs && s.pcs[t].Fill?
    ensures StepDefined(s, s.pcs[t]) && Inv(c, StepThread(c, s, t, true))
  {
    hide Bytes, SentOf, Concat, Outstanding;
    var i := s.pcs[t].urb;
    var n := Min(c.bulkSize, |s.port.fifo|);
    var data := s.port.fifo[..n];
    AppendChunk(s.log.ledger, Chunk(data, InHand));
    OutstandingUpdate(s.port.urbs, i, s.port.urbs[i].(buf := data));
    assert Bytes(s.log.ledger) + s.port.fifo == (Bytes(s.log.ledger) + data) + s.port.fifo[n..];
  }

  lemma CountKeeps(c: Config, s: State, t: nat)
    requires Inv(c, s) && t in s.pcs && s.pcs[t].Count?
    ensures Inv(c, StepThread(c, s, t, true))
  {
    hide Bytes, SentOf, Concat, Outstanding;
  }

  lemma ClaimKeeps(c: Config, s: State, t: nat)
    requires Inv(c, s) && t in s.pcs && s.pcs[t].Claim?
    ensures StepDefined(s, s.pcs[t]) && Inv(c, StepThread(c, s, t, true))
  {
    hide Bytes, SentOf, Concat, Outstanding;
  }

  lemma SubmitKeeps(c: Config, s: State, t: nat, accept: bool)
    requires Inv(c, s) && t in s.pcs && s.pcs[t].Submit?
    ensures StepDefined(s, s.pcs[t]) && Inv(c, StepThread(c, s, t, accept))
  {
    hide Bytes, SentOf, Concat, Outstanding;
    var i := s.pcs[t].urb;
    ChangeFate(s.log.ledger, s.log.hand, if accept then Sent else Refused);
    OutstandingUpdate(s.port.urbs, i, s.port.urbs[i].(st := InFlight));
    AppendBuffer(s.log.wire, s.port.urbs[i].buf);
  }

  lemma BackOffKeeps(c: Config, s: State, t: nat)
    requires Inv(c, s) && t in s.pcs && (s.pcs[t].GiveUp? || s.pcs[t].Uncount? || s.pcs[t].Release?)
    ensures StepDefined(s, s.pcs[t]) && Inv(c, StepThread(c, s, t, true))
  {
    hide Bytes, SentOf, Concat, Outstanding, History;
    HistoryIgnores(s.log, StepThread(c, s, t, true).log, s.port.fifo, InTheHand(s.port, OwnerPc(s)));
  }

  lemma CompleteKeeps(c: Config, s: State, t: nat)
    requires Inv(c, s) && t in s.pcs && s.pcs[t].Complete?
    ensures StepDefined(s, s.pcs[t]) && Inv(c, StepThread(c, s, t, true))
  {
    hide Bytes, SentOf, Concat, Outstanding, History;
    var i := s.pcs[t].urb;
    var s' := StepThread(c, s, t, true);
    OutstandingUpdate(s.port.urbs, i, s.port.urbs[i].(st := Idle));
    assert OwnerPc(s') == OwnerPc(s) && InTheHand(s'.port, OwnerPc(s)) == InTheHand(s.port, OwnerPc(s));
    HistoryIgnores(s.log, s'.log, s.port.fifo, InTheHand(s.port, OwnerPc(s)));
    assert t in s'.pcs && (s'.pcs[t].TestBusy? || s'.pcs[t].Flush?);
    assert s'.port.free[i];
  }

  lemma FlushThreadKeeps(c: Config, s: State, t: nat)
    requires Inv(c, s) && t in s.pcs && s.pcs[t].Flush?
    ensures Inv(c, StepThread(c, s, t, true))
  {
    hide Bytes, SentOf, Concat, Outstanding;
    AppendChunk(s.log.ledger, Chunk(s.port.fifo, Flushed));
  }

  lemma StepKeeps(c: Config, s: State, t: nat, accept: bool)
    requires Inv(c, s) && t in s.pcs
    ensures StepDefined(s, s.pcs[t]) && Inv(c, StepThread(c, s, t, accept))
  {
    hide Bytes, SentOf, Concat, Outstanding, Inv;
    match s.pcs[t]
    case TestBusy => TestBusyKeeps(c, s, t);
    case Check => CheckKeeps(c, s, t);
    case Fill(_) => FillKeeps(c, s, t);
    case Count(_, _) => CountKeeps(c, s, t);
    case Claim(_, _) => ClaimKeeps(c, s, t);
    case Submit(_, _) => SubmitKeeps(c, s, t, accept);
    case GiveUp(_, _) => BackOffKeeps(c, s, t);
    case Uncount(_, _) => BackOffKeeps(c, s, t);
    case Release(_) => BackOffKeeps(c, s, t);
    case Complete(_, _) => CompleteKeeps(c, s, t);
    case Flush => FlushThreadKeeps(c, s, t);
  }

  lemma NextKeeps(c: Config, s: State, a: Action)
    requires Inv(c, s) && Enabled(c, s, a)
    ensures Inv(c, Next(c, s, a))
  {
    hide Bytes, SentOf, Concat, Outstanding, Inv, StepThread;
    match a
    case Write(t, data) => WriteKeeps(c, s, t, data);
    case Done(t, i, failed) => DoneKeeps(c, s, t, i, failed);
    case CloseFlush => FlushKeeps(c, s);
    case Step(t, accept) => StepKeeps(c, s, t, accept);
  }

  lemma {:induction false} RunKeeps(c: Config, acts: seq<Action>)
    requires After(c, acts).At?
    ensures Inv(c, After(c, acts).s)
  {
    if acts == [] {
      InitInv(c);
    } else {
      var prefix := acts[..|acts| - 1];
      RunKeeps(c, prefix);
      NextKeeps(c, After(c, prefix).s, acts[|acts| - 1]);
    }
  }

  // ----- what holds in every run ------------------------------------------------------------------------

  /** An action that neither refuses a submission, nor completes with an error, nor empties the FIFO. */
  predicate Clean(a: Action) {
    match a
    case Write(_, _) => true
    case Step(_, accept) => accept
    case Done(_, _, failed) => !failed
    case CloseFlush => false
  }

  /** A write puts the longest prefix of its data that fits behind what the FIFO holds, and nothing else of the port
      changes; no other step accepts a byte. */
  lemma WriteQueuesPrefix(c: Config, s: State, a: Action, k: nat)
    requires Enabled(c, s, a)
    requires a.Write? ==> k <= |a.data| && k <= c.fifoSize - |s.port.fifo| &&
                          (k == |a.data| || k == c.fifoSize - |s.port.fifo|)
    ensures var s' := Next(c, s, a);
            if a.Write?
            then s'.port == s.port.(fifo := s.port.fifo + a.data[..k]) &&
                 s'.log == s.log.(accepted := s.log.accepted + a.data[..k])
            else s'.log.accepted == s.log.accepted
  {
    hide AnyFree, FirstFree;
  }

  /** What the writes of a run queued, one after the other: of each its data, cut to the room there was. */
  function Queued(c: Config, acts: seq<Action>): seq<byte>
    requires After(c, acts).At?
  {
    if acts == [] then [] else
      var before := acts[..|acts| - 1];
      match acts[|acts| - 1]
      case Write(_, data) =>
        var room := c.fifoSize - |After(c, before).s.port.fifo|;
        Queued(c, before) + if |data| <= room then data else data[..room]
      case _ => Queued(c, before)
  }

  /** The accepted bytes are those of the writes, in order, each cut to the room there was. */
  lemma {:induction false} AcceptedIsQueued(c: Config, acts: seq<Action>)
    requires After(c, acts).At?
    ensures After(c, acts).s.log.accepted == Queued(c, acts)
  {
    hide Next;
    if acts != [] {
      var before, last := acts[..|acts| - 1], acts[|acts| - 1];
      var s := After(c, before).s;
      AcceptedIsQueued(c, before);
      if last.Write? {
        var room := c.fifoSize - |s.port.fifo|;
        var k := if |last.data| <= room then |last.data| else room;
        assert last.data[..|last.data|] == last.data;
        WriteQueuesPrefix(c, s, last, k);
      } else {
        WriteQueuesPrefix(c, s, last, 0);
      }
    }
  }

  /** What was accepted stays accepted. */
  lemma {:induction false} AcceptedGrows(c: Config, acts: seq<Action>, more: seq<Action>)
    requires After(c, more).At? && acts <= more
    ensures After(c, acts).At? && After(c, acts).s.log.accepted <= After(c, more).s.log.accepted
  {
    hide Next, Enabled, Min;
    if acts != more {
      var before, last := more[..|more| - 1], more[|more| - 1];
      AcceptedGrows(c, acts, before);
      AcceptedStep(c, After(c, before).s, last);
    } else {
      assert acts == more;
    }
  }

  /** What went on the wire stays there. */
  lemma {:induction false} WireGrows(c: Config, acts: seq<Action>, more: seq<Action>)
    requires After(c, more).At? && acts <= more
    ensures After(c, acts).At? && After(c, acts).s.log.wire <= After(c, more).s.log.wire
  {
    hide Next, Enabled, Min;
    if acts != more {
      var before, last := more[..|more| - 1], more[|more| - 1];
      WireGrows(c, acts, before);
      WireStep(c, After(c, before).s, last);
    } else {
      assert acts == more;
    }
  }

  lemma WireStep(c: Config, s: State, a: Action)
    requires Enabled(c, s, a)
    ensures s.log.wire <= Next(c, s, a).log.wire
  {
    hide AnyFree, FirstFree;
  }

  lemma AcceptedStep(c: Config, s: State, a: Action)
    requires Enabled(c, s, a)
    ensures s.log.accepted <= Next(c, s, a).log.accepted
  {
    hide AnyFree, FirstFree;
  }

  /** FIFO order. In every run the buffers handed to the hardware are, in order, the accepted bytes with
      whole chunks left out: those the USB core refused, those a flush threw away, and the one the owner of
      WRITE_BUSY has in hand, if it has one. */
  lemma FifoOrder(c: Config, acts: seq<Action>)
    requires After(c, acts).At?
    ensures var s := After(c, acts).s;
            var l, h := s.log, InTheHand(s.port, OwnerPc(s));
            && Bytes(l.ledger) + s.port.fifo == l.accepted && SentOf(l.ledger) == l.wire
            && (h.Holds? ==> l.hand < |l.ledger| && l.ledger[l.hand] == Chunk(h.bytes, InHand))
            && forall k :: 0 <= k < |l.ledger| && l.ledger[k].fate == InHand ==> h.Holds? && k == l.hand
  {
    RunKeeps(c, acts);
  }

  /** No submission was refused so far, and none is being undone. */
  ghost predicate Unrefused(s: State) {
    && !s.log.refusedLast
    && (forall t :: t in s.pcs ==> !s.pcs[t].GiveUp? && !s.pcs[t].Uncount? && !s.pcs[t].Release?)
    && forall k :: 0 <= k < |s.log.ledger| ==> s.log.ledger[k].fate != Refused
  }

  ghost predicate Unflushed(s: State) {
    && (forall t :: t in s.pcs ==> !s.pcs[t].Flush? && (s.pcs[t].Complete? ==> !s.pcs[t].failed))
    && forall k :: 0 <= k < |s.log.ledger| ==> s.log.ledger[k].fate != Flushed
  }

  lemma StepStaysUnrefused(c: Config, s: State, a: Action)
    requires Unrefused(s) && Enabled(c, s, a) && (a.Step? ==> a.accept)
    ensures Unrefused(Next(c, s, a))
  {
    hide Min, AnyFree, FirstFree;
  }

  lemma StepStaysUnflushed(c: Config, s: State, a: Action)
    requires Unflushed(s) && Enabled(c, s, a) && Clean(a)
    ensures Unflushed(Next(c, s, a))
  {
    hide Min, AnyFree, FirstFree;
  }

  lemma {:induction false} NeverRefused(c: Config, acts: seq<Action>)
    requires After(c, acts).At? && forall k :: 0 <= k < |acts| && acts[k].Step? ==> acts[k].accept
    ensures Unrefused(After(c, acts).s)
  {
    hide Unrefused, Next, Enabled;
    if acts != [] {
      NeverRefused(c, acts[..|acts| - 1]);
      StepStaysUnrefused(c, After(c, acts[..|acts| - 1]).s, acts[|acts| - 1]);
    } else {
      InitUnbroken(c);
    }
  }

  lemma {:induction false} NeverFlushed(c: Config, acts: seq<Action>)
    requires After(c, acts).At? && forall k :: 0 <= k < |acts| ==> Clean(acts[k])
    ensures Unflushed(After(c, acts).s)
  {
    hide Unflushed, Next, Enabled;
    if acts != [] {
      NeverFlushed(c, acts[..|acts| - 1]);
      StepStaysUnflushed(c, After(c, acts[..|acts| - 1]).s, acts[|acts| - 1]);
    } else {
      InitUnbroken(c);
    }
  }

  lemma InitUnbroken(c: Config)
    ensures Unrefused(Init(c)) && Unflushed(Init(c))
  {
  }

  lemma {:induction false} UnbrokenLedger(l: seq<Chunk>)
    requires forall k :: 0 <= k < |l| ==> l[k].fate == Sent
    ensures Bytes(l) == Concat(SentOf(l))
  {
    if l != [] {
      UnbrokenLedger(l[..|l| - 1]);
      AppendBuffer(SentOf(l[..|l| - 1]), l[|l| - 1].bytes);
    }
  }

  lemma HandIsLast(l: Log, h: Hand)
    requires h.Holds? && l.hand < |l.ledger| && l.ledger[l.hand] == Chunk(h.bytes, InHand)
    requires forall k :: l.hand < k < |l.ledger| ==> l.ledger[k].fate == Flushed
    requires forall k :: 0 <= k < |l.ledger| && l.ledger[k].fate == InHand ==> k == l.hand
    requires forall k :: 0 <= k < |l.ledger| ==> l.ledger[k].fate != Flushed && l.ledger[k].fate != Refused
    ensures Bytes(l.ledger) == Concat(SentOf(l.ledger)) + h.bytes
  {
    var sent := l.ledger[..|l.ledger| - 1];
    assert l.hand == |l.ledger| - 1 by { assert l.ledger[|l.ledger| - 1].fate != Flushed; }
    UnbrokenLedger(sent);
    assert l.ledger == sent + [Chunk(h.bytes, InHand)];
    AppendChunk(sent, Chunk(h.bytes, InHand));
  }

  /** FIFO order without losses: URB bytes in submission order, then the buffer in hand, then the FIFO, are
      exactly what the writes queued, one after the other. */
  lemma FifoOrderUnbroken(c: Config, acts: seq<Action>)
    requires After(c, acts).At? && forall k :: 0 <= k < |acts| ==> Clean(acts[k])
    ensures var s := After(c, acts).s;
            var h := InTheHand(s.port, OwnerPc(s));
            Concat(s.log.wire) + (if h.Holds? then h.bytes else []) + s.port.fifo == Queued(c, acts)
  {
    hide After, Queued, Mutex, OwnerUrb, Urbs, Callbacks, Accounting, Wakeup, Bytes, SentOf, Concat, Outstanding;
    RunKeeps(c, acts);
    NeverRefused(c, acts);
    NeverFlushed(c, acts);
    AcceptedIsQueued(c, acts);
    var s := After(c, acts).s;
    var h := InTheHand(s.port, OwnerPc(s));
    if h.Holds? {
      HandIsLast(s.log, h);
    } else {
      UnbrokenLedger(s.log.ledger);
    }
  }

  /** A write URB about to be submitted is not in flight, and nobody changes the buffer of one that is. */
  lemma NoDoubleSubmit(c: Config, acts: seq<Action>, t: nat)
    requires After(c, acts).At? && t in After(c, acts).s.pcs && After(c, acts).s.pcs[t].Submit?
    ensures var s := After(c, acts).s;
            var i := s.pcs[t].urb;
            i < |s.port.urbs| && s.port.urbs[i].st == Idle && s.pcs[t].n == |s.port.urbs[i].buf| &&
            forall u :: u in s.pcs && s.pcs[u].Submit? ==> u == t
  {
    RunKeeps(c, acts);
  }

  /** A buffer goes on the wire exactly when its URB goes into flight. */
  lemma WireRecords(c: Config, acts: seq<Action>, a: Action)
    requires After(c, acts).At? && Enabled(c, After(c, acts).s, a)
    ensures var s := After(c, acts).s; var s' := Next(c, s, a); var u, u' := s.port.urbs, s'.port.urbs;
            && |u| == |u'|
            && (forall i :: 0 <= i < |u| && u[i].st != InFlight && u'[i].st == InFlight ==>
                  s'.log.wire == s.log.wire + [u[i].buf])
            && ((forall i :: 0 <= i < |u| && u'[i].st == InFlight ==> u[i].st == InFlight) ==>
                  s'.log.wire == s.log.wire)
  {
    hide After, Inv, AnyFree, FirstFree, Min;
    var s, s' := After(c, acts).s, Next(c, After(c, acts).s, a);
    if a.Step? && s.pcs[a.t].Submit? {
      NoDoubleSubmit(c, acts, a.t);
      if a.accept { assert s'.port.urbs[s.pcs[a.t].urb].st == InFlight && s.port.urbs[s.pcs[a.t].urb].st == Idle; }
    }
  }

  /** An URB's bytes are completed exactly when its callback makes it idle again. */
  lemma CompletionRecords(c: Config, acts: seq<Action>, a: Action)
    requires After(c, acts).At? && Enabled(c, After(c, acts).s, a)
    ensures var s := After(c, acts).s; var s' := Next(c, s, a); var u, u' := s.port.urbs, s'.port.urbs;
            && |u| == |u'|
            && (forall i :: 0 <= i < |u| && u[i].st != Idle && u'[i].st == Idle ==>
                  s'.log.completed == s.log.completed + |u[i].buf|)
            && ((forall i :: 0 <= i < |u| && u'[i].st == Idle ==> u[i].st == Idle) ==>
                  s'.log.completed == s.log.completed)
  {
    RunKeeps(c, acts);
    hide After, Mutex, OwnerUrb, Urbs, History, Accounting, Wakeup, AnyFree, FirstFree, Min;
    var s, s' := After(c, acts).s, Next(c, After(c, acts).s, a);
    if a.Step? && s.pcs[a.t].Complete? {
      assert s'.port.urbs[s.pcs[a.t].urb].st == Idle && s.port.urbs[s.pcs[a.t].urb].st == Giveback(a.t);
    }
  }

  lemma InFlightBufferUntouched(c: Config, acts: seq<Action>, a: Action, i: nat)
    requires After(c, acts).At? && Enabled(c, After(c, acts).s, a)
    requires i < |After(c, acts).s.port.urbs| && After(c, acts).s.port.urbs[i].st != Idle
    ensures var s := After(c, acts).s;
            var s' := Next(c, s, a);
            |s'.port.urbs| == |s.port.urbs| && s'.port.urbs[i].buf == s.port.urbs[i].buf
  {
    hide Bytes, SentOf, Concat, Outstanding, History, Accounting, Wakeup, After;
    RunKeeps(c, acts);
  }

  /** tx_bytes at every step: the bytes of URBs not yet accounted for, plus what the owner of WRITE_BUSY has
      added and not yet handed over or taken back. It is never negative. */
  lemma TxBytesExact(c: Config, acts: seq<Action>)
    requires After(c, acts).At?
    ensures var s := After(c, acts).s;
            s.port.txBytes == Outstanding(s.port.urbs) + Pending(OwnerPc(s)) && s.port.txBytes >= 0
  {
    RunKeeps(c, acts);
  }

  /** chars_in_buffer */
  function CharsInBuffer(p: Port): int { |p.fifo| + p.txBytes }

  function HandBytes(l: seq<Chunk>): nat {
    if l == [] then 0 else HandBytes(l[..|l| - 1]) + if l[|l| - 1].fate == InHand then |l[|l| - 1].bytes| else 0
  }

  lemma {:induction false} LedgerLength(l: seq<Chunk>)
    ensures |Bytes(l)| == |Concat(SentOf(l))| + LostBytes(l) + HandBytes(l)
  {
    if l != [] {
      var rest := l[..|l| - 1];
      LedgerLength(rest);
      AppendBuffer(SentOf(rest), l[|l| - 1].bytes);
    }
  }

  lemma {:induction false} HandLength(l: seq<Chunk>, hand: nat, h: Hand)
    requires h.Holds? ==> hand < |l| && l[hand] == Chunk(h.bytes, InHand)
    requires forall k :: 0 <= k < |l| && l[k].fate == InHand ==> h.Holds? && k == hand
    ensures HandBytes(l) == if h.Holds? then |h.bytes| else 0
  {
    if l != [] {
      var last := |l| - 1;
      HandLength(l[..last], hand, if h.Holds? && hand < last then h else Empty);
    }
  }

  /** chars_in_buffer is the accepted bytes neither completed nor lost, off only by the buffer the owner of
      WRITE_BUSY has taken but not counted yet, or counted but not yet written off after a refusal; so it is
      exact when no thread is inside. */
  lemma CharsInBufferExact(c: Config, acts: seq<Action>)
    requires After(c, acts).At?
    ensures var s := After(c, acts).s;
            var pc := OwnerPc(s);
            CharsInBuffer(s.port) == |s.log.accepted| - s.log.completed - LostBytes(s.log.ledger)
              - (if pc.Count? then pc.n else 0) + (if pc.GiveUp? || pc.Uncount? then pc.n else 0)
    ensures var s := After(c, acts).s;
            s.pcs == map[] ==>
              CharsInBuffer(s.port) == |s.log.accepted| - s.log.completed - LostBytes(s.log.ledger)
  {
    RunKeeps(c, acts);
    var s := After(c, acts).s;
    LedgerLength(s.log.ledger);
    HandLength(s.log.ledger, s.log.hand, InTheHand(s.port, OwnerPc(s)));
  }

  /** Lost wakeups, exactly. Once no thread is inside, bytes wait in the FIFO while an URB is free if and only
      if the FIFO is not empty and WRITE_BUSY was last released by a refused submission. */
  lemma LostWakeupIff(c: Config, acts: seq<Action>)
    requires After(c, acts).At? && After(c, acts).s.pcs == map[]
    ensures var s := After(c, acts).s;
            s.port.fifo != [] && AnyFree(s.port.free) <==> s.port.fifo != [] && s.log.refusedLast
  {
    RunKeeps(c, acts);
  }

  lemma CallbackPresent(urbs: seq<Urb>, pcs: map<nat, Pc>, i: nat)
    requires Callbacks(urbs, pcs) && i < |urbs|
    ensures urbs[i].st.Giveback? ==> pcs != map[]
  {
    if urbs[i].st.Giveback? { assert urbs[i].st.callback in pcs; }
  }

  /** In a run without refused submissions nothing waits for nobody: when no thread is inside and bytes are
      left, the hardware has every URB, so a completion callback will come. */
  lemma NoLostWakeup(c: Config, acts: seq<Action>)
    requires After(c, acts).At? && After(c, acts).s.pcs == map[] && After(c, acts).s.port.fifo != []
    requires forall k :: 0 <= k < |acts| && acts[k].Step? ==> acts[k].accept
    ensures forall i :: 0 <= i < c.urbCount ==>
              i < |After(c, acts).s.port.urbs| && After(c, acts).s.port.urbs[i].st == InFlight
  {
    RunKeeps(c, acts);
    NeverRefused(c, acts);
    var s := After(c, acts).s;
    assert !s.port.busy && !Obliged(s.pcs);
    forall i | 0 <= i < c.urbCount ensures s.port.urbs[i].st == InFlight {
      assert !s.port.free[i];
      CallbackPresent(s.port.urbs, s.pcs, i);
    }
  }

  lemma Extend(c: Config, acts: seq<Action>, a: Action)
    requires After(c, acts).At? && Enabled(c, After(c, acts).s, a)
    ensures After(c, acts + [a]) == At(Next(c, After(c, acts).s, a))
  {
    assert (acts + [a])[..|acts|] == acts;
  }

  /** Thread 0 writes two bytes and its submission is refused; while it still holds WRITE_BUSY thread 1 queues
      one more byte and leaves, trusting the holder to send it. */
  function LostRun(): seq<Action> {
    [Write(0, [1, 2]), Step(0, true), Step(0, true), Step(0, true), Step(0, true), Step(0, true),
     Step(0, false), Write(1, [3]), Step(1, true), Step(0, true), Step(0, true), Step(0, true)]
  }

  lemma Follow(c: Config, r: seq<Action>, k: nat, s: State, s': State)
    requires k < |r| && After(c, r[..k]) == At(s) && Enabled(c, s, r[k]) && Next(c, s, r[k]) == s'
    ensures After(c, r[..k + 1]) == At(s')
  {
    Extend(c, r[..k], r[k]);
    assert r[..k + 1] == r[..k] + [r[k]];
  }

  lemma LostRunFills()
    ensures After(Config(4, 2, 1), LostRun()[..3]) ==
            At(State(Port(true, [1, 2], [true], 0, [Urb([], Idle)]), map[0 := Fill(0)],
                     Log(0, [1, 2], [], 0, [], 0, false)))
  {
    hide After;
    var c, r := Config(4, 2, 1), LostRun();
    var l := Log(0, [1, 2], [], 0, [], 0, false);
    var free, urbs := [true], [Urb([], Idle)];
    EmptyRun(c, r);
    var s1 := State(Port(false, [1, 2], free, 0, urbs), map[0 := TestBusy], l);
    var s2 := State(Port(true, [1, 2], free, 0, urbs), map[0 := Check], l);
    var s3 := State(Port(true, [1, 2], free, 0, urbs), map[0 := Fill(0)], l);
    Follow(c, r, 0, Init(c), s1);
    Follow(c, r, 1, s1, s2);
    assert AnyFree(free) by { assert free[0]; }
    Follow(c, r, 2, s2, s3);
  }

  lemma LostRunCounts()
    ensures After(Config(4, 2, 1), LostRun()[..4]) ==
            At(State(Port(true, [], [true], 0, [Urb([1, 2], Idle)]), map[0 := Count(0, 2)],
                     Log(0, [1, 2], [Chunk([1, 2], InHand)], 0, [], 0, false)))
  {
    hide After;
    var data: seq<byte> := [1, 2];
    var l := Log(0, data, [], 0, [], 0, false);
    var urbs, urbs' := [Urb([], Idle)], [Urb(data, Idle)];
    LostRunFills();
    assert data[..2] == data && data[2..] == [] && urbs[0 := Urb(data, Idle)] == urbs';
    Follow(Config(4, 2, 1), LostRun(), 3, State(Port(true, data, [true], 0, urbs), map[0 := Fill(0)], l),
           State(Port(true, [], [true], 0, urbs'), map[0 := Count(0, 2)], l.(ledger := [Chunk(data, InHand)])));
  }

  lemma LostRunSubmits()
    ensures After(Config(4, 2, 1), LostRun()[..6]) ==
            At(State(Port(true, [], [false], 2, [Urb([1, 2], Idle)]), map[0 := Submit(0, 2)],
                     Log(0, [1, 2], [Chunk([1, 2], InHand)], 0, [], 0, false)))
  {
    hide After;
    var c, r := Config(4, 2, 1), LostRun();
    var l := Log(0, [1, 2], [Chunk([1, 2], InHand)], 0, [], 0, false);
    var urbs := [Urb([1, 2], Idle)];
    LostRunCounts();
    var s4 := State(Port(true, [], [true], 0, urbs), map[0 := Count(0, 2)], l);
    var s5 := State(Port(true, [], [true], 2, urbs), map[0 := Claim(0, 2)], l);
    var s6 := State(Port(true, [], [false], 2, urbs), map[0 := Submit(0, 2)], l);
    Follow(c, r, 4, s4, s5);
    Follow(c, r, 5, s5, s6);
  }

  lemma EmptyRun(c: Config, r: seq<Action>)
    ensures After(c, r[..0]) == At(Init(c))
  {
  }

  /** The wakeup really is lost there: nobody is inside, the only URB is free, and the byte is still queued. */
  lemma LostWakeupHappens()
    ensures var o := After(Config(4, 2, 1), LostRun());
            o.At? && o.s.pcs == map[] && o.s.port.fifo == [3] && o.s.port.free == [true]
  {
    hide After;
    var c, r := Config(4, 2, 1), LostRun();
    var l := Log(0, [1, 2], [Chunk([1, 2], InHand)], 0, [], 0, false);
    var l' := l.(ledger := [Chunk([1, 2], Refused)]);
    var l'' := l'.(accepted := [1, 2, 3]);
    var urbs := [Urb([1, 2], Idle)];
    LostRunSubmits();
    var s6 := State(Port(true, [], [false], 2, urbs), map[0 := Submit(0, 2)], l);
    var s7 := State(Port(true, [], [false], 2, urbs), map[0 := GiveUp(0, 2)], l');
    var s8 := State(Port(true, [3], [false], 2, urbs), map[0 := GiveUp(0, 2), 1 := TestBusy], l'');
    var s9 := State(Port(true, [3], [false], 2, urbs), map[0 := GiveUp(0, 2)], l'');
    var s10 := State(Port(true, [3], [true], 2, urbs), map[0 := Uncount(0, 2)], l'');
    var s11 := State(Port(true, [3], [true], 0, urbs), map[0 := Release(0)], l'');
    var s12 := State(Port(false, [3], [true], 0, urbs), map[], l''.(refusedLast := true));
    Follow(c, r, 6, s6, s7);
    Follow(c, r, 7, s7, s8);
    Follow(c, r, 8, s8, s9);
    Follow(c, r, 9, s9, s10);
    Follow(c, r, 10, s10, s11);
    Follow(c, r, 11, s11, s12);
    assert r[..12] == r;
  }
}
