/** The Ethernet receive ring (rt2880_eth_recv of config/mtk2/kernel/raether.c): ring 0 with USE_PREFETCH,
    USE_BUILD_SKB and CONFIG_RAETH_RW_PDMAPTR_FROM_VAR, no LRO, no NAPI, no DMA-mapping failure.

    The hardware fills descriptors from its own index on and stops in front of the CPU index; the CPU consumes
    them in ring order, gives each buffer away and arms the slot with a new one. Every statement of the receive
    loop that touches the ring is one step, and the hardware may act between any two of them. The class
    `RxDevice` of module RxDevice is the same code in the source's own form. */
module RxRing {
  import Modulo
  import opened Wrappers

  type Frame = seq<bv8>

  /** What became of a consumed descriptor's frame: passed to the stack or the HNAT hook; dropped and counted,
      because no new buffer was available; or discarded without being counted, because build_skb failed. */
  datatype Fate = Passed | Dropped | Discarded

  /** Where the receive loop stands at the slot behind the CPU index; b is the new buffer. */
  datatype Phase =
    | Idle
    | GotNew(b: nat)       // new buffer allocated, skb built around the old one
    | Handed(b: nat)       // old buffer given away
    | Addressed(b: nat)    // descriptor points at the new buffer
    | Cleared(b: nat)      // done bit cleared
    | Swapped(b: nat)      // driver table points at the new buffer
    | Refused(f: Fate)     // no new buffer, or no skb: the frame is given up
    | Recycled(f: Fate)    // done bit cleared, slot keeps its old buffer

  datatype Ring = Ring(
    done: seq<bool>,          // rxd_info2.DDONE_bit of each descriptor
    pdp: seq<nat>,            // rxd_info1.PDP0: the buffer the hardware writes to
    skb: seq<nat>,            // netrx_skbuf[0]: the buffer the driver believes is there
    cpuIdx: nat,              // rx_calc_idx[0] and the register RX_CALC_IDX0
    hwIdx: nat,               // the hardware's own index
    mem: map<nat, Frame>)     // what each buffer holds

  datatype Stats = Stats(packets: nat, dropped: nat)

  /** Buffers given away and not released yet with the frame handed over in them, all frames handed over, all
      frames the hardware completed, and one fate for every descriptor consumed. */
  datatype Log = Log(held: map<nat, Frame>, delivered: seq<Frame>, filled: seq<Frame>, fates: seq<Fate>)

  datatype State = State(ring: Ring, stats: Stats, phase: Phase, log: Log)

  datatype Action =
    | Fill(f: Frame)                              // the hardware receives a frame
    | Cpu(alloc: Option<nat>, built: bool)        // the receive loop's next step
    | Release(b: nat)                             // the stack frees a buffer

  // ----- positions and slots ----------------------------------------------------------------------------

  /** Position k of the endless sequence of fills and consumptions lives in slot k mod n. */
  function Slot(k: nat, n: nat): nat
    requires n > 0
  {
    k % n
  }

  lemma SlotNext(k: nat, n: nat)
    requires n > 0
    ensures Slot(k, n) < n && (Slot(k, n) + 1) % n == Slot(k + 1, n) && Slot(k + n, n) == Slot(k, n)
  {
    var q, r := k / n, k % n;
    assert k == q * n + r;
    Modulo.AddMultiple(r + 1, q, n);
    Modulo.AddMultiple(k, 1, n);
  }

  lemma SlotsDistinct(k: nat, l: nat, n: nat)
    requires n > 0 && k < l < k + n
    ensures Slot(k, n) != Slot(l, n)
  {
    if Slot(k, n) == Slot(l, n) {
      var qk, ql := k / n, l / n;
      assert l - k == (ql - qk) * n by {
        assert k == qk * n + k % n && l == ql * n + l % n;
        Modulo.Distribute(ql, qk, n);
      }
      if ql - qk >= 1 { Modulo.ProductAtLeast(ql - qk, n); }
      if ql - qk <= 0 { Modulo.ProductMonotone(ql - qk, 0, n); }
    }
  }

  lemma SameSlot(k: nat, l: nat, n: nat)
    requires n > 0 && k <= l < k + n && Slot(k, n) == Slot(l, n)
    ensures k == l
  {
    hide Slot;
    if k < l { SlotsDistinct(k, l, n); }
  }

  /** n consecutive positions have n different slots. */
  lemma WindowSlots(c: nat, n: nat)
    requires n > 0
    ensures forall k: nat :: Slot(k, n) < n
    ensures forall k, l :: c <= k < l < c + n ==> Slot(k, n) != Slot(l, n)
  {
    forall k, l | c <= k < l < c + n ensures Slot(k, n) != Slot(l, n) { SlotsDistinct(k, l, n); }
  }

  // ----- the machine ------------------------------------------------------------------------------------

  function N(s: State): nat { |s.ring.done| }

  predicate Sized(s: State) {
    |s.ring.done| == |s.ring.pdp| == |s.ring.skb| >= 2 && s.ring.cpuIdx < |s.ring.done| && s.ring.hwIdx < |s.ring.done|
  }

  /** The slot the receive loop works on. */
  function Owner(s: State): nat
    requires Sized(s)
  {
    (s.ring.cpuIdx + 1) % N(s)
  }

  predicate InUse(s: State, b: nat) { b in s.ring.skb || b in s.ring.pdp || b in s.log.held }

  function Init(n: nat): State
    requires n >= 2
  {
    State(Ring(seq(n, i => false), seq(n, i => i), seq(n, i => i), n - 1, 0, map[]), Stats(0, 0), Idle,
          Log(map[], [], [], []))
  }

  predicate Enabled(s: State, a: Action) {
    Sized(s) &&
    match a
    case Fill(_) => true
    case Release(b) => b in s.log.held
    case Cpu(alloc, _) =>
      if s.phase.Idle? then s.ring.done[Owner(s)] && (alloc.Some? ==> !InUse(s, alloc.value))
      else s.phase.GotNew? ==> s.ring.skb[Owner(s)] in s.ring.mem
  }

  /** The hardware drops the frame on the floor when it has caught up with the CPU index. */
  function HwFill(s: State, f: Frame): State
    requires Sized(s)
  {
    var r := s.ring;
    if r.hwIdx == r.cpuIdx then s else
      s.(ring := r.(mem := r.mem[r.pdp[r.hwIdx] := f], done := r.done[r.hwIdx := true], hwIdx := (r.hwIdx + 1) % N(s)),
         log := s.log.(filled := s.log.filled + [f]))
  }

  function CpuStep(s: State, alloc: Option<nat>, built: bool): State
    requires Enabled(s, Cpu(alloc, built))
  {
    var i, r, l := Owner(s), s.ring, s.log;
    match s.phase
    case Idle =>
      if alloc.None? then s.(stats := s.stats.(dropped := s.stats.dropped + 1), phase := Refused(Dropped))
      else if !built then s.(phase := Refused(Discarded))
      else s.(phase := GotNew(alloc.value))
    case GotNew(b) =>
      var frame := r.mem[r.skb[i]];
      s.(log := l.(held := l.held[r.skb[i] := frame], delivered := l.delivered + [frame]),
         stats := s.stats.(packets := s.stats.packets + 1), phase := Handed(b))
    case Handed(b) => s.(ring := r.(pdp := r.pdp[i := b]), phase := Addressed(b))
    case Addressed(b) => s.(ring := r.(done := r.done[i := false]), phase := Cleared(b))
    case Cleared(b) => s.(ring := r.(skb := r.skb[i := b]), phase := Swapped(b))
    case Swapped(b) => s.(ring := r.(cpuIdx := i), log := l.(fates := l.fates + [Passed]), phase := Idle)
    case Refused(f) => s.(ring := r.(done := r.done[i := false]), phase := Recycled(f))
    case Recycled(f) => s.(ring := r.(cpuIdx := i), log := l.(fates := l.fates + [f]), phase := Idle)
  }

  function Next(s: State, a: Action): State
    requires Enabled(s, a)
  {
    match a
    case Fill(f) => HwFill(s, f)
    case Cpu(alloc, built) => CpuStep(s, alloc, built)
    case Release(b) => s.(log := s.log.(held := s.log.held - {b}))
  }

  datatype Outcome = Stuck | At(s: State)

  function After(n: nat, acts: seq<Action>): Outcome
    requires n >= 2
  {
    if acts == [] then At(Init(n)) else
      match After(n, acts[..|acts| - 1])
      case Stuck => Stuck
      case At(m) => if Enabled(m, acts[|acts| - 1]) then At(Next(m, acts[|acts| - 1])) else Stuck
  }

  // ----- the invariant ------------------------------------------------------------------------------------

  /** The frames passed on, in order. */
  function PassedOf(filled: seq<Frame>, fates: seq<Fate>): seq<Frame>
    requires |fates| <= |filled|
  {
    if fates == [] then []
    else
      var last := |fates| - 1;
      if fates[last] == Passed then PassedOf(filled, fates[..last]) + [filled[last]]
      else PassedOf(filled, fates[..last])
  }

  function CountFate(fates: seq<Fate>, f: Fate): nat {
    if fates == [] then 0 else CountFate(fates[..|fates| - 1], f) + if fates[|fates| - 1] == f then 1 else 0
  }

  /** The CPU stands at position |fates|, the hardware at position |filled|, less than one round ahead. */
  ghost predicate Indices(s: State, n: nat) {
    var c, f := |s.log.fates|, |s.log.filled|;
    && Sized(s) && N(s) == n && c <= f < c + n && (s.phase != Idle ==> c < f)
    && s.ring.cpuIdx == Slot(c + n - 1, n) && s.ring.hwIdx == Slot(f, n)
  }

  /** The slot at position k is armed with a buffer of its own that driver and hardware agree on; it is marked
      done exactly if the hardware filled it, and then holds that frame. */
  ghost predicate Armed(s: State, n: nat, k: nat)
    requires Sized(s) && N(s) == n
  {
    var j := Slot(k, n);
    && j < n && s.ring.pdp[j] == s.ring.skb[j] && s.ring.skb[j] !in s.log.held
    && if k < |s.log.filled| then
         s.ring.done[j] && s.ring.skb[j] in s.ring.mem && s.ring.mem[s.ring.skb[j]] == s.log.filled[k]
       else !s.ring.done[j]
  }

  /** Buffer b is in no slot but possibly the CPU's, and nobody else holds it. */
  ghost predicate Private(skb: seq<nat>, held: map<nat, Frame>, c: nat, b: nat) {
    && |skb| > 0 && b !in held
    && forall k :: c < k < c + |skb| ==> Slot(k, |skb|) < |skb| && skb[Slot(k, |skb|)] != b
  }

  /** No two slots but the CPU's share a buffer. */
  ghost predicate Distinct(skb: seq<nat>, c: nat) {
    && |skb| > 0
    && forall k, l :: c < k < l < c + |skb| ==>
         Slot(k, |skb|) < |skb| && Slot(l, |skb|) < |skb| && skb[Slot(k, |skb|)] != skb[Slot(l, |skb|)]
  }

  /** All slots but the CPU's. */
  ghost predicate Others(s: State, n: nat)
    requires Sized(s) && N(s) == n
  {
    && Distinct(s.ring.skb, |s.log.fates|)
    && forall k :: |s.log.fates| < k < |s.log.fates| + n ==> Armed(s, n, k)
  }

  /** The CPU's slot, statement by statement. */
  ghost predicate Current(s: State, n: nat)
    requires Sized(s) && N(s) == n
  {
    var r, h, c := s.ring, s.log.held, |s.log.fates|;
    var j := Slot(c, n);
    j < n && Owner(s) == j &&
    match s.phase
    case Idle => Armed(s, n, c) && Private(r.skb, h, c, r.skb[j])
    case GotNew(b) => Armed(s, n, c) && Private(r.skb, h, c, r.skb[j]) && Private(r.skb, h, c, b) && b != r.skb[j]
    case Handed(b) => Private(r.skb, h, c, b)
    case Addressed(b) => r.pdp[j] == b && Private(r.skb, h, c, b)
    case Cleared(b) => r.pdp[j] == b && Private(r.skb, h, c, b) && !r.done[j]
    case Swapped(b) => r.pdp[j] == r.skb[j] == b && Private(r.skb, h, c, b) && !r.done[j]
    case Refused(f) => Armed(s, n, c) && Private(r.skb, h, c, r.skb[j])
    case Recycled(f) => r.pdp[j] == r.skb[j] && Private(r.skb, h, c, r.skb[j]) && !r.done[j]
  }

  predicate HandingOver(p: Phase) { p.Handed? || p.Addressed? || p.Cleared? || p.Swapped? }

  ghost predicate Books(s: State) {
    var l := s.log;
    && |l.fates| <= |l.filled|
    && (HandingOver(s.phase) ==> |l.fates| < |l.filled|)
    && l.delivered == PassedOf(l.filled, l.fates) + (if HandingOver(s.phase) then [l.filled[|l.fates|]] else [])
    && s.stats.packets == |l.delivered|
    && s.stats.dropped == CountFate(l.fates, Dropped) +
         (if s.phase == Refused(Dropped) || s.phase == Recycled(Dropped) then 1 else 0)
    && ((s.phase.Refused? || s.phase.Recycled?) ==> s.phase.f != Passed)
    && forall b :: b in l.held ==> b in s.ring.mem && s.ring.mem[b] == l.held[b]
  }

  ghost predicate Inv(n: nat, s: State) {
    n >= 2 && Indices(s, n) && Others(s, n) && Current(s, n) && Books(s)
  }

  // ----- every step keeps the invariant -------------------------------------------------------------------

  lemma InitArmed(n: nat, k: nat)
    requires n >= 2 && k < n
    ensures Slot(k, n) == k && Sized(Init(n)) && N(Init(n)) == n && Armed(Init(n), n, k)
  {
    Modulo.DivModUnique(k, n, 0, k);
    hide Slot;
  }

  lemma InitInv(n: nat)
    requires n >= 2
    ensures Inv(n, Init(n))
  {
    forall k | 0 <= k < n ensures Slot(k, n) == k && Armed(Init(n), n, k) { InitArmed(n, k); }
    SlotNext(n - 1, n);
    SlotNext(0, n);
    hide Slot, Armed;
  }

  lemma {:induction false} PassedOfPrefix(filled: seq<Frame>, more: seq<Frame>, fates: seq<Fate>)
    requires |fates| <= |filled|
    ensures PassedOf(filled + more, fates) == PassedOf(filled, fates)
  {
    if fates != [] { PassedOfPrefix(filled, more, fates[..|fates| - 1]); }
  }

  /** A fill changes position |filled| only. */
  lemma FillKeepsArmed(n: nat, s: State, f: Frame, k: nat)
    requires n >= 2 && Indices(s, n) && s.ring.hwIdx != s.ring.cpuIdx
    requires var c, p := |s.log.fates|, |s.log.filled|;
             c <= k < c + n && Armed(s, n, k) && Armed(s, n, p) &&
             (k != p ==> s.ring.skb[Slot(k, n)] != s.ring.skb[Slot(p, n)])
    ensures Sized(HwFill(s, f)) && Armed(HwFill(s, f), n, k)
  {
    var p := |s.log.filled|;
    if k < p { SlotsDistinct(k, p, n); }
    if p < k { SlotsDistinct(p, k, n); }
    SlotNext(p, n);
    hide Slot;
  }

  lemma BuffersDiffer(n: nat, s: State, k: nat, l: nat)
    requires n >= 2 && Indices(s, n) && Others(s, n) && Current(s, n)
    requires var c := |s.log.fates|; c <= k < c + n && c <= l < c + n && k != l
    requires k == |s.log.fates| || l == |s.log.fates| ==> s.phase.Idle? || s.phase.GotNew? || s.phase.Refused?
    ensures Slot(k, n) < n && Slot(l, n) < n && s.ring.skb[Slot(k, n)] != s.ring.skb[Slot(l, n)]
  {
    hide Slot, Armed;
  }

  lemma HwBehindCpu(n: nat, s: State)
    requires n >= 2 && Indices(s, n) && s.ring.hwIdx != s.ring.cpuIdx
    ensures |s.log.filled| < |s.log.fates| + n - 1
  {
    hide Slot;
  }

  lemma FillKeepsSlots(n: nat, s: State, f: Frame)
    requires Inv(n, s) && s.ring.hwIdx != s.ring.cpuIdx
    ensures var s' := HwFill(s, f); Indices(s', n) && Others(s', n) && Current(s', n)
  {
    hide Slot, Books, PassedOf, CountFate, Private, Distinct, Armed;
    var c, p := |s.log.fates|, |s.log.filled|;
    var s' := HwFill(s, f);
    HwBehindCpu(n, s);
    SlotNext(p, n);
    assert Armed(s, n, p) by { assert p == c || c < p; }
    forall k | c < k < c + n ensures Armed(s', n, k) {
      if k != p { BuffersDiffer(n, s, k, p); }
      FillKeepsArmed(n, s, f, k);
    }
    if Armed(s, n, c) && (s.phase.Idle? || s.phase.GotNew? || s.phase.Refused?) {
      if c != p { BuffersDiffer(n, s, c, p); }
      FillKeepsArmed(n, s, f, c);
    }
    if c < p { SlotsDistinct(c, p, n); }
  }

  lemma FillKeeps(n: nat, s: State, f: Frame)
    requires Inv(n, s)
    ensures Inv(n, HwFill(s, f))
  {
    hide Slot, PassedOf, CountFate, Private, Distinct;
    if s.ring.hwIdx != s.ring.cpuIdx {
      FillKeepsSlots(n, s, f);
      HwBehindCpu(n, s);
      PassedOfPrefix(s.log.filled, [f], s.log.fates);
      var p := |s.log.filled|;
      assert p == |s.log.fates| || Armed(s, n, p);
    }
  }

  /** Whatever happens to the CPU's slot leaves the others alone. */
  lemma OthersKept(n: nat, s: State, s': State)
    requires n >= 2 && Indices(s, n) && Others(s, n) && Sized(s') && N(s') == n
    requires s'.log.fates == s.log.fates && s'.log.filled == s.log.filled && s'.ring.mem == s.ring.mem
    requires forall i :: 0 <= i < n && i != Slot(|s.log.fates|, n) ==>
               s'.ring.skb[i] == s.ring.skb[i] && s'.ring.pdp[i] == s.ring.pdp[i] && s'.ring.done[i] == s.ring.done[i]
    requires forall b :: b in s'.log.held ==> b in s.log.held || Private(s.ring.skb, s.log.held, |s.log.fates|, b)
    ensures Others(s', n)
  {
    var c := |s.log.fates|;
    WindowSlots(c, n);
    hide Slot;
    forall k | c < k < c + n ensures Armed(s', n, k) { assert Armed(s, n, k); }
  }

  lemma PrivateKept(skb: seq<nat>, skb': seq<nat>, held: map<nat, Frame>, held': map<nat, Frame>, c: nat, b: nat)
    requires Private(skb, held, c, b) && |skb'| == |skb| && b !in held'
    requires forall i :: 0 <= i < |skb| && i != Slot(c, |skb|) ==> skb'[i] == skb[i]
    ensures Private(skb', held', c, b)
  {
    WindowSlots(c, |skb|);
    hide Slot;
  }

  /** A step of the receive loop that stays at the same position. */
  predicate Stays(p: Phase) { !p.Swapped? && !p.Recycled? }

  lemma StayKeepsSlots(n: nat, s: State, alloc: Option<nat>, built: bool)
    requires Inv(n, s) && Enabled(s, Cpu(alloc, built)) && Stays(s.phase)
    ensures var s' := CpuStep(s, alloc, built); Indices(s', n) && Others(s', n)
  {
    var s' := CpuStep(s, alloc, built);
    var c := |s.log.fates|;
    OthersKept(n, s, s') by { hide Slot, Armed, Distinct, Private, PassedOf, CountFate; }
    assert s.phase.Idle? ==> c < |s.log.filled|;
    hide Slot, Others, Armed, Distinct, Private, PassedOf, CountFate;
  }

  lemma StayKeepsCurrent(n: nat, s: State, alloc: Option<nat>, built: bool)
    requires Inv(n, s) && Enabled(s, Cpu(alloc, built)) && Stays(s.phase)
    ensures var s' := CpuStep(s, alloc, built); Sized(s') && N(s') == n && Current(s', n)
  {
    var s' := CpuStep(s, alloc, built);
    var r, h, c := s.ring, s.log.held, |s.log.fates|;
    match s.phase
    case Idle =>
      if alloc.Some? { FreshIsPrivate(n, s, alloc.value); }
    case GotNew(b) => PrivateKept(r.skb, r.skb, h, s'.log.held, c, b);
    case Cleared(b) => PrivateKept(r.skb, s'.ring.skb, h, h, c, b);
    case _ =>
      hide Slot, Others, Distinct, Private, PassedOf, CountFate, Books;
  }

  lemma FreshIsPrivate(n: nat, s: State, b: nat)
    requires n >= 2 && Indices(s, n) && !InUse(s, b)
    ensures Private(s.ring.skb, s.log.held, |s.log.fates|, b)
  {
    WindowSlots(|s.log.fates|, n);
    hide Slot;
  }

  /** Moving the CPU index on: the slot just armed becomes the last of the round, the next one the CPU's. */
  lemma AdvanceKeepsArmed(n: nat, s: State, alloc: Option<nat>, built: bool, k: nat)
    requires Inv(n, s) && Enabled(s, Cpu(alloc, built)) && !Stays(s.phase)
    requires |s.log.fates| < k <= |s.log.fates| + n
    ensures var s' := CpuStep(s, alloc, built); Indices(s', n) && Armed(s', n, k)
  {
    hide Slot, Books, PassedOf, CountFate, Distinct;
    var c := |s.log.fates|;
    SlotNext(c, n);
    SlotNext(c + 1, n);
    assert c + 1 + n - 1 == c + n;
    if k < c + n { assert Armed(s, n, k); }
  }

  lemma AdvanceKeepsDistinct(skb: seq<nat>, held: map<nat, Frame>, c: nat)
    requires |skb| >= 2 && Slot(c, |skb|) < |skb| && Distinct(skb, c)
    requires Private(skb, held, c, skb[Slot(c, |skb|)])
    ensures Slot(c + 1, |skb|) < |skb| && Distinct(skb, c + 1)
    ensures skb[Slot(c + 1, |skb|)] !in held ==> Private(skb, held, c + 1, skb[Slot(c + 1, |skb|)])
  {
    SlotNext(c, |skb|);
    SlotNext(c + 1, |skb|);
    hide Slot;
  }

  lemma AdvanceKeepsSlots(n: nat, s: State, alloc: Option<nat>, built: bool)
    requires Inv(n, s) && Enabled(s, Cpu(alloc, built)) && !Stays(s.phase)
    ensures var s' := CpuStep(s, alloc, built); Indices(s', n) && Others(s', n) && Current(s', n)
  {
    var c := |s.log.fates|;
    var s' := CpuStep(s, alloc, built);
    forall k | c < k <= c + n ensures Indices(s', n) && Armed(s', n, k) { AdvanceKeepsArmed(n, s, alloc, built, k); }
    assert Armed(s', n, c + 1);
    SlotNext(c, n);
    AdvanceKeepsDistinct(s.ring.skb, s.log.held, c);
    hide Slot, Books, PassedOf, CountFate, Private, Distinct, Armed, Indices;
  }

  lemma CpuKeepsBooks(n: nat, s: State, alloc: Option<nat>, built: bool)
    requires Inv(n, s) && Enabled(s, Cpu(alloc, built))
    ensures Books(CpuStep(s, alloc, built))
  {
    hide Slot, Others, Distinct, Private;
    var s' := CpuStep(s, alloc, built);
    if !Stays(s.phase) {
      assert s'.log.fates[..|s.log.fates|] == s.log.fates;
    }
  }

  lemma CpuKeeps(n: nat, s: State, alloc: Option<nat>, built: bool)
    requires Inv(n, s) && Enabled(s, Cpu(alloc, built))
    ensures Inv(n, CpuStep(s, alloc, built))
  {
    hide Indices, Others, Current, Books, CpuStep, Enabled;
    CpuKeepsBooks(n, s, alloc, built);
    if Stays(s.phase) {
      StayKeepsSlots(n, s, alloc, built);
      StayKeepsCurrent(n, s, alloc, built);
    } else {
      AdvanceKeepsSlots(n, s, alloc, built);
    }
  }

  lemma ReleaseKeeps(n: nat, s: State, b: nat)
    requires Inv(n, s) && Enabled(s, Release(b))
    ensures Inv(n, Next(s, Release(b)))
  {
    hide Slot, Distinct, PassedOf, CountFate;
    var s' := Next(s, Release(b));
    var c := |s.log.fates|;
    forall k | c < k < c + n ensures Armed(s', n, k) { assert Armed(s, n, k); }
  }

  lemma NextKeeps(n: nat, s: State, a: Action)
    requires Inv(n, s) && Enabled(s, a)
    ensures Inv(n, Next(s, a))
  {
    match a
    case Fill(f) => FillKeeps(n, s, f);
    case Cpu(alloc, built) => CpuKeeps(n, s, alloc, built);
    case Release(b) =>
      ReleaseKeeps(n, s, b);
      hide Inv, HwFill, CpuStep;
  }

  lemma {:induction false} RunKeeps(n: nat, acts: seq<Action>)
    requires n >= 2 && After(n, acts).At?
    ensures Inv(n, After(n, acts).s)
  {
    hide Next, Inv, Enabled;
    if acts == [] {
      InitInv(n);
    } else {
      RunKeeps(n, acts[..|acts| - 1]);
      NextKeeps(n, After(n, acts[..|acts| - 1]).s, acts[|acts| - 1]);
    }
  }

  lemma Extend(n: nat, acts: seq<Action>, a: Action)
    requires n >= 2 && After(n, acts).At? && Enabled(After(n, acts).s, a)
    ensures After(n, acts + [a]) == At(Next(After(n, acts).s, a))
  {
    assert (acts + [a])[..|acts|] == acts;
  }

  // ----- what holds in every run ------------------------------------------------------------------------

  /** Every completed descriptor is consumed exactly once and in ring order: the frames handed over are the
      completed frames whose fate is Passed, in the order the hardware completed them, plus the one whose slot
      is being armed again. */
  lemma RingOrder(n: nat, acts: seq<Action>)
    requires n >= 2 && After(n, acts).At?
    ensures var s := After(n, acts).s; var l := s.log;
            |l.fates| <= |l.filled| < |l.fates| + n && (HandingOver(s.phase) ==> |l.fates| < |l.filled|) &&
            l.delivered == PassedOf(l.filled, l.fates) + (if HandingOver(s.phase) then [l.filled[|l.fates|]] else [])
  {
    hide After, Others, Current, PassedOf;
    RunKeeps(n, acts);
  }

  lemma {:induction false} FatesAdd(fates: seq<Fate>)
    ensures CountFate(fates, Passed) + CountFate(fates, Dropped) + CountFate(fates, Discarded) == |fates|
    ensures CountFate(fates, Discarded) == 0 <==> Discarded !in fates
  {
    if fates != [] {
      FatesAdd(fates[..|fates| - 1]);
      assert fates == fates[..|fates| - 1] + [fates[|fates| - 1]];
    }
  }

  lemma {:induction false} PassedCount(filled: seq<Frame>, fates: seq<Fate>)
    requires |fates| <= |filled|
    ensures |PassedOf(filled, fates)| == CountFate(fates, Passed)
  {
    if fates != [] { PassedCount(filled, fates[..|fates| - 1]); }
  }

  /** Between two frames the counters account for every consumed descriptor if and only if build_skb never
      failed; each such failure takes one frame that no counter shows. */
  lemma PassedOrCountedIff(n: nat, acts: seq<Action>)
    requires n >= 2 && After(n, acts).At? && After(n, acts).s.phase.Idle?
    ensures var s := After(n, acts).s;
            && s.stats.packets + s.stats.dropped == |s.log.fates| - CountFate(s.log.fates, Discarded)
            && (s.stats.packets + s.stats.dropped == |s.log.fates| <==> Discarded !in s.log.fates)
  {
    hide After, Others, Current, PassedOf, CountFate;
    RunKeeps(n, acts);
    var l := After(n, acts).s.log;
    FatesAdd(l.fates);
    PassedCount(l.filled, l.fates);
  }

  /** Giving up a frame for want of an skb, in any reachable state: three steps of the receive loop consume it,
      and no counter moves. */
  lemma DiscardIsSilent(n: nat, acts: seq<Action>, b: nat)
    requires n >= 2 && After(n, acts).At? && After(n, acts).s.phase.Idle?
    requires Enabled(After(n, acts).s, Cpu(Some(b), false))
    ensures var o := After(n, acts + [Cpu(Some(b), false)] + [Cpu(None, true)] + [Cpu(None, true)]);
            var s := After(n, acts).s;
            o.At? && o.s.phase.Idle? && o.s.stats == s.stats && o.s.log == s.log.(fates := s.log.fates + [Discarded]) &&
            o.s.ring.skb == s.ring.skb && o.s.ring.pdp == s.ring.pdp
  {
    Extend(n, acts, Cpu(Some(b), false));
    Extend(n, acts + [Cpu(Some(b), false)], Cpu(None, true));
    Extend(n, acts + [Cpu(Some(b), false)] + [Cpu(None, true)], Cpu(None, true));
    hide After, Slot, InUse;
  }

  /** It does happen: the very first frame can be lost that way. */
  lemma DiscardHappens(n: nat, f: Frame)
    requires n >= 2
    ensures var o := After(n, [Fill(f)]);
            o.At? && o.s.phase.Idle? && o.s.log == Log(map[], [], [f], []) && Enabled(o.s, Cpu(Some(n), false))
  {
    Modulo.DivModUnique(n, n, 1, 0);
    Modulo.DivModUnique(1, n, 0, 1);
    Extend(n, [], Fill(f));
    assert [] + [Fill(f)] == [Fill(f)];
  }

  /** Outside the slot being served the driver and the hardware agree on every slot's buffer, no two slots share
      one, and none of them is in the hands of the stack. */
  lemma SlotBuffersApart(n: nat, acts: seq<Action>, i: nat, j: nat)
    requires n >= 2 && After(n, acts).At? && i < n && j < n && i != j
    requires var s := After(n, acts).s; s.phase.Idle? || (Sized(s) && i != Owner(s) && j != Owner(s))
    ensures var s := After(n, acts).s;
            Sized(s) && N(s) == n &&
            s.ring.skb[i] == s.ring.pdp[i] && s.ring.skb[i] !in s.log.held && s.ring.skb[i] != s.ring.skb[j]
  {
    hide After, Slot, Books, PassedOf, CountFate;
    RunKeeps(n, acts);
    var s := After(n, acts).s;
    var c := |s.log.fates|;
    var k, l := PositionOf(i, c, n), PositionOf(j, c, n);
    if k != c { assert Armed(s, n, k); }
    if l != c { assert Armed(s, n, l); }
    if k < l { assert s.ring.skb[Slot(k, n)] != s.ring.skb[Slot(l, n)]; }
    if l < k { assert s.ring.skb[Slot(l, n)] != s.ring.skb[Slot(k, n)]; }
  }

  /** The position in the round starting at c that lives in slot i. */
  ghost function PositionOf(i: nat, c: nat, n: nat): (k: nat)
    requires i < n
    ensures c <= k < c + n && Slot(k, n) == i
  {
    var q, r := c / n, c % n;
    if i >= r then
      (Modulo.AddMultiple(i, q, n); Modulo.DivModUnique(i, n, 0, i); q * n + i)
    else
      (Modulo.AddMultiple(i, q + 1, n); Modulo.DivModUnique(i, n, 0, i); Modulo.Distribute(q + 1, q, n);
       (q + 1) * n + i)
  }

  /** What the stack was handed stays as it was for as long as it holds the buffer. */
  lemma HeldFramesUntouched(n: nat, acts: seq<Action>, b: nat)
    requires n >= 2 && After(n, acts).At? && b in After(n, acts).s.log.held
    ensures var s := After(n, acts).s; b in s.ring.mem && s.ring.mem[b] == s.log.held[b]
  {
    hide After, Others, Current, PassedOf, CountFate;
    RunKeeps(n, acts);
  }

  /** The hardware writes only into a slot that is not done and whose buffer nobody holds, and it turns a frame
      away exactly when all slots but one are waiting to be consumed. */
  lemma HardwareWritesFreeSlot(n: nat, acts: seq<Action>, f: Frame)
    requires n >= 2 && After(n, acts).At?
    ensures var s := After(n, acts).s;
            Sized(s) && (HwFill(s, f) == s <==> |s.log.filled| == |s.log.fates| + n - 1) &&
            (HwFill(s, f) != s ==> !s.ring.done[s.ring.hwIdx] && s.ring.pdp[s.ring.hwIdx] !in s.log.held)
  {
    hide After, Slot, PassedOf, CountFate, Books;
    RunKeeps(n, acts);
    var s := After(n, acts).s;
    var c, p := |s.log.fates|, |s.log.filled|;
    if s.ring.hwIdx != s.ring.cpuIdx {
      HwBehindCpu(n, s);
      assert p == c || Armed(s, n, p);
      assert HwFill(s, f).log.filled == s.log.filled + [f];
    } else {
      SameSlot(p, c + n - 1, n);
    }
  }

  /** The receive loop finds the next slot not done exactly when nothing is left to consume. */
  lemma StopsWhenDrained(n: nat, acts: seq<Action>)
    requires n >= 2 && After(n, acts).At? && After(n, acts).s.phase.Idle?
    ensures var s := After(n, acts).s;
            Sized(s) && (!s.ring.done[Owner(s)] <==> |s.log.fates| == |s.log.filled|)
  {
    hide After, Slot, Others, Books, PassedOf, CountFate, Private;
    RunKeeps(n, acts);
  }
}
