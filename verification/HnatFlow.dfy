/** The flow table of the hardware NAT and the neighbour table (config/mtk2/kernel/ra_nat.c: PpeTxHandler with
    PpeFillInL2Info, PpeFillInL3Info, PpeFillInL4Info, PpeSetEntryBind; foe_clear_entry, wh2_netevent_handler),
    CONFIG_HNAT_V2 with IPv6, automatic mode.

    The transmit handler fills an entry from the packet it sends and then binds it; transmission is serialised, but
    neighbour updates may come in between. The class `FlowTable` of module HnatFlowTable is the same code in the
    source's own form. */
module HnatFlow {
  import opened HnatParse
  import opened Wrappers

  type Mac = m: seq<byte> | |m| == 6 witness [0, 0, 0, 0, 0, 0]

  datatype EntryState = Invalid | Unbind | Bind

  datatype EntryKind = V4 | DsLite | V6

  /** Layer 2 of an entry in the IPv4 layout. The table keeps the bytes of a MAC address in reverse, four and two. */
  datatype Link = Link(dmacHi: seq<byte>, dmacLo: seq<byte>, smac: Mac, vlan1: nat, vlan2: nat, etype: nat, pppoe: nat)

  datatype Net = Net(newSip: nat, newDip: nat, newSport: nat, newDport: nat, dscp: nat)

  datatype Control = Control(vlanLayer: nat, psn: bool, udp: bool, dp: nat, actDp: nat)

  /** For a kind other than V4, link and net are whatever the words at the IPv4 offsets of the entry spell. */
  datatype Entry = Entry(state: EntryState, kind: EntryKind, link: Link, net: Net, control: Control)

  /** What the parser found in a packet that is being sent. */
  datatype Packet = Packet(info: Info, vlanTag: nat, sip: nat, dip: nat, sport: nat, dport: nat, tos: nat, udp: bool)

  /** The output port and the tags it wants. */
  datatype PortChoice = PortChoice(dp: nat, vlan1: nat, vlan2: nat, etype: nat, vlanLayer: nat)

  /** What the rest of the driver contributes: the words a fill in another layout leaves at the IPv4 offsets, the
      verdict and output of the port selection, and the device's table index. */
  datatype Surroundings = Surroundings(linkNoise: Link, netNoise: Net, port: Option<PortChoice>, index: Option<nat>)

  datatype State = State(foe: seq<Entry>, neigh: map<nat, Mac>, filled: Option<nat>)

  datatype Action =
    | Fill(i: nat, p: Packet, sur: Surroundings)  // the transmit handler up to the binding
    | SetBind                                     // PpeSetEntryBind
    | Neighbour(ip: nat, mac: Mac, dev: bool)     // a neighbour update and its notifier call
    | Forget(ip: nat)                             // a neighbour record goes away
    | Rewrite(i: nat, e: Entry)                   // an entry that is not bound changes: the hardware starts a flow
                                                  // in it, or a transmit handler gives up half way
    | Age(i: nat)                                 // the hardware gives up a bound entry

  // ----- the entry ----------------------------------------------------------------------------------------

  function Hi(m: Mac): seq<byte> { [m[3], m[2], m[1], m[0]] }

  function Lo(m: Mac): seq<byte> { [m[5], m[4]] }

  /** The destination address in an entry's link part. */
  predicate Holds(l: Link, m: Mac) { l.dmacHi == Hi(m) && l.dmacLo == Lo(m) }

  /** The comparison of foe_clear_entry, byte by byte. */
  predicate Differs(l: Link, m: Mac)
    requires |l.dmacHi| == 4 && |l.dmacLo| == 2
  {
    l.dmacHi[3] != m[0] || l.dmacHi[2] != m[1] || l.dmacHi[1] != m[2] || l.dmacHi[0] != m[3] ||
    l.dmacLo[1] != m[4] || l.dmacLo[0] != m[5]
  }

  predicate Shaped(e: Entry) { |e.link.dmacHi| == 4 && |e.link.dmacLo| == 2 }

  lemma DiffersIff(l: Link, m: Mac)
    requires |l.dmacHi| == 4 && |l.dmacLo| == 2
    ensures Differs(l, m) <==> !Holds(l, m)
  {
    if !Differs(l, m) {
      assert l.dmacHi == Hi(m) && l.dmacLo == Lo(m);
    }
  }

  predicate Is4(p: Packet) { p.info.kind == Ipv4Hnapt }

  /** The entry after PpeFillInL2Info, L3Info, L4Info, PpeSetForcePortInfo and PpeSetExtIfNum, all successful. */
  function Filled(e: Entry, p: Packet, sur: Surroundings): Entry
    requires |p.info.dmac| == 6 == |p.info.smac| && sur.port.Some? && sur.index.Some?
  {
    var port := sur.port.value;
    var control := Control(port.vlanLayer, p.info.session.Some?,
                           if Is4(p) && e.kind != DsLite then p.udp else e.control.udp, port.dp, sur.index.value);
    if Is4(p) && e.kind != DsLite then
      e.(link := Link(Hi(p.info.dmac), Lo(p.info.dmac), p.info.smac, port.vlan1, port.vlan2, port.etype,
                      if p.info.session.Some? then p.info.session.value else 0),
         net := Net(p.sip, p.dip, p.sport, p.dport, p.tos), control := control)
    else
      e.(kind := if p.info.kind == Ipv4Dslite then DsLite else e.kind, link := sur.linkNoise, net := sur.netNoise,
         control := control)
  }

  // ----- the machine ----------------------------------------------------------------------------------------

  function Blank(): Entry {
    Entry(Invalid, V4, Link([0, 0, 0, 0], [0, 0], [0, 0, 0, 0, 0, 0], 0, 0, 0, 0), Net(0, 0, 0, 0, 0),
          Control(0, false, false, 0, 0))
  }

  function Init(n: nat): State { State(seq(n, i => Blank()), map[], None) }

  /** foe_clear_entry. */
  function Cleared(foe: seq<Entry>, ip: nat, mac: Mac): seq<Entry> {
    seq(|foe|, i requires 0 <= i < |foe| =>
      if foe[i].state == Bind && foe[i].net.newDip == ip && !Holds(foe[i].link, mac) then foe[i].(state := Invalid)
      else foe[i])
  }

  predicate Enabled(s: State, a: Action) {
    match a
    case Fill(i, p, sur) =>
      s.filled.None? && i < |s.foe| && |p.info.dmac| == 6 == |p.info.smac| && sur.port.Some? && sur.index.Some? &&
      |sur.linkNoise.dmacHi| == 4 && |sur.linkNoise.dmacLo| == 2 && s.foe[i].state != Bind
    case SetBind => s.filled.Some? && s.filled.value < |s.foe|
    case Rewrite(i, e) => i < |s.foe| && s.foe[i].state != Bind && s.filled != Some(i) && e.state != Bind && Shaped(e)
    case Age(i) => i < |s.foe| && s.foe[i].state == Bind
    case _ => true
  }

  function Next(s: State, a: Action): State
    requires Enabled(s, a)
  {
    match a
    case Fill(i, p, sur) => s.(foe := s.foe[i := Filled(s.foe[i], p, sur)], filled := Some(i))
    case SetBind => s.(foe := s.foe[s.filled.value := s.foe[s.filled.value].(state := Bind)], filled := None)
    case Neighbour(ip, mac, dev) =>
      s.(neigh := s.neigh[ip := mac], foe := if dev then Cleared(s.foe, ip, mac) else s.foe)
    case Forget(ip) => s.(neigh := s.neigh - {ip})
    case Rewrite(i, e) => s.(foe := s.foe[i := e])
    case Age(i) => s.(foe := s.foe[i := s.foe[i].(state := Invalid)])
  }

  datatype Outcome = Stuck | At(s: State)

  function After(n: nat, acts: seq<Action>): Outcome {
    if acts == [] then At(Init(n)) else
      match After(n, acts[..|acts| - 1])
      case Stuck => Stuck
      case At(m) => if Enabled(m, acts[|acts| - 1]) then At(Next(m, acts[|acts| - 1])) else Stuck
  }

  // ----- agreement with the neighbour table -----------------------------------------------------------------

  /** If entry i is of IPv4 and its destination has a neighbour record, it holds that neighbour's address. */
  predicate EntryAgrees(s: State, i: nat)
    requires i < |s.foe|
  {
    var e := s.foe[i];
    e.kind == V4 && e.net.newDip in s.neigh ==> Holds(e.link, s.neigh[e.net.newDip])
  }

  /** Every bound IPv4 entry agrees with the neighbour table. */
  ghost predicate Agrees(s: State) {
    forall i :: 0 <= i < |s.foe| && s.foe[i].state == Bind ==> EntryAgrees(s, i)
  }

  /** What agreement asks of the next step. A packet that is filed as IPv4 carries the current address of its
      destination, if that is on-link; one of another layout does not happen to spell a wrong address in an entry the
      hardware filed under IPv4. A neighbour update does not overtake the binding, and without a device it
      contradicts no bound entry. */
  predicate Orderly(s: State, a: Action)
    requires Enabled(s, a)
  {
    match a
    case Fill(i, p, sur) =>
      if s.foe[i].kind != V4 || p.info.kind == Ipv4Dslite then true
      else if Is4(p) then p.dip in s.neigh ==> p.info.dmac == s.neigh[p.dip]
      else sur.netNoise.newDip in s.neigh ==> Holds(sur.linkNoise, s.neigh[sur.netNoise.newDip])
    case Neighbour(ip, mac, dev) => !Overtakes(s, ip, mac) && (dev || !Contradicts(s, ip, mac))
    case _ => true
  }

  /** A bound entry holds another address for this destination. */
  predicate Contradicts(s: State, ip: nat, mac: Mac) {
    exists i :: 0 <= i < |s.foe| && s.foe[i].state == Bind && s.foe[i].kind == V4 && s.foe[i].net.newDip == ip &&
                !Holds(s.foe[i].link, mac)
  }

  /** The update changes the address of the destination of the entry that is about to be bound. */
  predicate Overtakes(s: State, ip: nat, mac: Mac) {
    s.filled.Some? && s.filled.value < |s.foe| &&
    var e := s.foe[s.filled.value];
    e.kind == V4 && e.net.newDip == ip && !Holds(e.link, mac)
  }

  predicate OrderlyRun(n: nat, acts: seq<Action>)
    requires After(n, acts).At?
  {
    acts == [] ||
    (OrderlyRun(n, acts[..|acts| - 1]) && Orderly(After(n, acts[..|acts| - 1]).s, acts[|acts| - 1]))
  }

  ghost predicate Inv(s: State) {
    && (forall i :: 0 <= i < |s.foe| ==> Shaped(s.foe[i]))
    && (s.filled.Some? ==> s.filled.value < |s.foe| && s.foe[s.filled.value].state != Bind)
  }

  ghost predicate Fresh(s: State) {
    && Agrees(s)
    && (s.filled.Some? && s.filled.value < |s.foe| ==> EntryAgrees(s, s.filled.value))
  }

  lemma InitInv(n: nat)
    ensures Inv(Init(n)) && Fresh(Init(n))
  {
  }

  lemma NextKeeps(s: State, a: Action)
    requires Inv(s) && Enabled(s, a)
    ensures Inv(Next(s, a))
  {
  }

  /** The filled entry agrees exactly if the fill was orderly. */
  lemma FillIff(s: State, a: Action)
    requires Inv(s) && Fresh(s) && Enabled(s, a) && a.Fill?
    ensures Fresh(Next(s, a)) <==> Orderly(s, a)
  {
    var s' := Next(s, a);
    if a.p.dip in s.neigh && Holds(Filled(s.foe[a.i], a.p, a.sur).link, s.neigh[a.p.dip]) && Is4(a.p) &&
       s.foe[a.i].kind == V4 {
      HoldsOne(s'.foe[a.i].link, a.p.info.dmac, s.neigh[a.p.dip]);
    }
    assert forall k :: 0 <= k < |s.foe| && k != a.i ==> s'.foe[k] == s.foe[k];
    assert EntryAgrees(s', a.i) <==> Orderly(s, a);
    assert forall k :: 0 <= k < |s.foe| && k != a.i && EntryAgrees(s, k) ==> EntryAgrees(s', k);
    hide EntryAgrees, Filled, Orderly;
  }

  lemma NeighbourIff(s: State, ip: nat, mac: Mac, dev: bool)
    requires Inv(s) && Fresh(s)
    ensures Fresh(Next(s, Neighbour(ip, mac, dev))) <==> Orderly(s, Neighbour(ip, mac, dev))
  {
    var s' := Next(s, Neighbour(ip, mac, dev));
    if !dev && Contradicts(s, ip, mac) {
      var i :| 0 <= i < |s.foe| && s.foe[i].state == Bind && s.foe[i].kind == V4 && s.foe[i].net.newDip == ip &&
               !Holds(s.foe[i].link, mac);
      assert s'.foe[i] == s.foe[i] && !EntryAgrees(s', i);
    }
    if Overtakes(s, ip, mac) {
      assert s'.foe[s.filled.value] == s.foe[s.filled.value] && !EntryAgrees(s', s.filled.value);
    }
    if Orderly(s, Neighbour(ip, mac, dev)) {
      forall i | 0 <= i < |s'.foe| && (s'.foe[i].state == Bind || s.filled == Some(i)) ensures EntryAgrees(s', i) {
        assert EntryAgrees(s, i);
      }
    }
  }

  /** Agreement of a step's outcome, the entry about to be bound included, is exactly its being orderly. */
  lemma OrderlyIff(s: State, a: Action)
    requires Inv(s) && Fresh(s) && Enabled(s, a)
    ensures Fresh(Next(s, a)) <==> Orderly(s, a)
  {
    match a
    case Fill(_, _, _) => FillIff(s, a);
    case Neighbour(ip, mac, dev) => NeighbourIff(s, ip, mac, dev);
    case _ =>
  }

  lemma {:induction false} RunKeeps(n: nat, acts: seq<Action>)
    requires After(n, acts).At?
    ensures Inv(After(n, acts).s)
  {
    hide Next, Inv, Enabled;
    if acts == [] {
      InitInv(n);
    } else {
      RunKeeps(n, acts[..|acts| - 1]);
      NextKeeps(After(n, acts[..|acts| - 1]).s, acts[|acts| - 1]);
    }
  }

  ghost predicate AlwaysFresh(n: nat, acts: seq<Action>)
    requires After(n, acts).At?
  {
    Fresh(After(n, acts).s) && (acts != [] ==> AlwaysFresh(n, acts[..|acts| - 1]))
  }

  /** Over a whole run the table, with the entry about to be bound, always agrees with the neighbour table if and only
      if every step is orderly. */
  lemma {:induction false} AlwaysFreshIff(n: nat, acts: seq<Action>)
    requires After(n, acts).At?
    ensures AlwaysFresh(n, acts) <==> OrderlyRun(n, acts)
  {
    hide Next, Inv, Enabled, Fresh, Orderly;
    if acts == [] {
      InitInv(n);
    } else {
      var before := acts[..|acts| - 1];
      AlwaysFreshIff(n, before);
      RunKeeps(n, before);
      if AlwaysFresh(n, before) { OrderlyIff(After(n, before).s, acts[|acts| - 1]); }
    }
  }

  lemma Extend(n: nat, acts: seq<Action>, a: Action)
    requires After(n, acts).At? && Enabled(After(n, acts).s, a)
    ensures After(n, acts + [a]) == At(Next(After(n, acts).s, a))
    ensures OrderlyRun(n, acts + [a]) <==> OrderlyRun(n, acts) && Orderly(After(n, acts).s, a)
  {
    hide Next, Orderly, Enabled;
    assert (acts + [a])[..|acts|] == acts;
  }

  // ----- what holds in every run ------------------------------------------------------------------------

  /** After any orderly run every bound IPv4 entry whose destination has a neighbour record holds that
      neighbour's current address, in the byte order of the table. */
  lemma FlowCacheAgrees(n: nat, acts: seq<Action>, i: nat)
    requires After(n, acts).At? && OrderlyRun(n, acts) && i < |After(n, acts).s.foe|
    requires var e := After(n, acts).s.foe[i]; e.state == Bind && e.kind == V4 && e.net.newDip in After(n, acts).s.neigh
    ensures var s := After(n, acts).s; var l, m := s.foe[i].link, s.neigh[s.foe[i].net.newDip];
            l.dmacHi == [m[3], m[2], m[1], m[0]] && l.dmacLo == [m[5], m[4]]
  {
    hide After, OrderlyRun;
    AlwaysFreshIff(n, acts);
  }

  /** In any run a bound entry changes only when the hardware gives it up or a neighbour update contradicts it, and
      then only its state. The transmit handler never touches it. */
  lemma BoundEntriesFrozen(n: nat, acts: seq<Action>, a: Action, i: nat)
    requires After(n, acts).At? && Enabled(After(n, acts).s, a)
    requires i < |After(n, acts).s.foe| && After(n, acts).s.foe[i].state == Bind
    ensures var s := After(n, acts).s; var e := s.foe[i];
            var dropped := a == Age(i) || (a.Neighbour? && a.dev && e.net.newDip == a.ip && !Holds(e.link, a.mac));
            i < |Next(s, a).foe| && Next(s, a).foe[i] == if dropped then e.(state := Invalid) else e
  {
    RunKeeps(n, acts);
    hide After, Holds, Filled;
  }

  /** The order of events matters: with an agreeing table and a filled entry, a neighbour update followed by the
      binding leaves an agreeing table if and only if the update did not overtake the binding. */
  lemma UpdateThenBindIff(s: State, ip: nat, mac: Mac)
    requires Inv(s) && Fresh(s) && s.filled.Some?
    ensures var t := Next(s, Neighbour(ip, mac, true));
            Enabled(t, SetBind) && (Agrees(Next(t, SetBind)) <==> !Overtakes(s, ip, mac))
  {
    var t := Next(s, Neighbour(ip, mac, true));
    if Overtakes(s, ip, mac) {
      var k := s.filled.value;
      assert Next(t, SetBind).foe[k].state == Bind && !EntryAgrees(Next(t, SetBind), k);
    } else {
      NextKeeps(s, Neighbour(ip, mac, true));
      OrderlyIff(s, Neighbour(ip, mac, true));
      OrderlyIff(t, SetBind);
    }
  }

  /** It does happen: fill, neighbour update, bind, and the entry is bound with the old address. */
  lemma StaleBindHappens(p: Packet, sur: Surroundings, mac: Mac)
    requires Is4(p) && |p.info.dmac| == 6 == |p.info.smac| && p.info.dmac != mac
    requires sur.port.Some? && sur.index.Some? && |sur.linkNoise.dmacHi| == 4 && |sur.linkNoise.dmacLo| == 2
    ensures var o := After(1, [Fill(0, p, sur), Neighbour(p.dip, mac, true), SetBind]);
            o.At? && !Agrees(o.s)
  {
    var a, b, c := Fill(0, p, sur), Neighbour(p.dip, mac, true), SetBind;
    Extend(1, [], a);
    assert [] + [a] == [a] && [a] + [b] == [a, b] && [a, b] + [c] == [a, b, c];
    Extend(1, [a], b);
    Extend(1, [a, b], c);
    hide After;
    var s := Next(Init(1), a);
    assert Holds(s.foe[0].link, p.info.dmac);
    if Holds(s.foe[0].link, mac) { HoldsOne(s.foe[0].link, p.info.dmac, mac); }
    assert Overtakes(s, p.dip, mac);
    var t := Next(Next(s, b), c);
    assert t.foe[0].state == Bind && !EntryAgrees(t, 0);
  }

  lemma HoldsOne(l: Link, m: Mac, m': Mac)
    requires Holds(l, m) && Holds(l, m')
    ensures m == m'
  {
    assert l.dmacHi[0] == m[3] == m'[3] && l.dmacHi[1] == m[2] == m'[2] && l.dmacHi[2] == m[1] == m'[1];
    assert l.dmacHi[3] == m[0] == m'[0] && l.dmacLo[0] == m[5] == m'[5] && l.dmacLo[1] == m[4] == m'[4];
  }
}
