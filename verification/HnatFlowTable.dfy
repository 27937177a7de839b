/** PpeTxHandler, foe_clear_entry and wh2_netevent_handler of config/mtk2/kernel/ra_nat.c in their own form, on the
    flow table as an array. Every method is a run of the machine of module HnatFlow. */
module HnatFlowTable {
  import HnatFrame
  import opened HnatParse
  import opened HnatFlow
  import opened Wrappers

  function U32(f: seq<byte>, i: nat): nat { 0x10000 * U16(f, i) + U16(f, i + 2) }

  /** What the transmit handler takes from an accepted frame. */
  function PacketOf(f: seq<byte>): Packet
    requires Parse(f).Accepted?
  {
    var info := Parse(f).info;
    var tag := if info.tags == [] then 0 else ETH_P_8021Q;
    if info.kind != Ipv4Hnapt || info.l4.None? then Packet(info, tag, 0, 0, 0, 0, 0, false)
    else Packet(info, tag, U32(f, info.l3 + 12), U32(f, info.l3 + 16), U16(f, info.l4.value), U16(f, info.l4.value + 2),
                ByteAt(f, info.l3 + 1), ByteAt(f, info.l3 + 9) == IPPROTO_UDP)
  }

  lemma Accepted4HasPorts(f: seq<byte>)
    requires Parse(f).Accepted? && Parse(f).info.kind == Ipv4Hnapt
    ensures ByteAt(f, Parse(f).info.l3 + 9) in {IPPROTO_TCP, IPPROTO_UDP} && Parse(f).info.l4.Some?
  {
    hide Tags, U16, Bytes, Unfragmented;
  }

  lemma AcceptedMacs(f: seq<byte>)
    requires Parse(f).Accepted?
    ensures |Parse(f).info.dmac| == 6 == |Parse(f).info.smac|
  {
    hide Tags, U16, Unfragmented;
  }

  lemma FieldsOf(f: seq<byte>, i: nat, n: nat, k: nat)
    requires k + 2 <= n
    ensures ByteAt(Bytes(f, i, n), k) == ByteAt(f, i + k) && U16(Bytes(f, i, n), k) == U16(f, i + k)
  {
  }

  lemma AddressesOf(f: seq<byte>, l3: nat)
    ensures var iph := Bytes(f, l3, 20);
            iph[1] == ByteAt(f, l3 + 1) && U32(iph, 12) == U32(f, l3 + 12) && U32(iph, 16) == U32(f, l3 + 16)
  {
    hide U16, Bytes;
    FieldsOf(f, l3, 20, 1);
    FieldsOf(f, l3, 20, 12);
    FieldsOf(f, l3, 20, 14);
    FieldsOf(f, l3, 20, 16);
    FieldsOf(f, l3, 20, 18);
  }

  /** The last slot that holds dev: PpeSetExtIfNum does not stop at the first. */
  function LastPort(ports: seq<Option<nat>>, dev: nat): (r: Option<nat>)
    ensures r.None? ==> Some(dev) !in ports
    ensures r.Some? ==> r.value < |ports| && ports[r.value] == Some(dev) &&
                        forall k :: r.value < k < |ports| ==> ports[k] != Some(dev)
  {
    if ports == [] then None
    else if ports[|ports| - 1] == Some(dev) then Some(|ports| - 1) else LastPort(ports[..|ports| - 1], dev)
  }

  // ----- what a bound entry says ------------------------------------------------------------------------------

  /** A packet whose flow the hardware can take over in the IPv4 layout, with the ports in it. */
  predicate Ipv4Flow(q: HnatFrame.Packet) {
    HnatFrame.WellFormed(q) && HnatFrame.Speedable(q) && q.v4 && |q.body| >= 4 * (q.body[0] % 16) + 4
  }

  /** Fields of two and four bytes, the most significant one first. */
  function TwoBytes(b0: nat, b1: nat): nat { 256 * b0 + b1 }

  function FourBytes(b0: nat, b1: nat, b2: nat, b3: nat): nat { 0x1000000 * b0 + 0x10000 * b1 + 0x100 * b2 + b3 }

  /** A bound entry in the IPv4 layout carries what the packet's bytes say (sections 3.1 of RFC 791 and RFC 793), the
      port with its tags, and the table index of the device. */
  predicate Carries(e: Entry, q: HnatFrame.Packet, port: PortChoice, index: nat)
    requires Ipv4Flow(q)
  {
    var b, h := q.body, 4 * (q.body[0] % 16);
    && e.state == Bind
    && e.net.newSip == FourBytes(b[12], b[13], b[14], b[15])
    && e.net.newDip == FourBytes(b[16], b[17], b[18], b[19])
    && e.net.newSport == TwoBytes(b[h], b[h + 1]) && e.net.newDport == TwoBytes(b[h + 2], b[h + 3])
    && e.net.dscp == b[1] && (e.control.udp <==> b[9] == 17)
    && e.link.dmacHi == [q.dmac[3], q.dmac[2], q.dmac[1], q.dmac[0]] && e.link.dmacLo == [q.dmac[5], q.dmac[4]]
    && e.link.smac == q.smac
    && (e.control.psn <==> q.session.Some?)
    && e.link.pppoe == (if q.session.Some? then q.session.value.sid else 0)
    && e.link.vlan1 == port.vlan1 && e.link.vlan2 == port.vlan2 && e.link.etype == port.etype
    && e.control.vlanLayer == port.vlanLayer && e.control.dp == port.dp && e.control.actDp == index
  }

  /** Two and four bytes of the network packet where the frame has them. */
  lemma TwoFound(q: HnatFrame.Packet, i: nat)
    requires HnatFrame.WellFormed(q) && i + 2 <= |q.body|
    ensures U16(HnatFrame.Print(q), HnatFrame.Layer3Of(q) + i) == TwoBytes(q.body[i], q.body[i + 1])
    ensures ByteAt(HnatFrame.Print(q), HnatFrame.Layer3Of(q) + i) == q.body[i]
  {
    HnatFrame.BodyAt(q, i);
    hide HnatFrame.Print, HnatFrame.Layer3Of, HnatFrame.WellFormed;
  }

  lemma FourFound(q: HnatFrame.Packet, i: nat)
    requires HnatFrame.WellFormed(q) && i + 4 <= |q.body|
    ensures U32(HnatFrame.Print(q), HnatFrame.Layer3Of(q) + i) ==
            FourBytes(q.body[i], q.body[i + 1], q.body[i + 2], q.body[i + 3])
  {
    hide HnatFrame.Print, HnatFrame.Layer3Of, HnatFrame.WellFormed, U16, ByteAt;
    TwoFound(q, i);
    TwoFound(q, i + 2);
  }

  lemma FlowIsLongEnough(q: HnatFrame.Packet)
    requires Ipv4Flow(q)
    ensures |q.body| >= 20
  {
  }

  /** What the transmit handler takes from a printed packet. */
  lemma PacketOfPrint(q: HnatFrame.Packet)
    requires Ipv4Flow(q)
    ensures var f := HnatFrame.Print(q);
            Parse(f).Accepted? &&
            var p, b, h := PacketOf(f), q.body, 4 * (q.body[0] % 16);
            && p.info == HnatFrame.InfoOf(q)
            && p.sip == FourBytes(b[12], b[13], b[14], b[15]) && p.dip == FourBytes(b[16], b[17], b[18], b[19])
            && p.sport == TwoBytes(b[h], b[h + 1]) && p.dport == TwoBytes(b[h + 2], b[h + 3])
            && p.tos == b[1] && (p.udp <==> b[9] == 17)
  {
    FlowIsLongEnough(q);
    hide Parse, HnatFrame.Print, HnatFrame.Speedable, HnatFrame.WellFormed, U16, U32, FourBytes, TwoBytes, ByteAt;
    var h := 4 * (q.body[0] % 16);
    HnatFrame.ParseAfterPrint(q);
    TwoFound(q, 1);
    TwoFound(q, 9);
    FourFound(q, 12);
    FourFound(q, 16);
    TwoFound(q, h);
    TwoFound(q, h + 2);
  }

  lemma FilledKind(e: Entry, p: Packet, sur: Surroundings)
    requires |p.info.dmac| == 6 == |p.info.smac| && sur.port.Some? && sur.index.Some?
    ensures var g := Filled(e, p, sur);
            && g.kind == (if p.info.kind == Ipv4Dslite then DsLite else e.kind)
            && g.control.actDp == sur.index.value && g.state == e.state
  {
  }

  lemma InfoOfPacket(f: seq<byte>)
    requires Parse(f).Accepted?
    ensures PacketOf(f).info == Parse(f).info
  {
    hide Parse, U32, U16, ByteAt;
  }

  /** Filling and binding make an entry that carries the packet. */
  lemma FilledCarries(e: Entry, q: HnatFrame.Packet, sur: Surroundings)
    requires Ipv4Flow(q) && e.kind != DsLite && sur.port.Some? && sur.index.Some?
    ensures var f := HnatFrame.Print(q);
            Parse(f).Accepted? && |PacketOf(f).info.dmac| == 6 == |PacketOf(f).info.smac| &&
            Carries(Filled(e, PacketOf(f), sur).(state := Bind), q, sur.port.value, sur.index.value)
  {
    PacketOfPrint(q);
    hide Parse, PacketOf, HnatFrame.Print, HnatFrame.Speedable;
  }

  // ----- one fill after the other -----------------------------------------------------------------------------

  predicate Plain4(e: Entry, p: Packet) { Is4(p) && e.kind != DsLite }

  function WithL2(e: Entry, p: Packet, noise: Link): Entry
    requires |p.info.dmac| == 6 == |p.info.smac|
  {
    var tags := p.info.tags;
    e.(link := if Plain4(e, p)
               then Link(Hi(p.info.dmac), Lo(p.info.dmac), p.info.smac, if |tags| >= 1 then tags[0] else 0,
                         if |tags| >= 2 then tags[1] else 0, p.vlanTag,
                         if p.info.session.Some? then p.info.session.value else 0)
               else noise,
       control := e.control.(vlanLayer := |tags|, psn := p.info.session.Some?))
  }

  function WithL3(e: Entry, p: Packet, noise: Net): Entry {
    if Plain4(e, p) then e.(net := e.net.(newSip := p.sip, newDip := p.dip, dscp := p.tos))
    else e.(kind := if p.info.kind == Ipv4Dslite then DsLite else e.kind, net := noise)
  }

  function WithL4(e: Entry, p: Packet): Entry {
    if Plain4(e, p) then
      e.(net := e.net.(newSport := p.sport, newDport := p.dport), control := e.control.(udp := p.udp))
    else
      e
  }

  function WithPort(e: Entry, p: Packet, port: PortChoice): Entry {
    e.(link := if Plain4(e, p) then e.link.(vlan1 := port.vlan1, vlan2 := port.vlan2, etype := port.etype) else e.link,
       control := e.control.(dp := port.dp, vlanLayer := port.vlanLayer))
  }

  /** The fills together are the single step of the machine. */
  lemma FillsCompose(e: Entry, p: Packet, sur: Surroundings)
    requires |p.info.dmac| == 6 == |p.info.smac| && sur.port.Some? && sur.index.Some?
    ensures var e4 := WithL4(WithL3(WithL2(e, p, sur.linkNoise), p, sur.netNoise), p);
            var e5 := WithPort(e4, p, sur.port.value);
            e5.(control := e5.control.(actDp := sur.index.value)) == Filled(e, p, sur)
  {
  }

  class FlowTable {
    const foe: array<Entry>            // PpeFoeBase
    ghost var neigh: map<nat, Mac>     // the kernel's neighbour table
    ghost var filled: Option<nat>
    ghost var trace: seq<Action>

    ghost function Machine(): State
      reads this, foe
    {
      State(foe[..], neigh, filled)
    }

    ghost predicate Valid()
      reads this, foe
    {
      After(foe.Length, trace) == At(Machine())
    }

    constructor (size: nat)
      ensures Valid() && foe.Length == size && Machine() == Init(size) && fresh(foe)
    {
      foe := new Entry[size](i => Blank());
      neigh, filled, trace := map[], None, [];
      new;
      assert foe[..] == Init(size).foe;
    }

    /** The table has just been changed the way action `a` changes it: record the action. */
    ghost method Commit(s: State, a: Action)
      requires After(foe.Length, trace) == At(s) && Enabled(s, a) && foe[..] == Next(s, a).foe
      modifies `neigh, `filled, `trace
      ensures Valid() && Machine() == Next(s, a) && trace == old(trace) + [a]
    {
      Extend(foe.Length, trace, a);
      neigh, filled, trace := Next(s, a).neigh, Next(s, a).filled, trace + [a];
    }

    /** Neighbour updates and the hardware, while the transmit handler holds the transmit lock. */
    method Events()
      requires Valid()
      modifies this, foe
      ensures Valid() && old(trace) <= trace && filled == old(filled)
      ensures filled.Some? && filled.value < foe.Length ==> foe[filled.value] == old(foe[..])[filled.value]
    {
    }

    // The fills work on an entry that is not bound; only PpeFillInL2Info checks that.

    method FillInL2Info(i: nat, p: Packet, noise: Link) returns (r: int)
      requires i < foe.Length && |p.info.dmac| == 6 == |p.info.smac|
      modifies foe
      ensures r == if old(foe[i]).state == Bind then 1 else 0
      ensures foe[..] == if r == 0 then old(foe[..])[i := WithL2(old(foe[i]), p, noise)] else old(foe[..])
      ensures r == 0 ==>
                var l, tags := foe[i].link, p.info.tags;
                && foe[i].control.vlanLayer == |tags| && (foe[i].control.psn <==> p.info.session.Some?)
                && foe[i].net == old(foe[i]).net && foe[i].kind == old(foe[i]).kind
                && if p.info.kind == Ipv4Hnapt && old(foe[i]).kind != DsLite
                   then l.dmacHi == [p.info.dmac[3], p.info.dmac[2], p.info.dmac[1], p.info.dmac[0]] &&
                        l.dmacLo == [p.info.dmac[5], p.info.dmac[4]] && l.smac == p.info.smac &&
                        l.vlan1 == (if tags == [] then 0 else tags[0]) &&
                        l.vlan2 == (if |tags| <= 1 then 0 else tags[1]) && l.etype == p.vlanTag &&
                        l.pppoe == (if p.info.session.Some? then p.info.session.value else 0)
                   else l == noise
    {
      if foe[i].state == Bind { return 1; }
      var e := foe[i];
      if p.info.kind == Ipv4Hnapt {
        if e.kind == DsLite {
          e := e.(link := noise);
        } else {
          var vlan1 := if |p.info.tags| >= 1 then p.info.tags[0] else 0;
          var vlan2 := if |p.info.tags| >= 2 then p.info.tags[1] else 0;
          var sid := if p.info.session.Some? then p.info.session.value else 0;
          e := e.(link := e.link.(dmacHi := Hi(p.info.dmac), dmacLo := Lo(p.info.dmac), smac := p.info.smac));
          e := e.(link := e.link.(vlan1 := vlan1, pppoe := sid, vlan2 := vlan2, etype := p.vlanTag));
        }
      } else {
        e := e.(link := noise);
      }
      foe[i] := e.(control := e.control.(vlanLayer := |p.info.tags|, psn := p.info.session.Some?));
      return 0;
    }

    method FillInL3Info(i: nat, p: Packet, noise: Net)
      requires i < foe.Length
      modifies foe
      ensures foe[..] == old(foe[..])[i := WithL3(old(foe[i]), p, noise)]
      ensures foe[i].kind == if p.info.kind == Ipv4Dslite then DsLite else old(foe[i]).kind
      ensures if p.info.kind == Ipv4Hnapt && old(foe[i]).kind != DsLite
              then foe[i].net.newSip == p.sip && foe[i].net.newDip == p.dip && foe[i].net.dscp == p.tos
              else foe[i].net == noise
    {
      var e := foe[i];
      if p.info.kind == Ipv4Hnapt {
        if e.kind == DsLite {
          foe[i] := e.(net := noise);
        } else {
          foe[i] := e.(net := e.net.(newSip := p.sip, newDip := p.dip, dscp := p.tos));
        }
      } else {
        foe[i] := e.(net := noise);
        if p.info.kind == Ipv4Dslite { foe[i] := foe[i].(kind := DsLite); }
      }
    }

    method FillInL4Info(i: nat, p: Packet)
      requires i < foe.Length
      modifies foe
      ensures foe[..] == old(foe[..])[i := WithL4(old(foe[i]), p)]
      ensures if p.info.kind == Ipv4Hnapt && old(foe[i]).kind != DsLite
              then foe[i].net.newSport == p.sport && foe[i].net.newDport == p.dport && foe[i].control.udp == p.udp
              else foe[i] == old(foe[i])
    {
      if p.info.kind == Ipv4Hnapt && foe[i].kind != DsLite {
        foe[i] := foe[i].(net := foe[i].net.(newSport := p.sport, newDport := p.dport));
        foe[i] := foe[i].(control := foe[i].control.(udp := p.udp));
      }
      assert foe[..] == old(foe[..])[i := WithL4(old(foe[i]), p)];
    }

    /** PpeSetForcePortInfo; which port, and whether one at all, is decided elsewhere. */
    method SetForcePortInfo(i: nat, p: Packet, port: Option<PortChoice>) returns (r: int)
      requires i < foe.Length
      modifies foe
      ensures r == if port.None? then 1 else 0
      ensures foe[..] == if r == 0 then old(foe[..])[i := WithPort(old(foe[i]), p, port.value)] else old(foe[..])
    {
      if port.None? { return 1; }
      foe[i] := WithPort(foe[i], p, port.value);
      return 0;
    }

    /** PpeSetExtIfNum. */
    method SetExtIfNum(i: nat, ports: seq<Option<nat>>, dev: nat) returns (r: int)
      requires i < foe.Length
      modifies foe
      ensures r == 0 <==> Some(dev) in ports
      ensures r == 0 ==>
                && foe[i].control.actDp < |ports| && ports[foe[i].control.actDp] == Some(dev)
                && forall k :: foe[i].control.actDp < k < |ports| ==> ports[k] != Some(dev)
      ensures var k := LastPort(ports, dev);
              && r == (if k.None? then 1 else 0)
              && foe[..] == if k.None? then old(foe[..]) else
                   old(foe[..])[i := old(foe[i]).(control := old(foe[i]).control.(actDp := k.value))]
    {
      var offset, devMatch, k := 0, false, 0;
      while k < |ports|
        invariant 0 <= k <= |ports|
        invariant LastPort(ports[..k], dev) == if devMatch then Some(offset) else None
      {
        if ports[k] == Some(dev) { offset, devMatch := k, true; }
        k := k + 1;
        assert ports[..k][..k - 1] == ports[..k - 1];
      }
      assert ports[..k] == ports;
      if !devMatch { return 1; }
      foe[i] := foe[i].(control := foe[i].control.(actDp := offset));
      return 0;
    }

    /** PpeSetEntryBind: whatever happened since the fill, the entry is bound as it was filled. */
    method SetEntryBind(i: nat)
      requires Valid() && filled == Some(i) && i < foe.Length
      modifies this, foe
      ensures Valid() && trace == old(trace) + [SetBind] && filled == None
      ensures foe[..] == old(foe[..])[i := old(foe[i]).(state := Bind)]
    {
      ghost var s := Machine();
      foe[i] := foe[i].(state := Bind);
      Commit(s, SetBind);
    }

    lemma VlanTagOf(f: seq<byte>, pr: PktParseResult)
      requires Parse(f).Accepted? && pr.Meaning() == Parse(f).info && pr.Layer2(f)
      ensures pr.vlanTag == if Parse(f).info.tags == [] then 0 else ETH_P_8021Q
    {
      hide Parse, Tags, U16, ByteAt;
    }

    /** Where the addresses and ports come from in a TCP or UDP packet over IPv4. */
    lemma HeadersOf(f: seq<byte>, pr: PktParseResult)
      requires Parse(f).Accepted? && pr.Meaning() == Parse(f).info && pr.Layer3(f) && pr.pktType == Hnapt
      ensures |pr.iph| == 20 && (pr.iph[9] == IPPROTO_TCP || pr.iph[9] == IPPROTO_UDP)
      ensures pr.iph[1] == ByteAt(f, pr.layer3 + 1) && pr.iph[9] == ByteAt(f, pr.layer3 + 9)
      ensures U32(pr.iph, 12) == U32(f, pr.layer3 + 12) && U32(pr.iph, 16) == U32(f, pr.layer3 + 16)
      ensures var ports := if pr.iph[9] == IPPROTO_TCP then pr.th else pr.uh;
              U16(ports, 0) == U16(f, pr.layer4) && U16(ports, 2) == U16(f, pr.layer4 + 2)
    {
      hide *;
      MeansIpv4(pr);
      Accepted4HasPorts(f);
      var n := Copies4(f, pr);
      AddressesOf(f, pr.layer3);
      FieldsOf(f, pr.layer4, n, 0);
      FieldsOf(f, pr.layer4, n, 2);
    }

    lemma MeansIpv4(pr: PktParseResult)
      requires pr.pktType == Hnapt
      ensures pr.Meaning().kind == Ipv4Hnapt && pr.Meaning().l3 == pr.layer3
    {
    }

    /** The network header is a copy of its bytes, and so is the transport header that is there. */
    lemma Copies4(f: seq<byte>, pr: PktParseResult) returns (n: nat)
      requires pr.Layer3(f) && pr.pktType == Hnapt && pr.Meaning().l3 == pr.layer3
      requires ByteAt(f, pr.layer3 + 9) in {IPPROTO_TCP, IPPROTO_UDP}
      ensures n >= 4 && pr.iph == Bytes(f, pr.layer3, 20) && pr.iph[9] == ByteAt(f, pr.layer3 + 9)
      ensures (if pr.iph[9] == IPPROTO_TCP then pr.th else pr.uh) == Bytes(f, pr.layer4, n)
      ensures pr.iph[9] == IPPROTO_TCP || pr.iph[9] == IPPROTO_UDP
    {
      n := if pr.iph[9] == IPPROTO_TCP then 20 else 8;
    }

    /** The parse result as the fills see it. */
    method Describe(f: seq<byte>, pr: PktParseResult) returns (p: Packet)
      requires Parse(f).Accepted? && pr.Meaning() == Parse(f).info && pr.Layer2(f) && pr.Layer3(f)
      ensures p == PacketOf(f)
    {
      hide Parse, Tags, PktParseResult.Layer2, PktParseResult.Layer3;
      var info := pr.Meaning();
      VlanTagOf(f, pr);
      if pr.pktType != Hnapt { return Packet(info, pr.vlanTag, 0, 0, 0, 0, 0, false); }
      HeadersOf(f, pr);
      var ports := if pr.iph[9] == IPPROTO_TCP then pr.th else pr.uh;
      hide U16;
      p := Packet(info, pr.vlanTag, U32(pr.iph, 12), U32(pr.iph, 16), U16(ports, 0), U16(ports, 2), pr.iph[1],
                  pr.iph[9] == IPPROTO_UDP);
    }

    /** PpeTxHandler for a packet that reaches the binding rate: `interested` says whether the packet's hardware
        information asks for binding. Whatever happens, an entry that was bound at the start is not filled. If the
        handler binds the entry, it holds what the frame said, as of the moment the frame was parsed: in the IPv4
        layout, exactly what is in the bytes of the packet that was printed. */
    method TxHandler(i: nat, interested: bool, f: seq<byte>, sur: Surroundings, ports: seq<Option<nat>>, dev: nat)
      returns (bound: bool)
      requires Valid() && filled.None? && sur.index == LastPort(ports, dev)
      requires |sur.linkNoise.dmacHi| == 4 && |sur.linkNoise.dmacLo| == 2
      modifies this, foe
      ensures Valid() && filled.None? && old(trace) <= trace
      ensures bound <==> i < foe.Length && interested && Parse(f).Accepted? && old(foe[..])[i].state != Bind &&
                         sur.port.Some? && sur.index.Some?
      ensures bound ==> foe[i] == Filled(old(foe[..])[i], PacketOf(f), sur).(state := Bind)
      ensures bound ==> foe[i].state == Bind && foe[i].control.actDp == sur.index.value && foe[i].kind ==
                        if Parse(f).info.kind == Ipv4Dslite then DsLite else old(foe[..])[i].kind
      ensures forall q: HnatFrame.Packet ::
                bound && Ipv4Flow(q) && HnatFrame.Print(q) == f && old(foe[..])[i].kind != DsLite ==>
                  Carries(foe[i], q, sur.port.value, sur.index.value)
      ensures !bound ==> forall k :: 0 <= k < foe.Length && old(foe[..])[k].state == Bind ==> foe[k] == old(foe[..])[k]
    {
      hide After, Filled, Parse, LastPort, Hi, Lo, Carries, HnatFrame.Print, HnatFrame.WellFormed, HnatFrame.Speedable;
      bound := false;
      if i >= foe.Length || !interested { return; }
      var pr := new PktParseResult();
      var r := pr.ParseLayerInfo(f);
      if r != 0 { return; }
      var p := Describe(f, pr);
      AcceptedMacs(f);
      var ready := FillAll(i, p, sur, ports, dev);
      if !ready { return; }
      Events();
      SetEntryBind(i);
      bound := true;
      FilledKind(old(foe[..])[i], p, sur);
      InfoOfPacket(f);
      forall q: HnatFrame.Packet | Ipv4Flow(q) && HnatFrame.Print(q) == f && old(foe[..])[i].kind != DsLite
        ensures Carries(foe[i], q, sur.port.value, sur.index.value)
      {
        FilledCarries(old(foe[..])[i], q, sur);
      }
    }

    /** Lines 3250-3277: the fills, in one step of the machine. Giving up half way leaves a changed entry behind, but
        only one that is not bound. */
    method FillAll(i: nat, p: Packet, sur: Surroundings, ports: seq<Option<nat>>, dev: nat) returns (ready: bool)
      requires Valid() && filled.None? && i < foe.Length && sur.index == LastPort(ports, dev)
      requires |sur.linkNoise.dmacHi| == 4 && |sur.linkNoise.dmacLo| == 2 && |p.info.dmac| == 6 == |p.info.smac|
      modifies this, foe
      ensures Valid() && old(trace) <= trace
      ensures ready <==> old(foe[i]).state != Bind && sur.port.Some? && sur.index.Some?
      ensures filled == if ready then Some(i) else None
      ensures ready ==> foe[..] == old(foe[..])[i := Filled(old(foe[i]), p, sur)]
      ensures !ready ==> forall k :: 0 <= k < foe.Length && old(foe[k]).state == Bind ==> foe[k] == old(foe[k])
    {
      hide After, Filled;
      ghost var s := Machine();
      var r := FillInL2Info(i, p, sur.linkNoise);
      if r != 0 { return false; }
      FillInL3Info(i, p, sur.netNoise);
      FillInL4Info(i, p);
      r := SetForcePortInfo(i, p, sur.port);
      if r == 0 { r := SetExtIfNum(i, ports, dev); }
      if r != 0 {
        Commit(s, Rewrite(i, foe[i]));
        return false;
      }
      FillsCompose(s.foe[i], p, sur);
      Commit(s, Fill(i, p, sur));
      return true;
    }

    /** foe_clear_entry, called with the neighbour's record already changed. */
    method ClearEntry(ip: nat, mac: Mac)
      requires forall k :: 0 <= k < foe.Length ==> Shaped(foe[k])
      modifies foe
      ensures foe[..] == Cleared(old(foe[..]), ip, mac)
      ensures forall k :: 0 <= k < foe.Length ==>
                var e := old(foe[..])[k];
                var agrees := e.link.dmacHi == [mac[3], mac[2], mac[1], mac[0]] && e.link.dmacLo == [mac[5], mac[4]];
                foe[k] == if e.state == Bind && e.net.newDip == ip && !agrees then e.(state := Invalid) else e
    {
      var k := 0;
      while k < foe.Length
        invariant 0 <= k <= foe.Length
        invariant foe[..k] == Cleared(old(foe[..]), ip, mac)[..k] && foe[k..] == old(foe[..])[k..]
      {
        ghost var before := old(foe[..])[k];
        assert foe[k] == before;
        if foe[k].state == Bind && foe[k].net.newDip == ip {
          DiffersIff(foe[k].link, mac);
          if Differs(foe[k].link, mac) { foe[k] := foe[k].(state := Invalid); }
        }
        assert foe[k] == Cleared(old(foe[..]), ip, mac)[k];
        k := k + 1;
      }
      assert foe[..] == Cleared(old(foe[..]), ip, mac);
      assert forall j :: 0 <= j < foe.Length ==> foe[j] == foe[..][j];
    }

    /** wh2_netevent_handler on a neighbour update; `dev` says whether the record has a device. */
    method NeteventHandler(ip: nat, mac: Mac, dev: bool)
      requires Valid()
      modifies this, foe
      ensures Valid() && trace == old(trace) + [Neighbour(ip, mac, dev)] && neigh == old(neigh)[ip := mac]
      ensures foe[..] == if dev then Cleared(old(foe[..]), ip, mac) else old(foe[..])
    {
      RunKeeps(foe.Length, trace);
      ghost var s := Machine();
      assert forall k :: 0 <= k < foe.Length ==> s.foe[k] == foe[k];
      hide After, Cleared;
      if dev { ClearEntry(ip, mac); }
      Commit(s, Neighbour(ip, mac, dev));
    }
  }
}
