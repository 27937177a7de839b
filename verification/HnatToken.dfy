/** The interface token of the software half of the hardware NAT (config/mtk2/kernel/ra_nat.c: RemoveVlanTag,
    PpeExtIfRxHandler, PpeExtIfPingPongHandler, PpeDevRegHandler, PpeDevUnRegHandler) with
    CONFIG_RA_HW_NAT_WIFI_NEW_ARCH and without hardware VLAN transmission.

    A frame received by a device the hardware does not know takes a loop through the packet engine; an 802.1Q tag
    that holds the device's table index brings it back to its device. */
module HnatToken {
  import opened HnatParse
  import opened Wrappers

  datatype Device = Device(id: nat, addr: seq<byte>, broadcast: seq<byte>)
  type Ports = seq<Option<Device>>
  datatype PacketType = Host | Broadcast | Multicast | OtherHost

  const ETH_P_PPP_DISC := 0x8863
  const MAGIC_PROTO := 0x7856          // 0x5678 in the byte order of the target's memory
  const NO_INDEX := 65535

  // ----- frames ---------------------------------------------------------------------------------------------

  function Tagged(f: seq<byte>, index: nat): seq<byte>
    requires |f| >= 12 && index < 0x10000
  {
    f[..12] + [0x81, 0x00, index / 256, index % 256] + f[12..]
  }

  function Untagged(f: seq<byte>): seq<byte>
    requires |f| >= 16
  {
    f[..12] + f[16..]
  }

  lemma UntaggedAfterTagged(f: seq<byte>, index: nat)
    requires |f| >= 14 && index < 0x10000
    ensures var t := Tagged(f, index);
            Untagged(t) == f && U16(t, 12) == 0x8100 && U16(t, 14) == index && U16(t, 16) == U16(f, 12)
  {
    var t := Tagged(f, index);
    assert t[..12] == f[..12] && t[16..] == f[12..] && t[16] == f[12] && t[17] == f[13];
  }

  /** Twelve bytes copied within a buffer. */
  function Moved(b: seq<byte>, target: nat, source: nat): (r: seq<byte>)
    requires target + 12 <= |b| && source + 12 <= |b|
    ensures |r| == |b|
  {
    b[..target] + b[source..source + 12] + b[target + 12..]
  }

  /** Moving the addresses of the frame at m up by four bytes drops the tag. */
  lemma MovedUp(b: seq<byte>, m: nat, end: nat)
    requires m + 16 <= end <= |b|
    ensures Moved(b, m + 4, m)[m + 4..end] == Untagged(b[m..end])
  {
    var c := Moved(b, m + 4, m);
    assert c[m + 4..m + 16] == b[m..m + 12] && c[m + 16..] == b[m + 16..];
    assert c[m + 4..end] == c[m + 4..m + 16] + c[m + 16..][..end - m - 16];
    assert b[m..end][16..] == b[m + 16..][..end - m - 16];
    assert b[m..end][..12] == b[m..m + 12];
  }

  function WithTag(b: seq<byte>, at: nat, index: nat): (r: seq<byte>)
    requires at + 4 <= |b| && index < 0x10000
    ensures |r| == |b|
  {
    b[..at] + [0x81, 0x00, index / 256, index % 256] + b[at + 4..]
  }

  /** Moving them down by four bytes and writing a tag behind them tags the frame. */
  lemma MovedDown(b: seq<byte>, m: nat, end: nat, index: nat)
    requires 4 <= m && m + 12 <= end <= |b| && index < 0x10000
    ensures WithTag(Moved(b, m - 4, m), m + 8, index)[m - 4..end] == Tagged(b[m..end], index)
  {
    var c := WithTag(Moved(b, m - 4, m), m + 8, index);
    assert c[m - 4..m + 8] == b[m..m + 12];
    assert c[m + 12..] == b[m + 12..];
    assert c[m + 8..m + 12] == [0x81, 0x00, index / 256, index % 256];
    assert c[m - 4..end] == c[m - 4..m + 8] + c[m + 8..m + 12] + c[m + 12..][..end - m - 12];
    assert b[m..end][12..] == b[m + 12..][..end - m - 12];
    assert b[m..end][..12] == b[m..m + 12];
  }

  // ----- the device table -----------------------------------------------------------------------------------

  /** The index of the first slot that holds d, or the number of slots. */
  function FirstPort(ports: Ports, d: Device): (i: nat)
    ensures i <= |ports| && (i < |ports| ==> ports[i] == Some(d)) && forall k :: 0 <= k < i ==> ports[k] != Some(d)
  {
    if ports == [] || ports[0] == Some(d) then 0 else 1 + FirstPort(ports[1..], d)
  }

  ghost predicate NoDuplicates(ports: Ports) {
    forall i, j :: 0 <= i < j < |ports| && ports[i].Some? ==> ports[i] != ports[j]
  }

  /** The first slot that is free or holds d, where PpeDevRegHandler stops, or the number of slots. */
  function Stop(ports: Ports, d: Device): (i: nat)
    ensures i <= |ports| && (i < |ports| ==> ports[i].None? || ports[i] == Some(d))
    ensures forall k :: 0 <= k < i ==> ports[k].Some? && ports[k] != Some(d)
  {
    if ports == [] || ports[0].None? || ports[0] == Some(d) then 0 else 1 + Stop(ports[1..], d)
  }

  function With(ports: Ports, d: Device): Ports {
    var k := Stop(ports, d);
    if k < |ports| then ports[k := Some(d)] else ports
  }

  /** PpeDevRegHandler. */
  method Register(ports: array<Option<Device>>, d: Device)
    modifies ports
    ensures ports[..] == With(old(ports[..]), d)
    ensures if None in old(ports[..]) || Some(d) in old(ports[..])
            then exists k :: 0 <= k < ports.Length && ports[..] == old(ports[..])[k := Some(d)] &&
                             (old(ports[..])[k].None? || old(ports[..])[k] == Some(d)) &&
                             None !in old(ports[..])[..k] && Some(d) !in old(ports[..])[..k]
            else ports[..] == old(ports[..])
  {
    var i := 0;
    ghost var k := Stop(ports[..], d);
    while i < ports.Length
      invariant 0 <= i <= ports.Length && i <= k && ports[..] == old(ports[..])
    {
      if ports[i] == Some(d) {
        assert ports[..] == old(ports[..])[i := Some(d)];
        return;
      }
      if ports[i].None? {
        ports[i] := Some(d);
        return;
      }
      i := i + 1;
    }
  }

  function Without(ports: Ports, d: Device): Ports {
    var k := FirstPort(ports, d);
    if k < |ports| then ports[k := None] else ports
  }

  /** PpeDevUnRegHandler. */
  method Unregister(ports: array<Option<Device>>, d: Device)
    modifies ports
    ensures ports[..] == Without(old(ports[..]), d)
    ensures if Some(d) in old(ports[..])
            then exists k :: 0 <= k < ports.Length && ports[..] == old(ports[..])[k := None] &&
                             old(ports[..])[k] == Some(d) && Some(d) !in old(ports[..])[..k]
            else ports[..] == old(ports[..])
  {
    var i := 0;
    ghost var k := FirstPort(ports[..], d);
    while i < ports.Length
      invariant 0 <= i <= ports.Length && i <= k && ports[..] == old(ports[..])
    {
      if ports[i] == Some(d) {
        ports[i] := None;
        break;
      }
      i := i + 1;
    }
  }

  /** Registering a device puts it into the table a second time exactly if a slot in front of its own is free. */
  lemma DuplicateIff(ports: Ports, d: Device)
    requires NoDuplicates(ports)
    ensures NoDuplicates(With(ports, d)) <==>
            !(FirstPort(ports, d) < |ports| && exists i :: 0 <= i < FirstPort(ports, d) && ports[i].None?)
  {
    var f, k, after := FirstPort(ports, d), Stop(ports, d), With(ports, d);
    if f < |ports| && k < f {
      assert ports[k].None? && after[k] == after[f] && after[k].Some?;
    }
  }

  /** Unregistering removes the device exactly if it was not in the table twice. */
  lemma UnregisterRemovesIff(ports: Ports, d: Device)
    ensures Some(d) !in Without(ports, d) <==> !(exists i, j :: 0 <= i < j < |ports| && ports[i] == Some(d) == ports[j])
  {
    var k := FirstPort(ports, d);
    if k < |ports| {
      var after := Without(ports, d);
      forall i, j | 0 <= i < j < |ports| && ports[i] == Some(d) == ports[j] ensures j != k && after[j] == Some(d) { }
      forall i | 0 <= i < |ports| && after[i] == Some(d) ensures k < i && ports[k] == Some(d) == ports[i] { }
    }
  }

  /** It does happen: register one device and another, unregister the first, register the second again and unregister
      it. The table still holds it. */
  lemma SurvivorHappens(a: Device, d: Device)
    requires a != d
    ensures var ports := With(Without(With(With([None, None], a), d), a), d);
            ports == [Some(d), Some(d)] && Without(ports, d) == [None, Some(d)]
  {
    assert With([None, None], a) == [Some(a), None];
    assert Stop([Some(a), None], d) == 1 && With([Some(a), None], d) == [Some(a), Some(d)];
    assert Without([Some(a), Some(d)], a) == [None, Some(d)];
    assert With([None, Some(d)], d) == [Some(d), Some(d)];
  }

  /** What kind of packet the ping-pong handler takes a frame for: by the device's broadcast address and the group bit,
      or by the addresses of all devices in the table. */
  ghost predicate Typed(t: PacketType, dest: seq<byte>, dev: Device, ports: Ports)
    requires |dest| == 6
  {
    var ours := exists i :: 0 <= i < |ports| && ports[i].Some? && ports[i].value.addr == dest;
    && (t == Broadcast <==> dest[0] % 2 == 1 && dest == dev.broadcast)
    && (t == Multicast <==> dest[0] % 2 == 1 && dest != dev.broadcast)
    && (t == Host <==> dest[0] % 2 == 0 && ours)
    && (t == OtherHost <==> dest[0] % 2 == 0 && !ours)
  }

  // ----- the socket buffer ----------------------------------------------------------------------------------

  class Skb {
    const buf: array<byte>
    var data: nat
    var len: nat
    var mac: nat                 // LAYER2_HEADER
    var protocol: nat
    var dev: Device
    var pktType: PacketType

    predicate Valid()
      reads `data, `len, `mac
    {
      mac <= data && mac + ETH_HLEN <= data + len <= buf.Length
    }

    /** The frame, from the link header on. */
    function Frame(): (f: seq<byte>)
      requires Valid()
      reads `data, `len, `mac, buf
      ensures |f| == data + len - mac
    {
      buf[mac..data + len]
    }

    lemma FrameIs()
      requires Valid()
      ensures Frame() == buf[..][mac..data + len]
    {
    }

    /** A big-endian field of the link header, from where it lies in the buffer. */
    function Field(i: nat): (r: nat)
      requires Valid() && i + 2 <= data + len - mac
      reads this, buf
      ensures r == U16(Frame(), i)
    {
      U16(buf[..], mac + i)
    }

    /** A frame arrives from the wire: the driver and eth_type_trans leave the data pointer behind the link header. */
    constructor Receive(f: seq<byte>, headroom: nat, dev: Device)
      requires |f| >= ETH_HLEN
      ensures Valid() && fresh(buf) && Frame() == f && mac == headroom && data == mac + ETH_HLEN && this.dev == dev
      ensures len == |f| - ETH_HLEN && protocol == U16(f, 12)
    {
      buf := new byte[headroom + |f|](i requires 0 <= i =>
        if i < headroom || i - headroom >= |f| then 0 else f[i - headroom]);
      mac, data, len := headroom, headroom + ETH_HLEN, |f| - ETH_HLEN;
      protocol := U16(f, 12);
      this.dev, pktType := dev, OtherHost;
    }

    /** memmove of twelve bytes, the two MAC addresses. */
    method MoveAddresses(target: nat, source: nat)
      requires target + 12 <= buf.Length && source + 12 <= buf.Length
      modifies buf
      ensures buf[..] == Moved(old(buf[..]), target, source)
    {
      ghost var was := buf[..];
      forall i | 0 <= i < 12 { buf[target + i] := buf[source + i]; }
      assert forall k :: 0 <= k < buf.Length ==>
        buf[k] == if target <= k < target + 12 then was[source + (k - target)] else was[k];
    }

    /** The four bytes of an 802.1Q tag. */
    method WriteTag(at: nat, index: nat)
      requires at + 4 <= buf.Length && index < 0x10000
      modifies buf
      ensures buf[..] == WithTag(old(buf[..]), at, index)
    {
      buf[at], buf[at + 1] := 0x81, 0x00;
      buf[at + 2], buf[at + 3] := index / 256, index % 256;
    }

    /** __vlan_put_tag of the kernel, with headroom for the tag. */
    method PutTag(index: nat)
      requires Valid() && data == mac >= VLAN_HLEN && index < 0x10000
      modifies this, buf
      ensures Valid() && mac == old(mac) - VLAN_HLEN && data == mac && len == old(len) + VLAN_HLEN
      ensures Frame() == Tagged(old(Frame()), index) && protocol == ETH_P_8021Q && dev == old(dev)
    {
      hide Frame, Moved, WithTag, Tagged;
      MovedDown(buf[..], mac, data + len, index);
      FrameIs();
      data, len := data - VLAN_HLEN, len + VLAN_HLEN;
      MoveAddresses(data, data + VLAN_HLEN);
      mac := mac - VLAN_HLEN;
      WriteTag(data + 12, index);
      protocol := ETH_P_8021Q;
      FrameIs();
    }

    /** RemoveVlanTag on an unshared skb. */
    method RemoveVlanTag() returns (index: nat)
      requires Valid() && data == mac + ETH_HLEN && len >= VLAN_HLEN
      modifies this, buf
      ensures Valid() && data == mac + ETH_HLEN && dev == old(dev)
      ensures if U16(old(Frame()), 12) == 0x8100 || U16(old(Frame()), 12) == 0x7856
              then index == U16(old(Frame()), 14) && Frame() == Untagged(old(Frame())) &&
                   len == old(len) - VLAN_HLEN && protocol == U16(Frame(), 12)
              else index == 65535 && Frame() == old(Frame()) && len == old(len) && protocol == old(protocol)
    {
      hide Frame, Moved, Untagged, U16;
      MovedUp(buf[..], mac, data + len);
      FrameIs();
      var proto := Field(12);
      if proto != ETH_P_8021Q && proto != MAGIC_PROTO { return NO_INDEX; }
      index := Field(14);
      data := mac;
      mac := mac + VLAN_HLEN;
      MoveAddresses(mac, data);
      data, len := data + VLAN_HLEN, len - VLAN_HLEN;
      data := data + ETH_HLEN;
      FrameIs();
      protocol := Field(12);
    }
  }

  predicate Redirected(protocol: nat) {
    protocol in {ETH_P_8021Q, ETH_P_IP, ETH_P_IPV6, ETH_P_PPP_SES, ETH_P_PPP_DISC}
  }

  /** PpeExtIfRxHandler; `up` says whether GMAC1 is up. IPv4, IPv6, tagged and PPPoE frames of a known device that are
      not multicast are redirected. A frame that is not redirected is left alone, but if GMAC1 is
      down the frame goes on up the stack (1) with the tag still in it and as one of GMAC1's. */
  method ExtIfRxHandler(skb: Skb, ports: array<Option<Device>>, gmac1: nat, up: bool) returns (r: int)
    requires skb.Valid() && skb.data == skb.mac + ETH_HLEN && skb.mac >= VLAN_HLEN
    requires gmac1 < ports.Length < NO_INDEX && ports[gmac1].Some?
    modifies skb, skb.buf
    ensures skb.Valid()
    ensures var f, i := old(skb.Frame()), FirstPort(ports[..], old(skb.dev));
            if old(skb.protocol) !in {0x0800, 0x86DD, 0x8100, 0x8863, 0x8864} || f[0] % 2 == 1 || i == ports.Length
            then r == 1 && skb.Frame() == f && skb.data == old(skb.data) && skb.len == old(skb.len) &&
                 skb.protocol == old(skb.protocol) && skb.dev == old(skb.dev)
            else (r == 0 <==> up) && skb.Frame() == Tagged(f, i) && skb.data == skb.mac &&
                 skb.dev == ports[gmac1].value && skb.protocol == 0x8100
  {
    ghost var f := skb.Frame();
    assert f[0] == skb.buf[skb.mac];
    if !Redirected(skb.protocol) || skb.buf[skb.mac] % 2 == 1 { return 1; }
    var index, i, match_ := 0, 0, false;
    ghost var first := FirstPort(ports[..], skb.dev);
    while i < ports.Length
      invariant 0 <= i <= ports.Length && i <= first && index == 0 && !match_
    {
      if ports[i] == Some(skb.dev) {
        index, match_ := i, true;
        break;
      }
      i := i + 1;
    }
    if !match_ { return 1; }
    skb.data, skb.len := skb.data - ETH_HLEN, skb.len + ETH_HLEN;
    assert skb.Frame() == f;
    skb.PutTag(index);
    skb.dev := ports[gmac1].value;
    return if up then 0 else 1;
  }

  /** The second half of the ping-pong handler. */
  method Classify(skb: Skb, ports: array<Option<Device>>)
    requires skb.Valid()
    modifies skb`pktType
    ensures Typed(skb.pktType, skb.Frame()[..6], skb.dev, ports[..])
  {
    var dest := skb.buf[skb.mac..skb.mac + 6];
    assert dest == skb.Frame()[..6];
    if dest[0] % 2 == 1 {
      skb.pktType := if dest == skb.dev.broadcast then Broadcast else Multicast;
    } else {
      skb.pktType := OtherHost;
      var i := 0;
      while i < ports.Length
        invariant 0 <= i <= ports.Length && skb.pktType == OtherHost
        invariant forall j :: 0 <= j < i ==> !(ports[j].Some? && ports[j].value.addr == dest)
      {
        if ports[i].Some? && ports[i].value.addr == dest {
          assert ports[..][i] == ports[i];
          skb.pktType := Host;
          break;
        }
        i := i + 1;
      }
    }
  }

  /** PpeExtIfPingPongHandler. */
  method ExtIfPingPongHandler(skb: Skb, ports: array<Option<Device>>)
    requires skb.Valid() && skb.data == skb.mac + ETH_HLEN && skb.len >= VLAN_HLEN && ports.Length < NO_INDEX
    modifies skb, skb.buf
    ensures skb.Valid() && skb.data == skb.mac + ETH_HLEN
    ensures var f := old(skb.Frame()); var tag := U16(f, 12); var index := U16(f, 14);
            var tagged := tag == 0x8100 || tag == 0x7856;
            && skb.Frame() == (if tagged then Untagged(f) else f)
            && skb.protocol == (if tagged then U16(f, 16) else old(skb.protocol))
            && skb.dev == (if tagged && index < ports.Length && ports[index].Some? then ports[index].value
                           else old(skb.dev))
            && Typed(skb.pktType, skb.Frame()[..6], skb.dev, ports[..])
  {
    ghost var f := skb.Frame();
    var index := skb.RemoveVlanTag();
    assert U16(Untagged(f), 12) == U16(f, 16);
    hide U16, Untagged, Typed;
    if index < ports.Length && ports[index].Some? { skb.dev := ports[index].value; }
    Classify(skb, ports);
  }

  /** The whole loop: the handler sends the frame to the packet engine, which sends it back unchanged, and the driver
      hands it to the ping-pong handler. `later` is the table at that time. Bytes, length and protocol come back, and
      the device does if and only if its slot still holds it. */
  method Loop(skb: Skb, ports: array<Option<Device>>, later: array<Option<Device>>, gmac1: nat)
    returns (r: int, back: Skb)
    requires skb.Valid() && skb.data == skb.mac + ETH_HLEN && skb.mac >= VLAN_HLEN
    requires gmac1 < ports.Length == later.Length < NO_INDEX && ports[gmac1].Some?
    requires skb.protocol == U16(skb.Frame(), 12)
    modifies skb, skb.buf
    ensures r == 0 <==> old(skb.protocol) in {0x0800, 0x86DD, 0x8100, 0x8863, 0x8864} &&
                        old(skb.Frame())[0] % 2 == 0 && Some(old(skb.dev)) in ports[..]
    ensures r == 0 ==> back.Valid() && back.Frame() == old(skb.Frame()) && back.len == old(skb.len) &&
                       back.data == back.mac + ETH_HLEN && back.protocol == old(skb.protocol)
    ensures r == 0 && ports[gmac1].value != old(skb.dev) ==>
              (back.dev == old(skb.dev) <==> later[FirstPort(ports[..], old(skb.dev))] == Some(old(skb.dev)))
  {
    ghost var f, d := skb.Frame(), skb.dev;
    r := ExtIfRxHandler(skb, ports, gmac1, true);
    back := skb;
    if r == 0 {
      UntaggedAfterTagged(f, FirstPort(ports[..], d));
      back := new Skb.Receive(skb.Frame(), 2, ports[gmac1].value);
      ExtIfPingPongHandler(back, later);
    }
  }
}
