/** The receive fix-up of the QMI WWAN driver (config/mtk2/kernel/qmi_wwan.c: qmi_wwan_rx_fixup, possibly_iphdr,
    qmi_wwan_mac_addr and the address tail of qmi_wwan_bind): modems that sometimes send raw IP packets, and the
    device address that makes them distinguishable from Ethernet frames. */
module QmiFixup {

  type Bytes = seq<bv8>
  type Mac = m: seq<bv8> | |m| == 6 witness [0, 0, 0, 0, 0, 0]

  const ETH_HLEN: nat := 14
  const MODEM_ADDR: Mac := [0x02, 0x50, 0xf3, 0, 0, 0]
  const NO_ADDR: Mac := [0, 0, 0, 0, 0, 0]
  const EADDRNOTAVAIL := 99

  function HighNibble(b: bv8): bv8 { b & 0xf0 }

  /** What the first byte of an IPv4 or IPv6 header looks like. */
  predicate LooksLikeIp(b: bv8) { HighNibble(b) == 0x40 || HighNibble(b) == 0x60 }

  /** possibly_iphdr: one mask for both versions. */
  predicate PossiblyIpHdr(b: bv8) { b & 0xd0 == 0x40 }

  lemma PossiblyIff(b: bv8)
    ensures PossiblyIpHdr(b) <==> LooksLikeIp(b)
    ensures LooksLikeIp(b) <==> b >> 4 == 4 || b >> 4 == 6
  {
    assert b & 0xd0 == (b & 0xf0) & 0xd0;
    Nibble(b);
  }

  lemma Nibble(b: bv8)
    ensures HighNibble(b) == (b >> 4) << 4
    ensures HighNibble(b) == 0x40 <==> b >> 4 == 4
    ensures HighNibble(b) == 0x60 <==> b >> 4 == 6
    ensures HighNibble(b) == 0x00 <==> b >> 4 == 0
  {
  }

  /** The two bit operations of the bind. */
  function MadeLocal(b: bv8): bv8 { (b | 0x02) & 0xbf }

  lemma MadeLocalIsNoIp(b: bv8)
    requires PossiblyIpHdr(b)
    ensures !LooksLikeIp(MadeLocal(b)) && MadeLocal(b) & 0x02 == 0x02 && MadeLocal(b) & 0x40 == 0
    ensures MadeLocal(b) & 0xbd == b & 0xbd
  {
    assert MadeLocal(b) & 0xbd == b & 0xbd;
    assert MadeLocal(b) & 0x40 == 0;
    assert HighNibble(MadeLocal(b)) & 0x40 == MadeLocal(b) & 0x40;
  }

  // ----- the device address -----------------------------------------------------------------------------------

  /** One attempt to set the address; prep is the verdict of eth_prepare_mac_addr_change. */
  datatype Attempt = Attempt(addr: Mac, prep: int)

  class NetDev {
    const devAddr: array<bv8>

    ghost predicate Valid()
      reads devAddr
    {
      devAddr.Length == 6
    }

    constructor (addr: Mac)
      ensures Valid() && fresh(devAddr) && devAddr[..] == addr
    {
      devAddr := new bv8[6](i requires 0 <= i < 6 => addr[i]);
    }

    /** eth_hw_addr_random and eth_commit_mac_addr_change. */
    method SetAddress(addr: Mac)
      requires Valid()
      modifies devAddr
      ensures devAddr[..] == addr
    {
      forall i | 0 <= i < 6 { devAddr[i] := addr[i]; }
    }

    /** The end of qmi_wwan_bind; `random` is what the random number generator would give. */
    method BindTail(random: Mac)
      requires Valid()
      modifies devAddr
      ensures devAddr[0] >> 4 != 4 && devAddr[0] >> 4 != 6
      ensures var chosen := if old(devAddr[..]) == [0x02, 0x50, 0xf3, 0, 0, 0] then random else old(devAddr[..]);
              devAddr[..] == if chosen[0] >> 4 == 4 || chosen[0] >> 4 == 6 then chosen[0 := MadeLocal(chosen[0])]
                             else chosen
    {
      if devAddr[..] == MODEM_ADDR { SetAddress(random); }
      ghost var chosen := devAddr[..];
      PossiblyIff(devAddr[0]);
      PossiblyIff(MadeLocal(devAddr[0]));
      if PossiblyIpHdr(devAddr[0]) {
        MadeLocalIsNoIp(devAddr[0]);
        devAddr[0] := devAddr[0] | 0x02;
        devAddr[0] := devAddr[0] & 0xbf;
      }
    }

    /** qmi_wwan_mac_addr. */
    method MacAddr(p: Attempt) returns (ret: int)
      requires Valid()
      modifies devAddr
      ensures devAddr[..] == Changed(old(devAddr[..]), p)
      ensures ret == if p.prep < 0 then p.prep else if p.addr[0] >> 4 == 4 || p.addr[0] >> 4 == 6 then -99 else 0
      ensures devAddr[..] == if ret == 0 then p.addr else old(devAddr[..])
    {
      PossiblyIff(p.addr[0]);
      if p.prep < 0 { return p.prep; }
      if PossiblyIpHdr(p.addr[0]) { return -EADDRNOTAVAIL; }
      SetAddress(p.addr);
      return 0;
    }
  }

  /** The address after one attempt. */
  function Changed(addr: Mac, p: Attempt): Mac {
    if p.prep < 0 || LooksLikeIp(p.addr[0]) then addr else p.addr
  }

  /** The address after any number of attempts. */
  function AfterAll(addr: Mac, attempts: seq<Attempt>): Mac {
    if attempts == [] then addr else Changed(AfterAll(addr, attempts[..|attempts| - 1]), attempts[|attempts| - 1])
  }

  /** Over every run of address changes the address keeps what the bind established. */
  lemma {:induction false} AddressNeverLooksLikeIp(addr: Mac, attempts: seq<Attempt>)
    requires !LooksLikeIp(addr[0])
    ensures !LooksLikeIp(AfterAll(addr, attempts)[0])
  {
    if attempts != [] { AddressNeverLooksLikeIp(addr, attempts[..|attempts| - 1]); }
  }

  // ----- the fix-up -------------------------------------------------------------------------------------------

  predicate IsMulticast(b: bv8) { b & 0x01 == 0x01 }

  lemma GroupBit(b: bv8)
    ensures IsMulticast(b) <==> b & 0x01 != 0
  {
  }

  function EthHeader(dest: Mac, b: bv8): Bytes {
    dest + NO_ADDR + (if HighNibble(b) == 0x40 then [0x08, 0x00] else [0x86, 0xdd])
  }

  class Skb {
    const buf: array<bv8>
    var data: nat
    var len: nat
    var mac: nat

    ghost predicate Valid()
      reads this
    {
      data + len <= buf.Length
    }

    ghost function Packet(): (p: Bytes)
      requires Valid()
      reads this, buf
      ensures |p| == len
    {
      buf[data..data + len]
    }

    constructor (packet: Bytes, headroom: nat)
      ensures Valid() && fresh(buf) && Packet() == packet && data == headroom
    {
      buf := new bv8[headroom + |packet|](i requires 0 <= i =>
        if i < headroom || i - headroom >= |packet| then 0 else packet[i - headroom]);
      data, len, mac := headroom, |packet|, 0;
    }

    method CopyIn(at: nat, bytes: Bytes)
      requires at + |bytes| <= buf.Length
      modifies buf
      ensures buf[..] == Put(old(buf[..]), at, bytes)
    {
      forall i | 0 <= i < |bytes| { buf[at + i] := bytes[i]; }
    }

    lemma PacketIs()
      requires Valid()
      ensures Packet() == buf[..][data..data + len] == buf[..][data..][..len]
    {
    }

    /** The end of the fix-up for a frame. */
    method FixDest(devAddr: Mac)
      requires Valid() && len >= ETH_HLEN
      modifies `mac, buf
      ensures Packet() == devAddr + old(Packet())[6..]
    {
      hide Put, Packet;
      PacketIs();
      mac := data;
      PutTail(buf[..], mac, devAddr);
      PutTake(buf[..][data..], devAddr, len);
      CopyIn(mac, devAddr);
      PacketIs();
    }

    /** The end of the fix-up for a raw packet. */
    method PushHeader(devAddr: Mac, proto: Bytes)
      requires Valid() && len >= ETH_HLEN && data >= ETH_HLEN && |proto| == 2
      modifies this, buf
      ensures Valid() && Packet() == devAddr + NO_ADDR + proto + old(Packet())
    {
      hide Put, Packet;
      ghost var b := buf[..];
      PacketIs();
      data, len := data - ETH_HLEN, len + ETH_HLEN;
      mac := data;
      CopyIn(mac + 12, proto);
      CopyIn(mac + 6, NO_ADDR);
      CopyIn(mac, devAddr);
      NewHeader(b, data, len, devAddr, proto);
      PacketIs();
    }

    /** qmi_wwan_rx_fixup; 0 drops the packet, and the packet is then left as it was. */
    method RxFixup(devAddr: Mac) returns (r: int)
      requires Valid()
      modifies this, buf
      ensures Valid()
      ensures r == 0 <==>
              old(len) < 14 || ((old(Packet())[0] >> 4 == 4 || old(Packet())[0] >> 4 == 6) && old(data) < 14)
      ensures r == 0 || r == 1
      ensures Packet() == if r == 0 then old(Packet()) else Fixed(old(Packet()), devAddr)
      ensures r == 1 ==>
                var p := old(Packet());
                && (p[0] >> 4 == 4 ==> Packet() == devAddr + [0, 0, 0, 0, 0, 0] + [0x08, 0x00] + p)
                && (p[0] >> 4 == 6 ==> Packet() == devAddr + [0, 0, 0, 0, 0, 0] + [0x86, 0xdd] + p)
                && (p[0] >> 4 == 0 && p[0] & 0x01 == 0 ==> Packet() == devAddr + p[6..])
                && (p[0] >> 4 !in {0, 4, 6} || (p[0] >> 4 == 0 && p[0] & 0x01 == 0x01) ==> Packet() == p)
    {
      if len < ETH_HLEN { return 0; }
      var first := buf[data];
      assert first == Packet()[0];
      Nibble(first);
      GroupBit(first);
      hide Packet, IsMulticast;
      var proto: Bytes;
      if HighNibble(first) == 0x40 {
        proto := [0x08, 0x00];
      } else if HighNibble(first) == 0x60 {
        proto := [0x86, 0xdd];
      } else if HighNibble(first) == 0x00 {
        if IsMulticast(first) { return 1; }
        FixDest(devAddr);
        return 1;
      } else {
        return 1;
      }
      if data < ETH_HLEN { return 0; }
      PushHeader(devAddr, proto);
      return 1;
    }
  }

  /** The fix-up of a packet that is long enough and has headroom. */
  function Fixed(p: Bytes, devAddr: Mac): Bytes
    requires |p| >= ETH_HLEN
  {
    if LooksLikeIp(p[0]) then EthHeader(devAddr, p[0]) + p
    else if HighNibble(p[0]) == 0 && !IsMulticast(p[0]) then devAddr + p[6..]
    else p
  }

  function Put(b: Bytes, at: nat, bytes: Bytes): (r: Bytes)
    requires at + |bytes| <= |b|
    ensures |r| == |b|
  {
    b[..at] + bytes + b[at + |bytes|..]
  }

  lemma PutTail(b: Bytes, at: nat, bytes: Bytes)
    requires at + |bytes| <= |b|
    ensures Put(b, at, bytes)[at..] == bytes + b[at..][|bytes|..]
  {
  }

  lemma PutTake(t: Bytes, dest: Mac, n: nat)
    requires 6 <= n <= |t|
    ensures (dest + t[6..])[..n] == dest + t[..n][6..]
  {
  }

  lemma NewHeader(b: Bytes, from: nat, n: nat, dest: Mac, proto: Bytes)
    requires n >= 14 && from + n <= |b| && |proto| == 2
    ensures Put(Put(Put(b, from + 12, proto), from + 6, NO_ADDR), from, dest)[from..][..n] ==
            dest + NO_ADDR + proto + b[from + 14..from + n]
  {
    var b1 := Put(b, from + 12, proto);
    var b2 := Put(b1, from + 6, NO_ADDR);
    PutTail(b, from + 12, proto);
    PutTail(b1, from + 6, NO_ADDR);
    PutTail(b2, from, dest);
    assert b1[from + 6..][6..] == b1[from + 12..] && b2[from..][6..] == b2[from + 6..];
    assert b[from + 12..][2..][..n - 14] == b[from + 14..from + n];
    hide Put;
    assert (dest + (NO_ADDR + (proto + b[from + 12..][2..])))[..n] ==
           dest + NO_ADDR + proto + b[from + 12..][2..][..n - 14];
  }

  // ----- what arrives, and what it becomes --------------------------------------------------------------------

  /** What the modem sent: a raw IPv4 or IPv6 packet, or an Ethernet frame. */
  datatype Arrival = Raw4(packet: Bytes) | Raw6(packet: Bytes) | Framed(frame: Bytes)

  /** The modem sends raw IPv4 and IPv6, whose first four bits are the version (section 3.1 of RFC 791, section 3 of
      RFC 8200), and frames to us, to the bogus address of some firmware or to group addresses. */
  predicate Plausible(a: Arrival, devAddr: Mac) {
    match a
    case Raw4(p) => |p| >= 14 && p[0] >> 4 == 4
    case Raw6(p) => |p| >= 14 && p[0] >> 4 == 6
    case Framed(f) =>
      |f| >= 14 && (f[..6] == devAddr || f[..6] == [0x00, 0xa0, 0xc6, 0x00, 0x00, 0x00] || f[0] & 0x01 != 0)
  }

  function OnTheWire(a: Arrival): Bytes { match a case Raw4(p) => p case Raw6(p) => p case Framed(f) => f }

  /** What the network stack should get: a frame of the right type from nobody, to us unless it is multicast. */
  function Wanted(a: Arrival, devAddr: Mac): Bytes
    requires Plausible(a, devAddr)
  {
    match a
    case Raw4(p) => devAddr + [0, 0, 0, 0, 0, 0] + [0x08, 0x00] + p
    case Raw6(p) => devAddr + [0, 0, 0, 0, 0, 0] + [0x86, 0xdd] + p
    case Framed(f) => if f[0] & 0x01 != 0 then f else devAddr + f[6..]
  }

  /** The stray frames: to a group address whose first byte looks like IP. */
  predicate Stray(a: Arrival) {
    a.Framed? && a.frame != [] && a.frame[0] & 0x01 != 0 && (a.frame[0] >> 4 == 4 || a.frame[0] >> 4 == 6)
  }

  /** With an address that does not look like IP, the fix-up is right about everything the modem sends if and only
      if it is not a frame to a group address whose first byte looks like IP. */
  lemma FixupIsRightIff(a: Arrival, devAddr: Mac)
    requires !LooksLikeIp(devAddr[0]) && Plausible(a, devAddr)
    ensures Fixed(OnTheWire(a), devAddr) == Wanted(a, devAddr) <==> !Stray(a)
  {
    var first := OnTheWire(a)[0];
    Nibble(first);
    GroupBit(first);
    PossiblyIff(first);
    hide HighNibble, IsMulticast, LooksLikeIp;
    match a
    case Raw4(p) => RawFixed(p, devAddr);
    case Raw6(p) => RawFixed(p, devAddr);
    case Framed(f) =>
      if LooksLikeIp(f[0]) {
        RawFixed(f, devAddr);
        assert f[..6][0] == f[0];
        assert |Fixed(f, devAddr)| == |f| + 14;
        GroupAddress(f, devAddr);
      } else {
        FrameFixed(f, devAddr);
      }
  }

  /** What looks like IP gets the header of its version. */
  lemma RawFixed(p: Bytes, devAddr: Mac)
    requires |p| >= 14 && LooksLikeIp(p[0])
    ensures Fixed(p, devAddr) ==
            devAddr + [0, 0, 0, 0, 0, 0] + (if p[0] >> 4 == 4 then [0x08, 0x00] else [0x86, 0xdd]) + p
  {
    Nibble(p[0]);
  }

  /** A frame that looks like IP and is sent to us, or to the bogus address, is a group frame. */
  lemma GroupAddress(f: Bytes, devAddr: Mac)
    requires Plausible(Framed(f), devAddr) && LooksLikeIp(f[0]) && !LooksLikeIp(devAddr[0])
    ensures f[0] & 0x01 != 0
  {
    assert f[..6][0] == f[0];
  }

  lemma FrameFixed(f: Bytes, devAddr: Mac)
    requires Plausible(Framed(f), devAddr) && !LooksLikeIp(f[0])
    ensures Fixed(f, devAddr) == Wanted(Framed(f), devAddr)
  {
    Nibble(f[0]);
    GroupBit(f[0]);
    assert f[..6][0] == f[0];
    if f[..6] == devAddr {
      assert f == f[..6] + f[6..];
    } else if f[..6] == [0x00, 0xa0, 0xc6, 0x00, 0x00, 0x00] {
      assert f[0] == 0;
    }
  }

  /** An address that looks like IP would break every frame to us: the condition on the address is needed. */
  lemma AddressConditionNeeded(f: Bytes, devAddr: Mac)
    requires LooksLikeIp(devAddr[0]) && devAddr[0] & 0x01 == 0 && |f| >= 14 && f[..6] == devAddr
    ensures Plausible(Framed(f), devAddr) && Fixed(f, devAddr) != Wanted(Framed(f), devAddr)
  {
    assert f[..6][0] == f[0];
    assert |Fixed(f, devAddr)| == |f| + 14;
  }

  /** From a bind through any address changes to a packet: it is dropped exactly if it is raw and lacks headroom for a
      header, and otherwise becomes what the stack should get. */
  method Receive(dev: NetDev, random: Mac, attempts: seq<Attempt>, a: Arrival, headroom: nat)
    returns (r: int, skb: Skb)
    requires dev.Valid()
    modifies dev.devAddr
    ensures !LooksLikeIp(dev.devAddr[0])
    ensures skb.Valid() && fresh(skb) && fresh(skb.buf)
    ensures Plausible(a, dev.devAddr[..]) && !Stray(a) ==>
              && (r == 0 <==> !a.Framed? && headroom < 14)
              && (r == 1 ==> skb.Packet() == Wanted(a, dev.devAddr[..]))
  {
    dev.BindTail(random);
    ghost var bound := dev.devAddr[..];
    var i := 0;
    hide LooksLikeIp, IsMulticast, HighNibble, MadeLocal, Fixed, Changed;
    while i < |attempts|
      invariant 0 <= i <= |attempts| && dev.devAddr[..] == AfterAll(bound, attempts[..i])
    {
      var ret := dev.MacAddr(attempts[i]);
      i := i + 1;
      assert attempts[..i][..i - 1] == attempts[..i - 1];
    }
    AddressNeverLooksLikeIp(bound, attempts[..i]);
    ghost var addr := dev.devAddr[..];
    skb := new Skb(OnTheWire(a), headroom);
    r := skb.RxFixup(dev.devAddr[..]);
    if Plausible(a, addr) {
      FixupIsRightIff(a, addr);
      FramesToUs(a, addr);
    }
  }

  /** Whether what arrives looks like IP tells raw packets from frames. */
  lemma FramesToUs(a: Arrival, devAddr: Mac)
    requires !LooksLikeIp(devAddr[0]) && Plausible(a, devAddr)
    ensures |OnTheWire(a)| >= 14
    ensures var first := OnTheWire(a)[0]; !Stray(a) ==> (first >> 4 == 4 || first >> 4 == 6 <==> !a.Framed?)
  {
    PossiblyIff(OnTheWire(a)[0]);
    if a.Framed? && LooksLikeIp(a.frame[0]) { GroupAddress(a.frame, devAddr); }
  }
}
