/** The grammar of Ethernet frames that the hardware NAT's parser is meant for, and the parser's verdict on it:
    printing a packet and parsing the frame gives the packet back. */
module HnatFrame {
  import opened HnatParse
  import opened Wrappers

  /** The PPPoE header of section 4 of RFC 2516; version and type share a byte. */
  datatype Session = Session(verType: byte, code: byte, sid: nat, len: nat)

  /** body is the network header and all that follows it. */
  datatype Packet = Packet(dmac: seq<byte>, smac: seq<byte>, tags: seq<nat>, session: Option<Session>, v4: bool,
                           body: seq<byte>)

  /** Tag control information is 16 bits wide. */
  predicate Tcis(tags: seq<nat>) { forall i :: 0 <= i < |tags| ==> tags[i] < 0x10000 }

  predicate WellFormed(p: Packet) {
    && |p.dmac| == 6 && |p.smac| == 6
    && Tcis(p.tags)
    && (p.session.Some? ==> p.session.value.sid < 0x10000 && p.session.value.len < 0x10000)
    && |p.body| >= if p.v4 then 20 else 40
  }

  function Be16(x: nat): (r: seq<byte>)
    requires x < 0x10000
    ensures |r| == 2
  {
    [x / 256, x % 256]
  }

  function PrintTags(tags: seq<nat>): (r: seq<byte>)
    requires Tcis(tags)
    ensures |r| == 4 * |tags|
  {
    if tags == [] then [] else [0x81, 0x00] + Be16(tags[0]) + PrintTags(tags[1..])
  }

  /** The last type field, and the PPPoE header with the PPP protocol if there is a session. */
  function PrintType(session: Option<Session>, v4: bool): (r: seq<byte>)
    requires session.Some? ==> session.value.sid < 0x10000 && session.value.len < 0x10000
    ensures |r| == if session.Some? then 10 else 2
  {
    match session
    case None => if v4 then [0x08, 0x00] else [0x86, 0xDD]
    case Some(s) => [0x88, 0x64] + [s.verType, s.code] + Be16(s.sid) + Be16(s.len) +
                    if v4 then [0x00, 0x21] else [0x00, 0x57]
  }

  function Print(p: Packet): seq<byte>
    requires WellFormed(p)
  {
    (p.dmac + p.smac) + PrintTags(p.tags) + (PrintType(p.session, p.v4) + p.body)
  }

  /** What the hardware can speed up: unicast, at most two tags, a proper session, IPv6, or unfragmented TCP or UDP
      over IPv4, protocols 6 and 17 (section 3.1 of RFC 791). */
  predicate Speedable(p: Packet)
    requires WellFormed(p)
  {
    && p.dmac[0] % 2 == 0 && |p.tags| <= 2 && (p.session.Some? ==> p.session.value.verType == 0x11)
    && (p.v4 ==> p.body[9] in {6, 17} && p.body[6] % 64 == 0 && p.body[7] == 0)
  }

  function Layer3Of(p: Packet): nat { 14 + 4 * |p.tags| + if p.session.Some? then 8 else 0 }

  function InfoOf(p: Packet): Info
    requires WellFormed(p)
  {
    var l3 := Layer3Of(p);
    var ports := p.v4 || p.body[6] in {6, 17};
    Info(p.dmac, p.smac, p.tags, if p.session.Some? then Some(p.session.value.sid) else None,
         if p.v4 then Ipv4Hnapt
         else if ports then Ipv6Route5T
         else if p.body[6] == 4 then Ipv4Dslite
         else Ipv6Route3T,
         l3,
         if !ports then None else Some(l3 + if p.v4 then 4 * (p.body[0] % 16) else 40))
  }

  // ----- parse after print --------------------------------------------------------------------------------

  lemma Behind(pre: seq<byte>, x: seq<byte>, i: nat)
    ensures ByteAt(pre + x, |pre| + i) == ByteAt(x, i) && U16(pre + x, |pre| + i) == U16(x, i)
  {
  }

  /** One tag reads back, and the rest of the chain follows it. */
  lemma TagReads(pre: seq<byte>, tci: nat, rest: seq<byte>)
    requires tci < 0x10000
    ensures var f := pre + ([0x81, 0x00] + Be16(tci) + rest);
            U16(f, |pre|) == ETH_P_8021Q && U16(f, |pre| + 2) == tci
  {
    var x := [0x81, 0x00] + Be16(tci) + rest;
    assert ByteAt(x, 0) == 0x81 && ByteAt(x, 1) == 0 && ByteAt(x, 2) == tci / 256 && ByteAt(x, 3) == tci % 256;
    Behind(pre, x, 0);
    Behind(pre, x, 2);
  }

  lemma {:induction false} TagsOfPrint(pre: seq<byte>, tags: seq<nat>, tail: seq<byte>)
    requires Tcis(tags)
    requires U16(tail, 0) != ETH_P_8021Q
    ensures Tags(pre + PrintTags(tags) + tail, |pre|) == tags
    decreases |tags|
  {
    hide U16, Be16;
    var f := pre + PrintTags(tags) + tail;
    TagsStep(f, |pre|);
    if tags == [] {
      assert f == pre + tail;
      Behind(pre, tail, 0);
    } else {
      var tag := [0x81, 0x00] + Be16(tags[0]);
      var rest := PrintTags(tags[1..]);
      Regroup(pre, tag, rest, tail);
      TagsOfPrint(pre + tag, tags[1..], tail);
      TagReads(pre, tags[0], rest + tail);
      hide PrintTags, Tags;
    }
  }

  lemma Regroup(a: seq<byte>, b: seq<byte>, c: seq<byte>, d: seq<byte>)
    ensures a + (b + c) + d == (a + b) + c + d == a + (b + (c + d))
  {
    assert a + (b + c) == (a + b) + c;
    assert b + c + d == b + (c + d);
  }

  /** The last type field and the session read back. */
  lemma TypeReads(p: Packet)
    requires WellFormed(p)
    ensures var x := PrintType(p.session, p.v4) + p.body;
            && U16(x, 0) == (if p.session.Some? then ETH_P_PPP_SES else if p.v4 then ETH_P_IP else ETH_P_IPV6)
            && (p.session.Some? ==> ByteAt(x, 2) == p.session.value.verType && U16(x, 4) == p.session.value.sid &&
                                    U16(x, 8) == if p.v4 then PPP_IP else PPP_IPV6)
  {
  }

  lemma TagsFound(p: Packet)
    requires WellFormed(p)
    ensures Tags(Print(p), 12) == p.tags && Head(Print(p)) == ETH_HLEN + 4 * |p.tags|
  {
    TypeReads(p);
    TagsOfPrint(p.dmac + p.smac, p.tags, PrintType(p.session, p.v4) + p.body);
  }

  lemma MacsFound(p: Packet)
    requires WellFormed(p)
    ensures Bytes(Print(p), 0, 6) == p.dmac && Bytes(Print(p), 6, 6) == p.smac && ByteAt(Print(p), 0) == p.dmac[0]
  {
    hide PrintType, PrintTags;
  }

  lemma TypeAt(p: Packet, i: nat)
    requires WellFormed(p)
    ensures var f := Print(p); var x := PrintType(p.session, p.v4) + p.body; var off := 12 + 4 * |p.tags|;
            ByteAt(f, off + i) == ByteAt(x, i) && U16(f, off + i) == U16(x, i)
  {
    hide PrintType, PrintTags, U16;
    Behind(p.dmac + p.smac + PrintTags(p.tags), PrintType(p.session, p.v4) + p.body, i);
  }

  lemma BodyAt(p: Packet, i: nat)
    requires WellFormed(p)
    ensures ByteAt(Print(p), Layer3Of(p) + i) == ByteAt(p.body, i) && U16(Print(p), Layer3Of(p) + i) == U16(p.body, i)
  {
    hide PrintType, PrintTags, U16;
    var pre := p.dmac + p.smac + PrintTags(p.tags) + PrintType(p.session, p.v4);
    assert Print(p) == pre + p.body;
    Behind(pre, p.body, i);
  }

  /** What the parser reads around the last type field. */
  lemma TypeFound(p: Packet)
    requires WellFormed(p)
    ensures var f := Print(p); var h := Head(f);
            && Proto(f) == (if p.session.Some? then ETH_P_PPP_SES else if p.v4 then ETH_P_IP else ETH_P_IPV6)
            && (p.session.Some? ==> ByteAt(f, h) == p.session.value.verType && U16(f, h + 2) == p.session.value.sid &&
                                    U16(f, h + 6) == if p.v4 then PPP_IP else PPP_IPV6)
  {
    TagsFound(p);
    TypeReads(p);
    TypeAt(p, 0);
    TypeAt(p, 2);
    TypeAt(p, 4);
    TypeAt(p, 8);
    hide PrintType, PrintTags, Print, Tags, U16;
  }

  lemma FragmentBits(b: seq<byte>)
    requires |b| >= 8
    ensures U16(b, 6) % 0x4000 == 0 <==> b[6] % 64 == 0 && b[7] == 0
  {
  }

  /** What the parser reads in the network header. */
  lemma NetworkFound(p: Packet, info: Info)
    requires WellFormed(p) && info.l3 == Layer3Of(p)
    ensures Network(Print(p), info, p.v4) ==
            if p.v4 && !(p.body[9] in {6, 17} && p.body[6] % 64 == 0 && p.body[7] == 0) then Rejected
            else Accepted(info.(kind := InfoOf(p).kind, l4 := InfoOf(p).l4))
  {
    BodyAt(p, 0);
    BodyAt(p, 6);
    BodyAt(p, 9);
    FragmentBits(p.body);
    hide PrintType, PrintTags, Print, Tags, U16, WellFormed;
  }

  /** For every packet of the grammar, whatever its number of tags: the frame is accepted exactly if the packet can
      be speeded up, and then everything in it is recovered, with the exact layer-3 and layer-4 offsets. */
  lemma ParseAfterPrint(p: Packet)
    requires WellFormed(p)
    ensures Parse(Print(p)) == if Speedable(p) then Accepted(InfoOf(p)) else Rejected
  {
    hide U16, PrintType, PrintTags, Print, Tags, Network, Unfragmented, Bytes, Head, Proto;
    var info := Info(p.dmac, p.smac, p.tags, None, Ipv4Hnapt, Layer3Of(p), None);
    TagsFound(p);
    MacsFound(p);
    TypeFound(p);
    NetworkFound(p, if p.session.Some? then info.(session := Some(p.session.value.sid)) else info);
  }

  // ----- every accepted frame is a printed packet -----------------------------------------------------------

  /** The packet in an accepted frame. */
  function Unprint(f: seq<byte>): Packet
    requires Parse(f).Accepted? && Complete(f)
  {
    var info, h := Parse(f).info, Head(f);
    Packet(f[..6], f[6..12], Tags(f, 12),
           if Proto(f) != ETH_P_PPP_SES then None
           else Some(Session(ByteAt(f, h), ByteAt(f, h + 1), U16(f, h + 2), U16(f, h + 4))),
           info.kind == Ipv4Hnapt, f[info.l3..])
  }

  /** The frame holds the whole network header, which the parser does not check. */
  predicate Complete(f: seq<byte>)
    requires Parse(f).Accepted?
  {
    |f| >= Parse(f).info.l3 + if Parse(f).info.kind == Ipv4Hnapt then 20 else 40
  }

  lemma Be16OfRead(f: seq<byte>, i: nat)
    requires i + 2 <= |f|
    ensures U16(f, i) < 0x10000 && Be16(U16(f, i)) == f[i..i + 2]
  {
  }

  lemma Cut3(f: seq<byte>, i: nat, j: nat, k: nat, l: nat)
    requires i <= j <= k <= l <= |f|
    ensures f[i..l] == f[i..j] + f[j..k] + f[k..l]
  {
  }

  lemma PrintTagsCons(tag: nat, rest: seq<nat>)
    requires tag < 0x10000 && Tcis(rest)
    ensures Tcis([tag] + rest)
    ensures PrintTags([tag] + rest) == [0x81, 0x00] + Be16(tag) + PrintTags(rest)
  {
    assert ([tag] + rest)[1..] == rest;
  }

  lemma PrintNoTags()
    ensures Tcis([]) && PrintTags([]) == []
  {
  }

  lemma {:induction false} PrintOfTags(f: seq<byte>, off: nat)
    requires off + 4 * |Tags(f, off)| <= |f|
    ensures Tcis(Tags(f, off)) && PrintTags(Tags(f, off)) == f[off..off + 4 * |Tags(f, off)|]
    decreases |f| - off
  {
    hide U16, Be16, Tags, PrintTags, Tcis;
    TagsStep(f, off);
    PrintNoTags();
    if U16(f, off) != ETH_P_8021Q {
      assert f[off..off] == [];
    } else {
      var rest := Tags(f, off + 4);
      TagInFrame(f, off);
      PrintOfTags(f, off + 4);
      PrintTagsCons(U16(f, off + 2), rest);
      Cut3(f, off, off + 2, off + 4, off + 4 * (1 + |rest|));
    }
  }

  /** The four bytes of a tag. */
  lemma TagInFrame(f: seq<byte>, off: nat)
    requires U16(f, off) == ETH_P_8021Q && off + 4 <= |f|
    ensures U16(f, off + 2) < 0x10000
    ensures f[off..off + 2] == [0x81, 0x00] && f[off + 2..off + 4] == Be16(U16(f, off + 2))
  {
    Be16OfRead(f, off);
    Be16OfRead(f, off + 2);
  }

  lemma TenBytes(f: seq<byte>, i: nat)
    requires i + 10 <= |f|
    ensures f[i..i + 10] ==
            f[i..i + 2] + [ByteAt(f, i + 2), ByteAt(f, i + 3)] + f[i + 4..i + 6] + f[i + 6..i + 8] + f[i + 8..i + 10]
  {
  }

  lemma TypesInBytes()
    ensures Be16(ETH_P_IP) == [0x08, 0x00] && Be16(ETH_P_IPV6) == [0x86, 0xDD] && Be16(ETH_P_PPP_SES) == [0x88, 0x64]
    ensures Be16(PPP_IP) == [0x00, 0x21] && Be16(PPP_IPV6) == [0x00, 0x57]
  {
  }

  lemma PrintOfType(f: seq<byte>)
    requires Parse(f).Accepted? && Complete(f)
    ensures var p := Unprint(f); var h := Head(f); var l3 := Parse(f).info.l3;
            && l3 == h + (if p.session.Some? then 8 else 0) && |f| >= l3
            && (p.session.Some? ==> p.session.value.sid < 0x10000 && p.session.value.len < 0x10000)
            && PrintType(p.session, p.v4) == f[h - 2..l3]
  {
    hide Tags, Unfragmented, U16, Bytes, Be16;
    TypesInBytes();
    var h := Head(f);
    Be16OfRead(f, h - 2);
    if Proto(f) == ETH_P_PPP_SES {
      Be16OfRead(f, h + 2);
      Be16OfRead(f, h + 4);
      Be16OfRead(f, h + 6);
      TenBytes(f, h - 2);
    }
  }

  lemma PrintIs(p: Packet, f: seq<byte>, i: nat, j: nat)
    requires WellFormed(p) && 12 <= i <= j <= |f| && p.dmac == f[..6] && p.smac == f[6..12] && p.body == f[j..]
    requires PrintTags(p.tags) == f[12..i] && PrintType(p.session, p.v4) == f[i..j]
    ensures Print(p) == f
  {
    hide PrintTags, PrintType;
    assert f[12..] == f[12..i] + (f[i..j] + f[j..]);
  }

  lemma AcceptedBounds(f: seq<byte>)
    requires Parse(f).Accepted? && Complete(f)
    ensures Parse(f).info.l3 == Head(f) + (if Proto(f) == ETH_P_PPP_SES then 8 else 0) <= |f|
    ensures |f| - Parse(f).info.l3 >= if Parse(f).info.kind == Ipv4Hnapt then 20 else 40
  {
    hide U16, Bytes, Tags, Head, Proto, Unfragmented;
  }

  lemma UnprintWellFormed(f: seq<byte>)
    requires Parse(f).Accepted? && Complete(f)
    ensures WellFormed(Unprint(f))
  {
    AcceptedBounds(f);
    PrintOfType(f);
    hide U16, Bytes, Tags, Parse, Proto, PrintType, Complete;
    PrintOfTags(f, 12);
  }

  /** An accepted frame with a whole network header is the print of a packet that can be speeded up. */
  lemma PrintAfterParse(f: seq<byte>)
    requires Parse(f).Accepted? && Complete(f)
    ensures WellFormed(Unprint(f)) && Speedable(Unprint(f)) && Print(Unprint(f)) == f
  {
    hide U16, Bytes, Tags, Parse, Proto, Complete, PrintType, PrintTags, Speedable, Print, WellFormed;
    UnprintWellFormed(f);
    AcceptedBounds(f);
    PrintOfType(f);
    PrintOfTags(f, 12);
    PrintIs(Unprint(f), f, Head(f) - 2, Parse(f).info.l3);
    ParseAfterPrint(Unprint(f));
  }

  /** The parser accepts the grammar and nothing else. */
  lemma AcceptedIffPrinted(f: seq<byte>)
    ensures (Parse(f).Accepted? && Complete(f)) <==> exists p :: WellFormed(p) && Speedable(p) && Print(p) == f
  {
    hide Parse, Print, Speedable;
    if Parse(f).Accepted? && Complete(f) {
      PrintAfterParse(f);
    }
    forall p | WellFormed(p) && Speedable(p) && Print(p) == f ensures Parse(f).Accepted? && Complete(f) {
      ParseAfterPrint(p);
      PrintedIsComplete(p);
    }
  }

  lemma PrintedIsComplete(p: Packet)
    requires WellFormed(p) && Speedable(p) && Parse(Print(p)) == Accepted(InfoOf(p))
    ensures Complete(Print(p))
  {
    hide Parse, Tags;
  }
}
