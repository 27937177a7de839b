/** The packet parser of the software half of the hardware NAT (config/mtk2/kernel/ra_nat.c: GetPppoeSid,
    isSpecialTag, is8021Q, PpeParseLayerInfo) with CONFIG_HNAT_V2 and IPv6 on MT7621, without hardware VLAN
    transmission, multicast acceleration, PPTP or L2TP.

    A frame is the bytes from skb->data on; 16-bit fields are big endian. Bytes past the end read as 0. */
module HnatParse {
  import opened Wrappers

  type byte = b: nat | b < 256

  const ETH_P_IP := 0x0800
  const ETH_P_8021Q := 0x8100
  const ETH_P_IPV6 := 0x86DD
  const ETH_P_PPP_SES := 0x8864
  const PPP_IP := 0x0021
  const PPP_IPV6 := 0x0057
  const IPPROTO_IPIP := 4
  const IPPROTO_TCP := 6
  const IPPROTO_UDP := 17
  const IPPROTO_IPV6 := 41
  const IPPROTO_GRE := 47
  const ETH_HLEN: nat := 14
  const VLAN_HLEN: nat := 4

  // ----- reading a frame ----------------------------------------------------------------------------------

  function ByteAt(f: seq<byte>, i: nat): byte { if i < |f| then f[i] else 0 }

  function U16(f: seq<byte>, i: nat): nat { 256 * ByteAt(f, i) + ByteAt(f, i + 1) }

  function Bytes(f: seq<byte>, i: nat, n: nat): (r: seq<byte>)
    ensures |r| == n
  {
    seq<byte>(n, k requires k >= 0 => ByteAt(f, i + k))
  }

  // ----- what a frame means -------------------------------------------------------------------------------

  datatype Kind = Ipv4Hnapt | Ipv4Dslite | Ipv6Route3T | Ipv6Route5T

  /** l4 is absent where the parser sets no layer-4 start. */
  datatype Info = Info(dmac: seq<byte>, smac: seq<byte>, tags: seq<nat>, session: Option<nat>, kind: Kind,
                       l3: nat, l4: Option<nat>)

  datatype Outcome = Rejected | Accepted(info: Info)

  /** The TCIs of the chain of 802.1Q tags whose first type field is at off. */
  function Tags(f: seq<byte>, off: nat): seq<nat>
    decreases |f| - off
  {
    if off < |f| && U16(f, off) == ETH_P_8021Q then [U16(f, off + 2)] + Tags(f, off + 4) else []
  }

  predicate Unfragmented(f: seq<byte>, l3: nat) { U16(f, l3 + 6) % 0x4000 == 0 }

  /** What the network header at l3 says. */
  function Network(f: seq<byte>, info: Info, v4: bool): Outcome {
    var ihl := ByteAt(f, info.l3) % 16;
    if v4 then
      if ByteAt(f, info.l3 + 9) in {IPPROTO_TCP, IPPROTO_UDP} && Unfragmented(f, info.l3)
      then Accepted(info.(kind := Ipv4Hnapt, l4 := Some(info.l3 + 4 * ihl))) else Rejected
    else if ByteAt(f, info.l3 + 6) in {IPPROTO_TCP, IPPROTO_UDP}
    then Accepted(info.(kind := Ipv6Route5T, l4 := Some(info.l3 + 40)))
    else Accepted(info.(kind := if ByteAt(f, info.l3 + 6) == IPPROTO_IPIP then Ipv4Dslite else Ipv6Route3T, l4 := None))
  }

  /** Where the last type field of the tag chain ends, and what it says. */
  function Head(f: seq<byte>): nat { ETH_HLEN + 4 * |Tags(f, 12)| }

  function Proto(f: seq<byte>): nat { U16(f, Head(f) - 2) }

  /** A PPPoE header of version 1, type 1 that carries IPv4 or IPv6 (section 4 of RFC 2516). */
  predicate SessionFine(f: seq<byte>, h: nat) { ByteAt(f, h) == 0x11 && U16(f, h + 6) in {PPP_IP, PPP_IPV6} }

  /** Peel off all the tags there are, then PPPoE if it is there, then look at the network header. */
  function Parse(f: seq<byte>): Outcome {
    var h := Head(f);
    var info := Info(Bytes(f, 0, 6), Bytes(f, 6, 6), Tags(f, 12), None, Ipv4Hnapt, h, None);
    if ByteAt(f, 0) % 2 == 1 || |info.tags| > 2 then Rejected
    else if Proto(f) == ETH_P_PPP_SES then
      if !SessionFine(f, h) then Rejected
      else Network(f, info.(session := Some(U16(f, h + 2)), l3 := h + 8), U16(f, h + 6) == PPP_IP)
    else if Proto(f) == ETH_P_IP then Network(f, info, true)
    else if Proto(f) == ETH_P_IPV6 then Network(f, info, false)
    else Rejected
  }

  // ----- the parser in the source's own form ----------------------------------------------------------------

  datatype PktType = Unset | Hnapt | Dslite | Route3T | Route5T | Sixrd

  /** PktParseResult, and the layer starts that the parser leaves in the skb. */
  class PktParseResult {
    var dmac: seq<byte>
    var smac: seq<byte>
    var ethType: nat
    var vlan1: nat
    var vlan2: nat
    var vlan1Gap: nat
    var vlan2Gap: nat
    var vlanLayer: nat
    var vlanTag: nat
    var pppoeGap: nat
    var pppoeSid: nat
    var pppTag: nat
    var iph: seq<byte>
    var ip6h: seq<byte>
    var th: seq<byte>
    var uh: seq<byte>
    var pktType: PktType
    var layer2: nat
    var layer3: nat
    var layer4: nat

    constructor () {
      dmac, smac, iph, ip6h, th, uh := [], [], [], [], [], [];
      ethType, vlan1, vlan2, vlan1Gap, vlan2Gap, vlanLayer, vlanTag := 0, 0, 0, 0, 0, 0, 0;
      pppoeGap, pppoeSid, pppTag, layer2, layer3, layer4 := 0, 0, 0, 0, 0, 0;
      pktType := Unset;
    }

    /** What the fields say, as an Info. */
    function Meaning(): Info
      reads this
    {
      Info(dmac, smac, if vlanLayer == 0 then [] else if vlanLayer == 1 then [vlan1] else [vlan1, vlan2],
           if pppoeGap == 8 then Some(pppoeSid) else None,
           match pktType
           case Hnapt => Ipv4Hnapt
           case Dslite => Ipv4Dslite
           case Route3T => Ipv6Route3T
           case _ => Ipv6Route5T,
           layer3, if pktType in {Hnapt, Route5T} then Some(layer4) else None)
    }

    predicate IsV4()
      reads `ethType, `pppTag
    {
      ethType == ETH_P_IP || (ethType == ETH_P_PPP_SES && pppTag == PPP_IP)
    }

    predicate IsV6()
      reads `ethType, `pppTag
    {
      ethType == ETH_P_IPV6 || (ethType == ETH_P_PPP_SES && pppTag == PPP_IPV6)
    }

    /** Tags, type and session are those of the frame. */
    ghost predicate Layer2(f: seq<byte>)
      reads `ethType, `vlanLayer, `vlan1Gap, `vlan2Gap, `vlan1, `vlan2, `vlanTag, `pppoeGap, `pppoeSid, `pppTag
    {
      var tags, h := Tags(f, 12), Head(f);
      && |tags| <= 2 && ethType == Proto(f) && vlanLayer == |tags|
      && vlan1Gap == (if |tags| >= 1 then 4 else 0) && vlan2Gap == (if |tags| >= 2 then 4 else 0)
      && vlan1 == (if |tags| >= 1 then tags[0] else 0) && vlan2 == (if |tags| >= 2 then tags[1] else 0)
      && vlanTag == (if |tags| >= 1 then ETH_P_8021Q else 0)
      && if Proto(f) == ETH_P_PPP_SES
         then SessionFine(f, h) && pppoeGap == 8 && pppoeSid == U16(f, h + 2) && pppTag == U16(f, h + 6)
         else pppoeGap == 0 && pppoeSid == 0 && pppTag == 0
    }

    /** The headers are the bytes found at the layer-3 start and behind it. */
    ghost predicate Layer3(f: seq<byte>)
      reads this
    {
      && (IsV4() || IsV6())
      && (if IsV4() then iph == Bytes(f, layer3, 20) && ip6h == [] else iph == [] && ip6h == Bytes(f, layer3, 40))
      && var proto := if IsV4() then iph[9] else ip6h[6];
         var ports := proto in {IPPROTO_TCP, IPPROTO_UDP};
         && pktType == (if IsV4() then Hnapt
                        else if ports then Route5T
                        else if proto == IPPROTO_IPIP then Dslite
                        else Route3T)
         && (ports ==> layer4 == layer3 + if IsV4() then 4 * (iph[0] % 16) else 40)
         && th == (if proto == IPPROTO_TCP then Bytes(f, layer4, 20) else [])
         && uh == (if proto == IPPROTO_UDP then Bytes(f, layer4, 8) else [])
    }

    /** GetPppoeSid; 1 is refusal. */
    method GetPppoeSid(f: seq<byte>, vlanGap: nat) returns (r: int)
      modifies `pppTag, `pppoeSid
      ensures pppTag == U16(f, ETH_HLEN + vlanGap + 6)
      ensures r == 0 <==> ByteAt(f, ETH_HLEN + vlanGap) == 0x11 && pppTag in {PPP_IP, PPP_IPV6}
      ensures pppoeSid == if r == 0 then U16(f, ETH_HLEN + vlanGap + 2) else old(pppoeSid)
    {
      var peh := ETH_HLEN + vlanGap;
      pppTag := U16(f, peh + 6);
      var ver, kind := ByteAt(f, peh) / 16, ByteAt(f, peh) % 16;
      if ver != 1 || kind != 1 || (pppTag != PPP_IP && pppTag != PPP_IPV6) {
        return 1;
      }
      pppoeSid := U16(f, peh + 2);
      return 0;
    }

    /** isSpecialTag: the test uses the logical instead of the bitwise "and" and is never true. */
    method IsSpecialTag(ethType: nat) returns (b: bool)
      ensures !b
    {
      // 0x0081 is htons(0x8100) on the little-endian target; (x && 0x00FF) is 0 or 1
      b := (if ethType != 0 then 1 else 0) == 0x0081;
    }

    method Is8021Q(ethType: nat) returns (b: bool)
      modifies `vlanTag
      ensures b <==> ethType == ETH_P_8021Q
      ensures vlanTag == if b then ethType else old(vlanTag)
    {
      if ethType == ETH_P_8021Q {
        vlanTag := ethType;
        return true;
      }
      return false;
    }

    /** Lines 1513-1591: the tags and PPPoE. 1 is refusal. */
    method ParseLayer2(f: seq<byte>) returns (r: int)
      requires ethType == U16(f, 12) && vlan1Gap == vlan2Gap == vlanLayer == pppoeGap == vlan1 == vlan2 == vlanTag == 0
      requires pppTag == pppoeSid == 0
      modifies `ethType, `vlan1, `vlan2, `vlan1Gap, `vlan2Gap, `vlanLayer, `vlanTag, `pppoeGap, `pppoeSid, `pppTag
      ensures r != 0 ==> |Tags(f, 12)| <= 2 ==> Proto(f) == ETH_P_PPP_SES && !SessionFine(f, Head(f))
      ensures r == 0 ==> if |Tags(f, 12)| <= 2 then Layer2(f) else ethType == ETH_P_8021Q
    {
      TagsUnfold(f);
      hide Tags, U16, ByteAt;
      var tagged := Is8021Q(ethType);
      if !tagged { tagged := IsSpecialTag(ethType); }
      if tagged {
        vlan1Gap := VLAN_HLEN;
        vlanLayer := vlanLayer + 1;
        var vh := ETH_HLEN;
        vlan1 := U16(f, vh);
        var inner := U16(f, vh + 2);
        if inner == ETH_P_PPP_SES {
          pppoeGap := 8;
          r := GetPppoeSid(f, vlan1Gap);
          if r != 0 { return 1; }
          ethType := inner;
        } else {
          var twice := Is8021Q(inner);
          if !twice { twice := IsSpecialTag(inner); }
          if twice {
            vlan2Gap := VLAN_HLEN;
            vlanLayer := vlanLayer + 1;
            vh := ETH_HLEN + vlan1Gap;
            vlan2 := U16(f, vh);
            inner := U16(f, vh + 2);
            if inner == ETH_P_PPP_SES {
              pppoeGap := 8;
              r := GetPppoeSid(f, vlan1Gap + vlan2Gap);
              if r != 0 { return 1; }
              ethType := inner;
            } else {
              var thrice := Is8021Q(inner);
              if thrice {
                vlanLayer := vlanLayer + 1;
                vh := ETH_HLEN + vlan1Gap + VLAN_HLEN;
                var again := Is8021Q(U16(f, vh + 2));
                if again { vlanLayer := vlanLayer + 1; }
              } else {
                ethType := inner;
              }
            }
          } else {
            ethType := inner;
          }
        }
      } else if ethType == ETH_P_PPP_SES {
        pppoeGap := 8;
        r := GetPppoeSid(f, vlan1Gap);
        if r != 0 { return 1; }
      }
      return 0;
    }

    /** Lines 1596-1687: the network and transport headers. 1 is refusal. */
    method ParseLayer3(f: seq<byte>) returns (r: int)
      requires iph == [] && ip6h == [] && th == [] && uh == [] && pktType == Unset
      modifies `layer4, `iph, `ip6h, `th, `uh, `pktType
      ensures r == 0 <==>
              IsV6() ||
              (IsV4() && ByteAt(f, layer3 + 9) in {IPPROTO_TCP, IPPROTO_UDP} && Unfragmented(f, layer3))
      ensures r == 0 ==> Layer3(f)
    {
      if IsV4() {
        iph := Bytes(f, layer3, 20);
        var protocol, ihl := iph[9], iph[0] % 16;
        if protocol == IPPROTO_TCP {
          layer4 := layer3 + 4 * ihl;
          th := Bytes(f, layer4, 20);
          pktType := Hnapt;
          if U16(f, layer3 + 6) % 0x4000 != 0 { return 1; }
        } else if protocol == IPPROTO_UDP {
          layer4 := layer3 + 4 * ihl;
          uh := Bytes(f, layer4, 8);
          pktType := Hnapt;
          if U16(f, layer3 + 6) % 0x4000 != 0 { return 1; }
        } else if protocol == IPPROTO_GRE {
          return 1;
        } else if protocol == IPPROTO_IPV6 {
          var inner := layer3 + 4 * ihl;
          ip6h := Bytes(f, inner, 40);
          if ip6h[6] == IPPROTO_TCP || ip6h[6] == IPPROTO_UDP { layer4 := inner + 40; }
          pktType := Sixrd;
          return 1;
        } else {
          return 1;
        }
      } else if IsV6() {
        ip6h := Bytes(f, layer3, 40);
        if ip6h[6] == IPPROTO_TCP {
          layer4 := layer3 + 40;
          th := Bytes(f, layer4, 20);
          pktType := Route5T;
        } else if ip6h[6] == IPPROTO_UDP {
          layer4 := layer3 + 40;
          uh := Bytes(f, layer4, 8);
          pktType := Route5T;
        } else if ip6h[6] == IPPROTO_IPIP {
          pktType := Dslite;
        } else {
          pktType := Route3T;
        }
      } else {
        return 1;
      }
      return 0;
    }

    /** The two halves together say what Parse says. */
    lemma Agree(f: seq<byte>)
      requires Layer2(f) && ByteAt(f, 0) % 2 == 0 && dmac == Bytes(f, 0, 6) && smac == Bytes(f, 6, 6)
      requires layer3 == ETH_HLEN + vlan1Gap + vlan2Gap + pppoeGap
      ensures Parse(f).Accepted? <==>
                IsV6() || (IsV4() && ByteAt(f, layer3 + 9) in {IPPROTO_TCP, IPPROTO_UDP} && Unfragmented(f, layer3))
      ensures Parse(f).Accepted? && Layer3(f) ==> Meaning() == Parse(f).info
    {
      hide Tags, U16, ByteAt, Unfragmented;
    }

    /** The memset of the whole result, in two halves. */
    method ClearHeaders()
      modifies `iph, `ip6h, `th, `uh, `pktType
      ensures iph == [] && ip6h == [] && th == [] && uh == [] && pktType == Unset
    {
      iph, ip6h, th, uh := [], [], [], [];
      pktType := Unset;
    }

    method ClearLayer2()
      modifies `vlan1, `vlan2, `vlan1Gap, `vlan2Gap, `vlanLayer, `vlanTag, `pppoeGap, `pppoeSid, `pppTag
      ensures vlan1Gap == vlan2Gap == vlanLayer == pppoeGap == vlan1 == vlan2 == vlanTag == 0
      ensures pppTag == pppoeSid == 0
    {
      vlan1, vlan2, vlan1Gap, vlan2Gap, vlanLayer, vlanTag := 0, 0, 0, 0, 0, 0;
      pppoeGap, pppoeSid, pppTag := 0, 0, 0;
    }

    /** Clear everything and copy the Ethernet header. */
    method Start(f: seq<byte>)
      modifies this
      ensures iph == [] && ip6h == [] && th == [] && uh == [] && pktType == Unset
      ensures vlan1Gap == vlan2Gap == vlanLayer == pppoeGap == vlan1 == vlan2 == vlanTag == 0
      ensures pppTag == pppoeSid == 0
      ensures dmac == Bytes(f, 0, 6) && smac == Bytes(f, 6, 6) && ethType == U16(f, 12)
    {
      hide *;
      ClearHeaders();
      ClearLayer2();
      dmac, smac := Bytes(f, 0, 6), Bytes(f, 6, 6);
      ethType := U16(f, 12);
    }

    /** PpeParseLayerInfo: accepts (0) exactly the frames that Parse accepts, and then says the same. */
    method ParseLayerInfo(f: seq<byte>) returns (r: int)
      modifies this
      ensures r == 0 <==> Parse(f).Accepted?
      ensures r == 0 ==> Meaning() == Parse(f).info && Layer2(f) && Layer3(f) && layer2 == 0
    {
      hide *;
      RefusedEarly(f);
      Start(f);
      if ByteAt(f, 0) % 2 == 1 { return 1; }
      r := ParseLayer2(f);
      if r != 0 { return 1; }
      layer2 := 0;
      layer3 := ETH_HLEN + vlan1Gap + vlan2Gap + pppoeGap;
      r := ParseLayer3(f);
      if |Tags(f, 12)| <= 2 { Agree(f); } else { StrayType(); }
    }

    lemma StrayType()
      requires ethType == ETH_P_8021Q
      ensures !IsV4() && !IsV6()
    {
    }
  }

  lemma RefusedEarly(f: seq<byte>)
    ensures ByteAt(f, 0) % 2 == 1 || |Tags(f, 12)| > 2 || (Proto(f) == ETH_P_PPP_SES && !SessionFine(f, Head(f))) ==>
              Parse(f).Rejected?
  {
    hide Tags, U16, ByteAt;
  }

  /** The nested tests of the parser see at most three tags. */
  lemma TagsUnfold(f: seq<byte>)
    ensures var tags := Tags(f, 12);
            && (U16(f, 12) != ETH_P_8021Q ==> tags == [])
            && (U16(f, 12) == ETH_P_8021Q ==> |tags| >= 1 && tags[0] == U16(f, 14))
            && (U16(f, 12) == ETH_P_8021Q && U16(f, 16) != ETH_P_8021Q ==> |tags| == 1)
            && (U16(f, 12) == ETH_P_8021Q && U16(f, 16) == ETH_P_8021Q ==> |tags| >= 2 && tags[1] == U16(f, 18))
            && (U16(f, 12) == ETH_P_8021Q && U16(f, 16) == ETH_P_8021Q && U16(f, 20) != ETH_P_8021Q ==> |tags| == 2)
            && (U16(f, 12) == ETH_P_8021Q && U16(f, 16) == ETH_P_8021Q && U16(f, 20) == ETH_P_8021Q ==> |tags| >= 3)
  {
    TagsStep(f, 12);
    TagsStep(f, 16);
    TagsStep(f, 20);
    hide Tags, U16;
  }

  lemma TagsStep(f: seq<byte>, off: nat)
    ensures Tags(f, off) == if U16(f, off) == ETH_P_8021Q then [U16(f, off + 2)] + Tags(f, off + 4) else []
  {
  }
}
