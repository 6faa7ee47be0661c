/**
 Reading a route message back: the RTA_MULTIPATH loop of nl_to_route_info
 (src/db_linux_route.c) and the round trip with the encoder.
 */
module RouteDecoder {
  import opened Wire
  import opened Wrappers
  import opened Attributes
  import opened AttributeTree
  import opened MessageBuffer
  import opened Multipath

  /** RTNH_OK; false when the fixed header is not there. */
  predicate RtnhOk(b: bytes, off: nat, end: int)
    requires end <= |b|
  {
    end - off >= RTNH_LEN && RTNH_LEN <= GetU16(b, off) <= end - off
  }

  /** rtnh_next. */
  function RtnhNext(b: bytes, off: nat): nat
    requires off + 2 <= |b|
  {
    off + Align(GetU16(b, off))
  }

  /** nla_data and nla_len of an attribute a table slot points at. */
  function AttrPayload(b: bytes, end: int, slot: Option<nat>): Option<bytes>
    requires end <= |b| && (slot.Some? ==> AttrInside(b, slot.value, 0, end))
  {
    if slot.None? then None
    else Some(Extract(b, slot.value + NLA_HDRLEN, slot.value + GetU16(b, slot.value)))
  }

  lemma SlotInside(b: bytes, off: nat, end: int, ty: nat)
    requires end <= |b|
    ensures var slot := Slot(b, off, end, ty); slot.Some? ==> AttrInside(b, slot.value, off, end)
  {
    SlotIsLastVisited(b, off, end, ty);
    LastOfTypeMeaning(b, Visits(b, off, end), ty);
    VisitsLieInside(b, off, end);
  }

  /** The gateway nhrt_parse finds among the attributes of the next hop at off. */
  function Gateway(b: bytes, off: nat): Option<bytes>
    requires off + RTNH_LEN <= |b| && RTNH_LEN <= GetU16(b, off) <= |b| - off
  {
    var end := off + GetU16(b, off);
    SlotInside(b, off + RTNH_LEN, end, RTA_GATEWAY);
    AttrPayload(b, end, Slot(b, off + RTNH_LEN, end, RTA_GATEWAY))
  }

  /** The fields of the next hop at off. */
  function HopRead(b: bytes, off: nat): Hop
    requires off + RTNH_LEN <= |b| && RTNH_LEN <= GetU16(b, off) <= |b| - off
  {
    Hop(GetU32(b, off + 4), b[off + 3] as int, b[off + 2] as int == RTNH_F_ONLINK, Gateway(b, off))
  }

  /** The next hops in the range from off to end, on any bytes. */
  function HopsRead(b: bytes, off: nat, end: int): seq<Hop>
    requires end <= |b|
    decreases end - off
  {
    if RtnhOk(b, off, end) then [HopRead(b, off)] + HopsRead(b, RtnhNext(b, off), end) else []
  }

  /** The body of the decoder's loop: nhrt_parse over the next hop's attributes, then its fields. */
  method DecodeHop(b: bytes, rtnh: nat, maxType: nat) returns (hop: Hop)
    requires rtnh + RTNH_LEN <= |b| && RTNH_LEN <= GetU16(b, rtnh) <= |b| - rtnh && maxType > RTA_MULTIPATH
    ensures hop == HopRead(b, rtnh)
  {
    var nhattr := new Option<nat>[maxType](_ => None);
    NlaParse(nhattr, b, rtnh + RTNH_LEN, GetU16(b, rtnh) - RTNH_LEN);
    SlotInside(b, rtnh + RTNH_LEN, rtnh + GetU16(b, rtnh), RTA_GATEWAY);
    var gateway := AttrPayload(b, rtnh + GetU16(b, rtnh), nhattr[RTA_GATEWAY]);
    hop := Hop(GetU32(b, rtnh + 4), b[rtnh + 3] as int, b[rtnh + 2] as int == RTNH_F_ONLINK, gateway);
  }

  /** The decoder's loop; maxType is __IFLA_MAX, the size nhrt_parse gives every next hop's table. */
  method DecodeHops(b: bytes, off: nat, len: int, maxType: nat) returns (hops: seq<Hop>, hopCount: nat)
    requires off + len <= |b| && maxType > RTA_MULTIPATH
    ensures hops == HopsRead(b, off, off + len)
    ensures hopCount == |hops|
  {
    var rtnh, remaining := off, len;
    hops, hopCount := [], 0;
    while remaining >= RTNH_LEN && RTNH_LEN <= GetU16(b, rtnh) <= remaining
      invariant rtnh + remaining == off + len
      invariant HopsRead(b, off, off + len) == hops + HopsRead(b, rtnh, off + len)
      invariant hopCount == |hops|
      decreases remaining
    {
      var hop := DecodeHop(b, rtnh, maxType);
      hops := hops + [hop];
      var step := Align(GetU16(b, rtnh));
      rtnh, remaining := rtnh + step, remaining - step;
      hopCount := hopCount + 1;
    }
    assert HopsRead(b, off, off + len) == hops;
  }

  /** A message too short for its fixed headers, a route without RTA_MULTIPATH, or its next hops. */
  datatype RouteRead = TooShort | SinglePath | MultiPath(hops: seq<Hop>)

  /** The next hops of a message whose nlmsg_len is n: those of its last RTA_MULTIPATH attribute. */
  function RouteHops(b: bytes, n: nat): RouteRead
    requires n <= |b|
  {
    if n < ATTRS then TooShort
    else
      SlotInside(b, ATTRS, n, RTA_MULTIPATH);
      match Slot(b, ATTRS, n, RTA_MULTIPATH)
      case None => SinglePath
      case Some(p) => MultiPath(HopsRead(b, p + NLA_HDRLEN, p + GetU16(b, p)))
  }

  /** nl_to_route_info's path to the next hops: parse the message, then walk RTA_MULTIPATH if it is there. */
  method DecodeRoute(b: bytes, n: nat, maxType: nat) returns (r: RouteRead)
    requires n <= |b| && maxType > RTA_MULTIPATH
    ensures r == RouteHops(b, n)
  {
    if n < NLMSG_HDRLEN + RTMSG_LEN {
      return TooShort;
    }
    var attrs := new Option<nat>[maxType](_ => None);
    NlaParse(attrs, b, ATTRS, n - ATTRS);
    SlotInside(b, ATTRS, n, RTA_MULTIPATH);
    match attrs[RTA_MULTIPATH]
    case None =>
      r := SinglePath;
    case Some(p) =>
      var hops, hopCount := DecodeHops(b, p + NLA_HDRLEN, GetU16(b, p) - NLA_HDRLEN, maxType);
      r := MultiPath(hops);
  }

  lemma PayloadMeaning(b: bytes, end: int, a: nat)
    requires end <= |b| && AttrInside(b, a, 0, end)
    ensures AttrPayload(b, end, Some(a)) == Some(b[a + 4..a + GetU16(b, a)])
  {
    assert Extract(b, a + NLA_HDRLEN, a + GetU16(b, a)) == b[a + 4..a + GetU16(b, a)];
  }

  /** What a table gives for a type on any bytes: the payload of the last attribute that has it. */
  lemma PayloadFound(b: bytes, off: nat, end: int, ty: nat)
    requires end <= |b|
    ensures var slot := Slot(b, off, end, ty);
            && slot == LastOfType(b, Visits(b, off, end), ty)
            && (slot.Some? ==>
                  && AttrInside(b, slot.value, 0, end)
                  && AttrPayload(b, end, slot) == Some(b[slot.value + 4..slot.value + GetU16(b, slot.value)]))
  {
    SlotIsLastVisited(b, off, end, ty);
    SlotInside(b, off, end, ty);
    var slot := Slot(b, off, end, ty);
    if slot.Some? {
      PayloadMeaning(b, end, slot.value);
    }
  }

  /** The gateway on any bytes: the payload of the next hop's last attribute of type 5. */
  lemma GatewayMeaning(b: bytes, p: nat)
    requires p + RTNH_LEN <= |b| && RTNH_LEN <= GetU16(b, p) <= |b| - p
    ensures var end := p + GetU16(b, p);
            match LastOfType(b, Visits(b, p + 8, end), 5)
            case None => HopRead(b, p).gateway == None
            case Some(a) => && a + 4 <= |b| && 4 <= GetU16(b, a) <= end - a
                            && HopRead(b, p).gateway == Some(b[a + 4..a + GetU16(b, a)])
  {
    PayloadFound(b, p + 8, p + GetU16(b, p), 5);
  }

  /** The other fields of a next hop on any bytes, by their offsets. */
  lemma HopReadMeaning(b: bytes, p: nat)
    requires p + RTNH_LEN <= |b| && RTNH_LEN <= GetU16(b, p) <= |b| - p
    ensures Word32At(b, p + 4, HopRead(b, p).ifindex)
    ensures HopRead(b, p).weight == b[p + 3] as int
    ensures HopRead(b, p).onlink <==> b[p + 2] == 4
  {
  }

  /** Which next hops a message has: none of its own when it is short or lacks an attribute of type 9. */
  lemma RouteHopsMeaning(b: bytes, n: nat)
    requires n <= |b|
    ensures RouteHops(b, n) == TooShort <==> n < 28
    ensures n >= 28 ==>
      match LastOfType(b, Visits(b, 28, n), 9)
      case None => RouteHops(b, n) == SinglePath
      case Some(p) => && p + 4 <= |b| && 4 <= GetU16(b, p) <= n - p
                      && RouteHops(b, n) == MultiPath(HopsRead(b, p + 4, p + GetU16(b, p)))
  {
    if n >= 28 {
      SlotIsLastVisited(b, ATTRS, n, RTA_MULTIPATH);
      SlotInside(b, ATTRS, n, RTA_MULTIPATH);
    }
  }

  // ---------------------------------------------------------------- round trip

  /** What the requester asked for, in the decoder's terms: the weight modulo 256. */
  function Intended(h: HopRequest): Hop {
    Hop(match h.iface case Index(ifindex) => ifindex case _ => 0,
        match h.weight case Some(w) => w % 256 case None => 0,
        h.onlink, h.gateway)
  }

  /** What the message carries for next hop i: the gateway only while there was room for it. */
  function Carried(family: Family, i: nat, h: HopRequest): Hop {
    if i < family.FullHops() then Intended(h) else Intended(h).(gateway := None)
  }

  /** A range holding a single attribute: its slot points at it and the payload comes back. */
  lemma SingleAttribute(b: bytes, p: nat, ty: nat, data: bytes)
    requires LeafAt(b, p, ty, data) && NLA_HDRLEN + |data| < U16_LIMIT
    ensures var end := p + NLA_HDRLEN + |data|;
            && Slot(b, p, end, Masked(ty)) == Some(p)
            && AttrInside(b, p, p, end)
            && AttrPayload(b, end, Some(p)) == Some(data)
  {
    var end := p + NLA_HDRLEN + |data|;
    assert NlaOk(b, p, end) && NlaType(b, p) == Masked(ty);
    assert SlotFrom(b, NlaNext(b, p), end, Masked(ty), Some(p)) == Some(p);
    assert Extract(b, p + NLA_HDRLEN, end) == data;
  }

  /** A written next hop is accepted, read back field by field and stepped over exactly. */
  lemma HopReadsBack(b: bytes, family: Family, i: nat, h: HopRequest, end: nat)
    requires |b| == BUFFER_LEN && i < family.HopLimit() && h.Usable() && h.WellTyped(family)
    requires HopAt(b, family, i, h) && 4 * family.HopStart(i + 1) <= end <= |b|
    ensures var p := 4 * family.HopStart(i);
            RtnhOk(b, p, end) && RtnhNext(b, p) == 4 * family.HopStart(i + 1) && HopRead(b, p) == Carried(family, i, h)
  {
    var p := 4 * family.HopStart(i);
    HopSpace(family, i);
    AlignWholeWords(family.HopStart(i + 1) - family.HopStart(i));
    if i < family.FullHops() {
      SingleAttribute(b, p + RTNH_LEN, RTA_GATEWAY, h.gateway.value);
    } else {
      assert Slot(b, p + RTNH_LEN, p + GetU16(b, p), RTA_GATEWAY) == None;
    }
  }

  /** What the message carries for the next hops from k on. */
  function CarriedFrom(family: Family, hops: seq<HopRequest>, k: nat): seq<Hop>
    requires k <= |hops|
    decreases |hops| - k
  {
    if k == |hops| then [] else [Carried(family, k, hops[k])] + CarriedFrom(family, hops, k + 1)
  }

  lemma HopStartGrows(family: Family, i: nat, j: nat)
    requires i < j
    ensures family.HopStart(i + 1) <= family.HopStart(j)
  {
  }

  /** The walk over written next hops takes one step and stands in front of the rest. */
  lemma OneHopRead(b: bytes, family: Family, hops: seq<HopRequest>, k: nat)
    requires |b| == BUFFER_LEN && k < |hops| <= family.HopLimit()
    requires forall i :: 0 <= i < |hops| ==> hops[i].Usable() && hops[i].WellTyped(family)
    requires 4 * family.HopStart(|hops|) <= |b| && HopsAt(b, family, hops, |hops|)
    ensures var end := 4 * family.HopStart(|hops|);
            HopsRead(b, 4 * family.HopStart(k), end)
            == [Carried(family, k, hops[k])] + HopsRead(b, 4 * family.HopStart(k + 1), end)
  {
    HopStartGrows(family, k, |hops|);
    HopReadsBack(b, family, k, hops[k], 4 * family.HopStart(|hops|));
  }

  lemma {:induction false} HopsReadBack(b: bytes, family: Family, hops: seq<HopRequest>, k: nat)
    requires |b| == BUFFER_LEN && k <= |hops| <= family.HopLimit()
    requires forall i :: 0 <= i < |hops| ==> hops[i].Usable() && hops[i].WellTyped(family)
    requires 4 * family.HopStart(|hops|) <= |b| && HopsAt(b, family, hops, |hops|)
    ensures HopsRead(b, 4 * family.HopStart(k), 4 * family.HopStart(|hops|)) == CarriedFrom(family, hops, k)
    decreases |hops| - k
  {
    if k == |hops| {
      assert HopsRead(b, 4 * family.HopStart(k), 4 * family.HopStart(k)) == [];
    } else {
      HopsReadBack(b, family, hops, k + 1);
      OneHopRead(b, family, hops, k);
    }
  }

  lemma {:induction false} CarriedFromAt(family: Family, hops: seq<HopRequest>, k: nat)
    requires k <= |hops|
    ensures |CarriedFrom(family, hops, k)| == |hops| - k
    ensures forall i :: k <= i < |hops| ==> CarriedFrom(family, hops, k)[i - k] == Carried(family, i, hops[i])
    decreases |hops| - k
  {
    if k < |hops| {
      CarriedFromAt(family, hops, k + 1);
    }
  }

  /** In a built message the top-level walk finds the prefix and then the multipath attribute, and ends. */
  lemma MultipathFound(b: bytes, family: Family, prefix: bytes, end: nat)
    requires |prefix| == family.AddrLen() && |b| == BUFFER_LEN && MultipathAt(family) + NLA_HDRLEN <= end <= |b|
    requires PreambleAt(b, family, prefix, end - MultipathAt(family))
    ensures Slot(b, ATTRS, end, RTA_MULTIPATH) == Some(MultipathAt(family))
    ensures Slot(b, ATTRS, end, RTA_DST) == Some(ATTRS)
  {
    HopSpace(family, 0);
    var mp := MultipathAt(family);
    assert NlaOk(b, ATTRS, end) && NlaNext(b, ATTRS) == mp && NlaType(b, ATTRS) == RTA_DST;
    assert NlaOk(b, mp, end) && NlaNext(b, mp) >= end && NlaType(b, mp) == RTA_MULTIPATH;
    assert SlotFrom(b, mp, end, RTA_MULTIPATH, None) == SlotFrom(b, NlaNext(b, mp), end, RTA_MULTIPATH, Some(mp));
    assert SlotFrom(b, mp, end, RTA_DST, Some(ATTRS)) == SlotFrom(b, NlaNext(b, mp), end, RTA_DST, Some(ATTRS));
  }

  lemma RouteHopsFound(b: bytes, family: Family, prefix: bytes, n: nat)
    requires |prefix| == family.AddrLen() && |b| == BUFFER_LEN && 0 < n <= family.HopLimit()
    requires PreambleAt(b, family, prefix, 4 * family.HopStart(n) - MultipathAt(family))
    ensures 4 * family.HopStart(n) <= |b|
    ensures RouteHops(b, 4 * family.HopStart(n))
         == MultiPath(HopsRead(b, 4 * family.HopStart(0), 4 * family.HopStart(n)))
  {
    HopSpace(family, n - 1);
    HopStartGrows(family, 0, n);
    MultipathFound(b, family, prefix, 4 * family.HopStart(n));
  }

  /**
   The multipath round trip.  Every message the encoder builds decodes, hop count and all, to the
   requested next hops in order, with interface, weight modulo 256, on-link flag and gateway bytes;
   only the gateways behind FullHops are missing.
   */
  lemma RouteReadsBack(b: bytes, family: Family, prefix: bytes, hops: seq<HopRequest>)
    requires |prefix| == family.AddrLen() && |b| == BUFFER_LEN && 1 < |hops| <= family.HopLimit()
    requires forall i :: 0 <= i < |hops| ==> hops[i].WellTyped(family)
    requires RouteWritten(b, family, prefix, hops)
    ensures 4 * family.HopStart(|hops|) <= |b|
    ensures var r := RouteHops(b, 4 * family.HopStart(|hops|));
            && r.MultiPath? && |r.hops| == |hops|
            && forall i :: 0 <= i < |hops| ==> r.hops[i] == Carried(family, i, hops[i])
  {
    RouteHopsFound(b, family, prefix, |hops|);
    HopsReadBack(b, family, hops, 0);
    CarriedFromAt(family, hops, 0);
  }

  /** The same field by field, in terms of the request and of numbers alone. */
  lemma RequestReadsBack(b: bytes, family: Family, prefix: bytes, hops: seq<HopRequest>, i: nat)
    requires |prefix| == family.AddrLen() && |b| == BUFFER_LEN && 1 < |hops| <= family.HopLimit() && i < |hops|
    requires forall k :: 0 <= k < |hops| ==> hops[k].WellTyped(family)
    requires RouteWritten(b, family, prefix, hops)
    ensures 4 * family.HopStart(|hops|) <= |b|
    ensures var r := RouteHops(b, 4 * family.HopStart(|hops|));
            && r.MultiPath? && i < |r.hops|
            && r.hops[i].ifindex == (match hops[i].iface case Index(ifindex) => ifindex case _ => 0)
            && r.hops[i].weight == (match hops[i].weight case Some(w) => w % 256 case None => 0)
            && r.hops[i].onlink == hops[i].onlink
            && r.hops[i].gateway == if i < (if family.V4? then 509 else 290) then hops[i].gateway else None
  {
    RouteReadsBack(b, family, prefix, hops);
  }

  /** The round trip gives back exactly what was asked for if and only if the gateways all fit. */
  lemma RoundTripIffGatewaysFit(b: bytes, family: Family, prefix: bytes, hops: seq<HopRequest>)
    requires |prefix| == family.AddrLen() && |b| == BUFFER_LEN && 1 < |hops| <= family.HopLimit()
    requires forall i :: 0 <= i < |hops| ==> hops[i].WellTyped(family)
    requires RouteWritten(b, family, prefix, hops)
    ensures 4 * family.HopStart(|hops|) <= |b|
    ensures RouteHops(b, 4 * family.HopStart(|hops|))
         == MultiPath(seq(|hops|, i requires 0 <= i < |hops| => Intended(hops[i])))
       <==> |hops| <= family.FullHops()
  {
    RouteReadsBack(b, family, prefix, hops);
    var r := RouteHops(b, 4 * family.HopStart(|hops|)).hops;
    var wanted := seq(|hops|, i requires 0 <= i < |hops| => Intended(hops[i]));
    if |hops| <= family.FullHops() {
      assert r == wanted;
    } else {
      assert r[|hops| - 1] != wanted[|hops| - 1];
    }
  }

  /** A message of 510 equal IPv4 next hops with gateways is built, and the last gateway is not read back. */
  lemma LastGatewayIsLost(b: bytes, prefix: bytes, h: HopRequest)
    requires |prefix| == 4 && |b| == BUFFER_LEN && h.Usable() && h.WellTyped(V4)
    requires var hops := seq(510, i requires 0 <= i < 510 => h); RouteWritten(b, V4, prefix, hops)
    ensures 4 * V4.HopStart(510) <= |b|
    ensures var r := RouteHops(b, 4 * V4.HopStart(510));
            && r.MultiPath? && |r.hops| == 510
            && r.hops[508].gateway == h.gateway && r.hops[509].gateway == None
  {
    var hops := seq(510, i requires 0 <= i < 510 => h);
    assert hops[508] == h && hops[509] == h;
    RouteReadsBack(b, V4, prefix, hops);
  }
}
