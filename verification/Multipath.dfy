/**
 The multipath part of a route message as nas_os_update_route (src/nas_os_l3.c) encodes it, next hop
 by next hop, into one fixed buffer.
 */
module Multipath {
  import opened Wire
  import opened Wrappers
  import opened Attributes
  import opened AttributeTree
  import opened MessageBuffer

  const RTA_DST := 1
  const RTA_GATEWAY := 5
  const RTA_MULTIPATH := 9
  const RTNH_F_ONLINK := 4

  /** NL_RT_MSG_BUFFER_LEN. */
  const BUFFER_LEN := 8192

  /** sizeof(struct nlmsghdr), sizeof(struct rtmsg) and sizeof(struct rtnexthop). */
  const NLMSG_HDRLEN := 16
  const RTMSG_LEN := 12
  const RTNH_LEN := 8

  /** Where the attributes of a route message start. */
  const ATTRS := NLMSG_HDRLEN + RTMSG_LEN

  datatype Family = V4 | V6 {
    function AddrLen(): nat { if V4? then 4 else 16 }

    /** The words taken by an attribute holding one address. */
    function AddrWords(): nat { if V4? then 2 else 5 }

    /** The words before the first next hop: both headers, the prefix and the RTA_MULTIPATH header. */
    function FirstHop(): nat { 8 + AddrWords() }

    /** How many next hops fit the buffer with their gateways. */
    function FullHops(): nat { if V4? then 509 else 290 }

    /** How many next hops can be reserved before the buffer is exhausted. */
    function HopLimit(): nat { if V4? then 510 else 292 }

    /** The word at which next hop i starts; behind FullHops a next hop is only its fixed header. */
    function HopStart(i: nat): nat {
      if i <= FullHops() then FirstHop() + (if V4? then 4 * i else 7 * i)
      else FirstHop() + (if V4? then 4 * FullHops() else 7 * FullHops()) + 2 * (i - FullHops())
    }
  }

  /** The out-interface of a requested next hop: given or resolved, absent, or a failed name lookup. */
  datatype Iface = Index(ifindex: nat) | Absent | LookupFails

  /** One entry of the route object's next-hop list; onlink says that its flags ask for RTNH_F_ONLINK. */
  datatype HopRequest = HopRequest(gateway: Option<bytes>, onlink: bool, iface: Iface, weight: Option<nat>) {
    /** The next hop has a gateway and its interface name, if any, resolves. */
    predicate Usable() { gateway.Some? && !iface.LookupFails? }

    /** Field widths, and a gateway as long as the addresses of the family. */
    predicate WellTyped(family: Family) {
      && (gateway.Some? ==> |gateway.value| == family.AddrLen())
      && (iface.Index? ==> iface.ifindex < U32_LIMIT)
    }
  }

  /** What the decoder adds to its object for one next hop. */
  datatype Hop = Hop(ifindex: nat, weight: nat, onlink: bool, gateway: Option<bytes>)

  /** Built, an error return, or a write through the NULL a failed reservation gives. */
  datatype Encoding = Built | Rejected | NullWrite

  // ---------------------------------------------------------------- encoder

  function HopIfindex(h: HopRequest): nat { if h.iface.Index? then h.iface.ifindex else 0 }

  /** rtnh_hops is one byte. */
  function HopWeight(h: HopRequest): nat { if h.weight.Some? then h.weight.value % 0x100 else 0 }

  /** The fixed part of a next hop: length, flags, hops and interface. */
  function HopHeader(len: nat, h: HopRequest): (r: bytes)
    requires h.iface.Index? ==> h.iface.ifindex < U32_LIMIT
    ensures |r| == RTNH_LEN
  {
    PutU16(Truncated(len)) + [if h.onlink then RTNH_F_ONLINK as byte else 0, HopWeight(h) as byte]
    + PutU32(HopIfindex(h))
  }

  /** The fixed part of a next hop is at p. */
  predicate HopHeaderAt(b: bytes, p: nat, len: nat, h: HopRequest) {
    && p + RTNH_LEN <= |b|
    && GetU16(b, p) == len
    && b[p + 2] as int == (if h.onlink then RTNH_F_ONLINK else 0)
    && b[p + 3] as int == HopWeight(h)
    && GetU32(b, p + 4) == HopIfindex(h)
  }

  /** Next hop i is in its place: header, exact 16-bit length and, while there is room, the gateway. */
  ghost predicate HopAt(b: bytes, family: Family, i: nat, h: HopRequest)
    requires h.Usable()
  {
    var p := 4 * family.HopStart(i);
    && HopHeaderAt(b, p, 4 * family.HopStart(i + 1) - p, h)
    && (i < family.FullHops() ==> LeafAt(b, p + RTNH_LEN, RTA_GATEWAY, h.gateway.value))
  }

  lemma HopHeaderStored(b: bytes, was: bytes, p: nat, len: nat, h: HopRequest)
    requires p + RTNH_LEN <= |was| && len < U16_LIMIT && (h.iface.Index? ==> h.iface.ifindex < U32_LIMIT)
    requires b == Splice(was, p, HopHeader(len, h))
    ensures HopHeaderAt(b, p, len, h)
    ensures SameRange(b, was, 0, p) && SameRange(b, was, p + RTNH_LEN, |b|)
  {
  }

  lemma AttrKept(b: bytes, c: bytes, p: nat, ty: nat, data: bytes)
    requires LeafAt(b, p, ty, data) && SameRange(c, b, p, p + NLA_HDRLEN + |data|)
    ensures LeafAt(c, p, ty, data)
  {
  }

  /** A next hop in its place survives writes behind it. */
  lemma HopKept(b: bytes, c: bytes, family: Family, i: nat, h: HopRequest)
    requires h.Usable() && h.WellTyped(family) && HopAt(b, family, i, h)
    requires SameRange(c, b, 4 * family.HopStart(i), 4 * family.HopStart(i + 1))
    ensures HopAt(c, family, i, h)
  {
  }

  /** What the buffer has room for at next hop i. */
  lemma HopSpace(family: Family, i: nat)
    requires i <= family.HopLimit()
    ensures 4 * (family.HopStart(i) + 2) <= BUFFER_LEN <==> i < family.HopLimit()
    ensures 4 * (family.HopStart(i) + 2 + family.AddrWords()) <= BUFFER_LEN <==> i < family.FullHops()
    ensures family.HopStart(i + 1)
         == family.HopStart(i) + 2 + if i < family.FullHops() then family.AddrWords() else 0
    ensures Words(RTNH_LEN) == 2 && Words(NLA_HDRLEN + family.AddrLen()) == family.AddrWords()
  {
  }

  /** The buffer once the gateway of next hop i is added; behind FullHops there is no room and nothing changes. */
  function WithGateway(b: bytes, family: Family, i: nat, gateway: bytes): (r: bytes)
    requires |b| == BUFFER_LEN && i < family.HopLimit() && |gateway| == family.AddrLen()
    ensures |r| == |b|
  {
    HopSpace(family, i);
    if i < family.FullHops() then
      Splice(b, 4 * family.HopStart(i) + RTNH_LEN, AttrHeader(RTA_GATEWAY, NLA_HDRLEN + |gateway|) + gateway)
    else b
  }

  /** The fixed part of a next hop, cleared. */
  const CLEARED: bytes := [0, 0, 0, 0, 0, 0, 0, 0]

  /** The two writes of one iteration leave the next hop in its place and nothing else changed before it. */
  lemma HopBuilt(was: bytes, zeroed: bytes, mid: bytes, b: bytes, family: Family, i: nat, h: HopRequest)
    requires |was| == BUFFER_LEN && i < family.HopLimit() && h.Usable() && h.WellTyped(family)
    requires 4 * family.HopStart(i) + RTNH_LEN <= BUFFER_LEN
    requires zeroed == Splice(was, 4 * family.HopStart(i), CLEARED)
    requires mid == WithGateway(zeroed, family, i, h.gateway.value)
    requires var p := 4 * family.HopStart(i); b == Splice(mid, p, HopHeader(4 * family.HopStart(i + 1) - p, h))
    ensures HopAt(b, family, i, h) && SameRange(b, was, 0, 4 * family.HopStart(i))
  {
    var p := 4 * family.HopStart(i);
    HopSpace(family, i);
    HopHeaderStored(b, mid, p, 4 * family.HopStart(i + 1) - p, h);
    if i < family.FullHops() {
      LeafWritten(mid, zeroed, p + RTNH_LEN, RTA_GATEWAY, h.gateway.value);
      AttrKept(mid, b, p + RTNH_LEN, RTA_GATEWAY, h.gateway.value);
    }
  }

  /** Adding the gateway behind the fixed part: it is there while there is room, and the result is not looked at. */
  method AddGateway(m: Message, family: Family, i: nat, gateway: bytes)
    requires m.Valid() && m.buf.Length == BUFFER_LEN && |gateway| == family.AddrLen()
    requires i < family.HopLimit() && m.HasWords(family.HopStart(i) + 2)
    modifies m`len, m.buf
    ensures m.Valid() && m.HasWords(family.HopStart(i + 1))
    ensures m.buf[..] == WithGateway(old(m.buf[..]), family, i, gateway)
  {
    HopSpace(family, i);
    AlignWholeWords(family.HopStart(i + 1));
    var rc := m.AddAttr(RTA_GATEWAY, gateway);
  }

  /** The last writes of an iteration: length, flags, weight and interface of the next hop. */
  method WriteFixedPart(m: Message, p: nat, family: Family, i: nat, h: HopRequest,
                        ghost was: bytes, ghost zeroed: bytes)
    requires m.buf.Length == BUFFER_LEN == |was| && h.WellTyped(family) && h.Usable()
    requires i < family.HopLimit() && p == 4 * family.HopStart(i) && p + RTNH_LEN <= BUFFER_LEN
    requires m.HasWords(family.HopStart(i + 1))
    requires zeroed == Splice(was, p, CLEARED) && m.buf[..] == WithGateway(zeroed, family, i, h.gateway.value)
    modifies m.buf
    ensures HopAt(m.buf[..], family, i, h) && SameRange(m.buf[..], was, 0, p)
  {
    ghost var mid := m.buf[..];
    Store(m.buf, p, HopHeader(Align(m.len) - p, h));
    HopBuilt(was, zeroed, mid, m.buf[..], family, i, h);
  }

  /** The second half of an iteration, for a zeroed next hop at its place with a gateway to add. */
  method FillHop(m: Message, p: nat, family: Family, i: nat, h: HopRequest, ghost was: bytes) returns (r: Encoding)
    requires m.Valid() && m.buf.Length == BUFFER_LEN && h.WellTyped(family) && h.gateway.Some?
    requires i < family.HopLimit() && m.HasWords(family.HopStart(i) + 2) && |was| == BUFFER_LEN
    requires p == 4 * family.HopStart(i)
    requires m.buf[..] == Splice(was, 4 * family.HopStart(i), CLEARED)
    modifies m`len, m.buf
    ensures m.Valid()
    ensures r == if h.Usable() then Built else Rejected
    ensures r.Built? ==> && m.HasWords(family.HopStart(i + 1)) && HopAt(m.buf[..], family, i, h)
                         && SameRange(m.buf[..], was, 0, 4 * family.HopStart(i))
  {
    HopSpace(family, i);
    ghost var zeroed := m.buf[..];
    AddGateway(m, family, i, h.gateway.value);
    if h.iface.LookupFails? {
      return Rejected;
    }
    WriteFixedPart(m, p, family, i, h, was, zeroed);
    return Built;
  }

  /** One iteration of the encoder's loop. */
  method EncodeHop(m: Message, family: Family, i: nat, h: HopRequest) returns (r: Encoding)
    requires m.Valid() && m.buf.Length == BUFFER_LEN && h.WellTyped(family)
    requires i <= family.HopLimit() && m.HasWords(family.HopStart(i))
    modifies m`len, m.buf
    ensures m.Valid()
    ensures r == if i == family.HopLimit() then NullWrite else if h.Usable() then Built else Rejected
    ensures r.Built? ==> && m.HasWords(family.HopStart(i + 1)) && HopAt(m.buf[..], family, i, h)
                         && SameRange(m.buf[..], old(m.buf[..]), 0, 4 * family.HopStart(i))
  {
    HopSpace(family, i);
    var p := m.Reserve(RTNH_LEN);
    if p == None {
      return NullWrite;
    }
    Store(m.buf, p.value, CLEARED);
    if h.gateway == None {
      return Rejected;
    }
    r := FillHop(m, p.value, family, i, h, old(m.buf[..]));
  }

  /** The bytes of the RTA_MULTIPATH attribute start here. */
  function MultipathAt(family: Family): nat { 4 * (family.FirstHop() - 1) }

  /** The part of the message before the next hops: the prefix and the RTA_MULTIPATH header. */
  ghost predicate PreambleAt(b: bytes, family: Family, prefix: bytes, len: nat)
    requires |prefix| == family.AddrLen() && |b| == BUFFER_LEN
  {
    LeafAt(b, ATTRS, RTA_DST, prefix) && HeaderAt(b, MultipathAt(family), RTA_MULTIPATH, len)
  }

  /** The first n next hops are in their places. */
  ghost predicate HopsAt(b: bytes, family: Family, hops: seq<HopRequest>, n: nat)
    requires n <= |hops| && forall i :: 0 <= i < n ==> hops[i].Usable()
  {
    forall i :: 0 <= i < n ==> HopAt(b, family, i, hops[i])
  }

  /** Reserving the message header and the route header. */
  method ReserveHeaders(m: Message)
    requires m.Valid() && m.buf.Length == BUFFER_LEN && m.len == 0
    modifies m`len
    ensures m.Valid() && m.len == ATTRS && m.Used() == 7
  {
    AlignWholeWords(4);
    AlignWholeWords(3);
    var nlh := m.Reserve(NLMSG_HDRLEN);
    var rm := m.Reserve(RTMSG_LEN);
  }

  /** Reserving both headers, adding the prefix and opening the nest: it always fits. */
  method EncodePreamble(m: Message, family: Family, prefix: bytes)
    requires m.Valid() && m.buf.Length == BUFFER_LEN && m.len == 0 && |prefix| == family.AddrLen()
    modifies m`len, m.buf
    ensures m.Valid() && m.HasWords(family.FirstHop())
    ensures PreambleAt(m.buf[..], family, prefix, 0)
  {
    HopSpace(family, 0);
    ReserveHeaders(m);
    ghost var b := m.buf[..];
    var rc := m.AddAttr(RTA_DST, prefix);
    LeafWritten(m.buf[..], b, ATTRS, RTA_DST, prefix);
    b := m.buf[..];
    var nest := m.OpenNest(RTA_MULTIPATH);
    AttrKept(b, m.buf[..], ATTRS, RTA_DST, prefix);
  }

  lemma HopsKept(b: bytes, c: bytes, family: Family, hops: seq<HopRequest>, n: nat)
    requires n <= |hops| && forall i :: 0 <= i < n ==> hops[i].Usable() && hops[i].WellTyped(family)
    requires HopsAt(b, family, hops, n)
    requires SameRange(c, b, 4 * family.FirstHop(), 4 * family.HopStart(n))
    ensures HopsAt(c, family, hops, n)
  {
    forall i | 0 <= i < n ensures HopAt(c, family, i, hops[i]) {
      HopKept(b, c, family, i, hops[i]);
    }
  }

  lemma PreambleKept(b: bytes, c: bytes, family: Family, prefix: bytes, len: nat)
    requires |prefix| == family.AddrLen() && |b| == |c| == BUFFER_LEN && PreambleAt(b, family, prefix, len)
    requires SameRange(c, b, 0, 4 * family.FirstHop())
    ensures PreambleAt(c, family, prefix, len)
  {
  }

  /** Closing the nest back-patches its length and leaves everything else. */
  lemma PreambleClosed(b: bytes, c: bytes, family: Family, prefix: bytes, len: nat)
    requires |prefix| == family.AddrLen() && |b| == BUFFER_LEN && PreambleAt(b, family, prefix, 0)
    requires len < U16_LIMIT && c == Splice(b, MultipathAt(family), PutU16(len))
    ensures PreambleAt(c, family, prefix, len)
    ensures SameRange(c, b, 4 * family.FirstHop(), BUFFER_LEN)
  {
  }

  /** The message so far: an open nest and the first n next hops, all usable, in their places. */
  ghost predicate PartlyWritten(b: bytes, family: Family, prefix: bytes, hops: seq<HopRequest>, n: nat)
    requires |prefix| == family.AddrLen() && |b| == BUFFER_LEN && n <= |hops|
  {
    && PreambleAt(b, family, prefix, 0)
    && (forall i :: 0 <= i < n ==> hops[i].Usable())
    && HopsAt(b, family, hops, n)
  }

  /** The whole message: preamble with the exact nest length, and every next hop in its place. */
  ghost predicate RouteWritten(b: bytes, family: Family, prefix: bytes, hops: seq<HopRequest>)
    requires |prefix| == family.AddrLen() && |b| == BUFFER_LEN
  {
    && PreambleAt(b, family, prefix, 4 * family.HopStart(|hops|) - MultipathAt(family))
    && (forall i :: 0 <= i < |hops| ==> hops[i].Usable())
    && HopsAt(b, family, hops, |hops|)
  }

  lemma PartlyWrittenGrows(b: bytes, c: bytes, family: Family, prefix: bytes, hops: seq<HopRequest>, n: nat)
    requires |prefix| == family.AddrLen() && |b| == |c| == BUFFER_LEN && n < |hops|
    requires forall i :: 0 <= i < |hops| ==> hops[i].WellTyped(family)
    requires PartlyWritten(b, family, prefix, hops, n)
    requires SameRange(c, b, 0, 4 * family.HopStart(n)) && hops[n].Usable() && HopAt(c, family, n, hops[n])
    ensures PartlyWritten(c, family, prefix, hops, n + 1)
  {
    PreambleKept(b, c, family, prefix, 0);
    HopsKept(b, c, family, hops, n);
  }

  lemma RouteClosed(b: bytes, c: bytes, family: Family, prefix: bytes, hops: seq<HopRequest>)
    requires |prefix| == family.AddrLen() && |b| == BUFFER_LEN && |hops| <= family.HopLimit()
    requires forall i :: 0 <= i < |hops| ==> hops[i].WellTyped(family)
    requires PartlyWritten(b, family, prefix, hops, |hops|)
    requires var len := 4 * family.HopStart(|hops|) - MultipathAt(family);
             c == Splice(b, MultipathAt(family), PutU16(len))
    ensures RouteWritten(c, family, prefix, hops)
  {
    PreambleClosed(b, c, family, prefix, 4 * family.HopStart(|hops|) - MultipathAt(family));
    HopsKept(b, c, family, hops, |hops|);
  }

  /**
   The message nas_os_update_route builds for more than one next hop.  The buffer is static, so it
   holds whatever an earlier call left.  A next hop without a gateway or with a name that does not
   resolve is refused.  The result of adding a gateway is not looked at: behind FullHops next hops
   the gateways are silently left out, and behind HopLimit the failed reservation is written
   through.
   */
  method EncodeRoute(m: Message, family: Family, prefix: bytes, hops: seq<HopRequest>) returns (r: Encoding)
    requires m.Valid() && m.buf.Length == BUFFER_LEN && m.len == 0
    requires |prefix| == family.AddrLen() && |hops| > 1
    requires forall i :: 0 <= i < |hops| ==> hops[i].WellTyped(family)
    modifies m`len, m.buf
    ensures m.Valid()
    ensures r.Built? <==>
      && |hops| <= (if family.V4? then 510 else 292)
      && forall i :: 0 <= i < |hops| ==> hops[i].gateway.Some? && hops[i].iface != LookupFails
    ensures r.NullWrite? <==>
      && |hops| > (if family.V4? then 510 else 292)
      && forall i :: 0 <= i < (if family.V4? then 510 else 292) ==>
           hops[i].gateway.Some? && hops[i].iface != LookupFails
    ensures r.Built? ==> m.HasWords(family.HopStart(|hops|)) && RouteWritten(m.buf[..], family, prefix, hops)
    ensures |hops| <= 256 && (forall i :: 0 <= i < |hops| ==> hops[i].gateway.Some? && hops[i].iface != LookupFails) ==>
      r.Built? && m.len == (if family.V4? then 40 + 16 * |hops| else 52 + 28 * |hops|)
  {
    EncodePreamble(m, family, prefix);
    for ix := 0 to |hops|
      invariant m.Valid() && ix <= family.HopLimit() && m.HasWords(family.HopStart(ix))
      invariant PartlyWritten(m.buf[..], family, prefix, hops, ix)
    {
      ghost var before := m.buf[..];
      r := EncodeHop(m, family, ix, hops[ix]);
      if r != Built {
        return;
      }
      PartlyWrittenGrows(before, m.buf[..], family, prefix, hops, ix);
    }
    CloseRoute(m, family, prefix, hops);
    return Built;
  }

  method CloseRoute(m: Message, family: Family, prefix: bytes, ghost hops: seq<HopRequest>)
    requires m.Valid() && m.buf.Length == BUFFER_LEN && |hops| <= family.HopLimit()
    requires m.HasWords(family.HopStart(|hops|)) && |prefix| == family.AddrLen()
    requires forall i :: 0 <= i < |hops| ==> hops[i].WellTyped(family)
    requires PartlyWritten(m.buf[..], family, prefix, hops, |hops|)
    modifies m.buf
    ensures RouteWritten(m.buf[..], family, prefix, hops)
  {
    m.NestedEnd(MultipathAt(family));
    RouteClosed(old(m.buf[..]), m.buf[..], family, prefix, hops);
  }

  /** The four bytes of v, the least significant first. */
  predicate Word32At(b: bytes, p: nat, v: nat) {
    && p + 4 <= |b|
    && v == b[p] as int + 0x100 * b[p + 1] as int + 0x1_0000 * b[p + 2] as int + 0x100_0000 * b[p + 3] as int
  }

  /**
   The layout of a written next hop, byte by byte: length, flags, hops and interface of struct
   rtnexthop, then the RTA_GATEWAY attribute, type 5, while there is room for it.
   */
  lemma HopLayout(b: bytes, family: Family, i: nat, h: HopRequest)
    requires |b| == BUFFER_LEN && i < family.HopLimit() && h.Usable() && h.WellTyped(family)
    requires HopAt(b, family, i, h)
    ensures var p, full := 4 * family.HopStart(i), i < (if family.V4? then 509 else 290);
            var addr := if family.V4? then 4 else 16;
            && p + 8 + (if full then 4 + addr else 0) <= |b|
            && b[p] == (if full then 12 + addr else 8) as byte && b[p + 1] == 0
            && b[p + 2] == (if h.onlink then 4 else 0)
            && b[p + 3] as int == (match h.weight case Some(w) => w % 256 case None => 0)
            && Word32At(b, p + 4, match h.iface case Index(ifindex) => ifindex case _ => 0)
            && (full ==> b[p + 8..p + 12] == [(4 + addr) as byte, 0, 5, 0])
            && (full ==> b[p + 12..p + 12 + addr] == h.gateway.value)
  {
    HopSpace(family, i);
    var p := 4 * family.HopStart(i);
    if i < family.FullHops() {
      assert b[p + 8..p + 12] == [(4 + family.AddrLen()) as byte, 0, 5, 0];
      assert b[p + 12..p + 12 + family.AddrLen()] == h.gateway.value;
    }
  }

  /** The layout before the next hops: RTA_DST, type 1, then the header of RTA_MULTIPATH, type 9. */
  lemma PreambleLayout(b: bytes, family: Family, prefix: bytes, len: nat)
    requires |prefix| == family.AddrLen() && |b| == BUFFER_LEN && PreambleAt(b, family, prefix, len)
    ensures var addr := if family.V4? then 4 else 16;
            && b[28..32] == [(4 + addr) as byte, 0, 1, 0] && b[32..32 + addr] == prefix
            && b[34 + addr..36 + addr] == [9, 0]
            && (len < 0x1_0000 ==> b[32 + addr] as int + 0x100 * b[33 + addr] as int == len)
  {
    assert b[28..32] == [(4 + family.AddrLen()) as byte, 0, 1, 0];
    assert b[32..32 + family.AddrLen()] == prefix;
    assert b[34 + family.AddrLen()..36 + family.AddrLen()] == [9, 0];
  }
}
