/**
 The netlink attribute walk: nla_ok, nla_next, nla_for_each_attr and nla_parse
 (inc/opx/private/nas_nlmsg.h, src/netlink_tools.c), over arbitrary bytes.

 The C code carries a position and a remaining length; their sum never changes, so the
 functions here carry the position and that sum, the end of the walked range.  As in C the
 remaining length, end - off, may become negative.
 */
module Attributes {
  import opened Wire
  import opened Wrappers

  const NLA_HDRLEN := 4

  /** NLA_TYPE_MASK clears NLA_F_NESTED and NLA_F_NET_BYTEORDER, the two top bits. */
  const TYPE_LIMIT := 0x4000

  function Masked(ty: nat): nat { ty % TYPE_LIMIT }

  function NlaType(b: bytes, off: nat): nat
    requires off + NLA_HDRLEN <= |b|
  {
    Masked(GetU16(b, off + 2))
  }

  /** The type read is the type's low 14 bits, whatever the two flag bits are. */
  lemma TypeIsLowBits(b: bytes, off: nat, t: nat, flags: nat)
    requires off + NLA_HDRLEN <= |b| && t < 0x4000 && flags < 4
    requires b[off + 2] as int + 0x100 * b[off + 3] as int == t + 0x4000 * flags
    ensures NlaType(b, off) == t
  {
  }

  /** nla_ok: the header is there, the length covers the header and fits in what remains. */
  predicate NlaOk(b: bytes, off: nat, end: int)
    requires end <= |b|
  {
    end - off >= NLA_HDRLEN && NLA_HDRLEN <= GetU16(b, off) <= end - off
  }

  /** nla_next. */
  function NlaNext(b: bytes, off: nat): nat
    requires off + NLA_HDRLEN <= |b|
  {
    off + Align(GetU16(b, off))
  }

  /** Every offset in vs has a whole attribute header in front of it. */
  predicate Headers(b: bytes, vs: seq<nat>) {
    forall k :: 0 <= k < |vs| ==> vs[k] + NLA_HDRLEN <= |b|
  }

  /** The offsets nla_for_each_attr hands to its callback, in order. */
  function Visits(b: bytes, off: nat, end: int): (vs: seq<nat>)
    requires end <= |b|
    ensures Headers(b, vs)
    decreases end - off
  {
    if NlaOk(b, off, end) then [off] + Visits(b, NlaNext(b, off), end) else []
  }

  /** Where a walk that started at off and visited vs stands afterwards. */
  function WalkEnd(b: bytes, off: nat, vs: seq<nat>): nat
    requires Headers(b, vs)
  {
    if vs == [] then off else NlaNext(b, vs[|vs| - 1])
  }

  /** The attribute at p, header and payload, lies between lo and hi. */
  predicate AttrInside(b: bytes, p: nat, lo: nat, hi: int) {
    lo <= p && p + NLA_HDRLEN <= |b| && p + NLA_HDRLEN <= p + GetU16(b, p) <= hi
  }

  /** Every visited attribute lies wholly inside the given length, header and payload. */
  lemma {:induction false} VisitsLieInside(b: bytes, off: nat, end: int)
    requires end <= |b|
    ensures forall k :: 0 <= k < |Visits(b, off, end)| ==> AttrInside(b, Visits(b, off, end)[k], off, end)
    decreases end - off
  {
    if NlaOk(b, off, end) {
      VisitsLieInside(b, NlaNext(b, off), end);
      var rest := Visits(b, NlaNext(b, off), end);
      forall k | 0 <= k < |rest| ensures AttrInside(b, rest[k], off, end) {
        assert AttrInside(b, rest[k], NlaNext(b, off), end);
      }
    }
  }

  /** The walk hands out the bytes after the previous attribute, and only what nla_ok accepts. */
  lemma {:induction false} VisitAt(b: bytes, off: nat, end: int, k: nat)
    requires end <= |b| && k < |Visits(b, off, end)|
    ensures var vs := Visits(b, off, end);
            NlaOk(b, vs[k], end) && vs[k] == if k == 0 then off else NlaNext(b, vs[k - 1])
    decreases k
  {
    if k > 0 {
      VisitAt(b, NlaNext(b, off), end, k - 1);
    }
  }

  lemma {:induction false} WalkStops(b: bytes, off: nat, end: int)
    requires end <= |b|
    ensures !NlaOk(b, WalkEnd(b, off, Visits(b, off, end)), end)
    decreases end - off
  {
    if NlaOk(b, off, end) {
      WalkStops(b, NlaNext(b, off), end);
    }
  }

  /**
   Each visited attribute starts where the previous one, rounded up, ends, and the walk stops only at
   bytes that nla_ok refuses.  Together these determine the walk on any input.
   */
  lemma VisitsTileTheInput(b: bytes, off: nat, end: int)
    requires end <= |b|
    ensures var vs := Visits(b, off, end);
            && (forall k :: 0 <= k < |vs| ==> vs[k] == WalkEnd(b, off, vs[..k]) && NlaOk(b, vs[k], end))
            && !NlaOk(b, WalkEnd(b, off, vs), end)
  {
    var vs := Visits(b, off, end);
    forall k | 0 <= k < |vs| ensures vs[k] == WalkEnd(b, off, vs[..k]) && NlaOk(b, vs[k], end) {
      VisitAt(b, off, end, k);
    }
    WalkStops(b, off, end);
  }

  /** The last offset in vs whose attribute has (masked) type ty. */
  function LastOfType(b: bytes, vs: seq<nat>, ty: nat): Option<nat>
    requires Headers(b, vs)
  {
    if vs == [] then None
    else if NlaType(b, vs[|vs| - 1]) == ty then Some(vs[|vs| - 1])
    else LastOfType(b, vs[..|vs| - 1], ty)
  }

  /** The attribute at vs[k] has the type and no later one does. */
  predicate IsLastOfType(b: bytes, vs: seq<nat>, ty: nat, k: nat)
    requires Headers(b, vs)
  {
    k < |vs| && NlaType(b, vs[k]) == ty && forall j :: k < j < |vs| ==> NlaType(b, vs[j]) != ty
  }

  /** What a slot of the table means, said without the scan: the last attribute of the type, or none. */
  lemma {:induction false} LastOfTypeMeaning(b: bytes, vs: seq<nat>, ty: nat)
    requires Headers(b, vs)
    ensures match LastOfType(b, vs, ty)
            case None => forall k :: 0 <= k < |vs| ==> NlaType(b, vs[k]) != ty
            case Some(p) => exists k :: 0 <= k < |vs| && vs[k] == p && IsLastOfType(b, vs, ty, k)
  {
    if vs != [] {
      var n := |vs| - 1;
      if NlaType(b, vs[n]) == ty {
        assert IsLastOfType(b, vs, ty, n);
      } else {
        LastOfTypeMeaning(b, vs[..n], ty);
        if LastOfType(b, vs[..n], ty).Some? {
          var k :| 0 <= k < n && vs[..n][k] == LastOfType(b, vs[..n], ty).value && IsLastOfType(b, vs[..n], ty, k);
          NotTheLast(b, vs, ty, k);
        }
      }
    }
  }

  lemma NotTheLast(b: bytes, vs: seq<nat>, ty: nat, k: nat)
    requires vs != [] && Headers(b, vs) && IsLastOfType(b, vs[..|vs| - 1], ty, k)
    requires NlaType(b, vs[|vs| - 1]) != ty
    ensures IsLastOfType(b, vs, ty, k)
  {
    forall j | k < j < |vs| ensures NlaType(b, vs[j]) != ty {
      assert j == |vs| - 1 || vs[j] == vs[..|vs| - 1][j];
    }
  }

  /** The slot for type ty after the walk goes on from off with the slot holding acc. */
  function SlotFrom(b: bytes, off: nat, end: int, ty: nat, acc: Option<nat>): Option<nat>
    requires end <= |b|
    decreases end - off
  {
    if NlaOk(b, off, end) then
      SlotFrom(b, NlaNext(b, off), end, ty, if NlaType(b, off) == ty then Some(off) else acc)
    else
      acc
  }

  /** The slot nla_parse fills for type ty when it is run over the range from off to end. */
  function Slot(b: bytes, off: nat, end: int, ty: nat): Option<nat>
    requires end <= |b|
  {
    SlotFrom(b, off, end, ty, None)
  }

  lemma LastOfTypeSnoc(b: bytes, vs: seq<nat>, p: nat, ty: nat)
    requires Headers(b, vs) && p + NLA_HDRLEN <= |b|
    ensures LastOfType(b, vs + [p], ty) == if NlaType(b, p) == ty then Some(p) else LastOfType(b, vs, ty)
  {
  }

  lemma {:induction false} SlotFromIsLastVisited(b: bytes, off: nat, end: int, ty: nat, seen: seq<nat>)
    requires end <= |b| && Headers(b, seen)
    ensures SlotFrom(b, off, end, ty, LastOfType(b, seen, ty))
         == LastOfType(b, seen + Visits(b, off, end), ty)
    decreases end - off
  {
    if NlaOk(b, off, end) {
      var rest := Visits(b, NlaNext(b, off), end);
      LastOfTypeSnoc(b, seen, off, ty);
      SlotFromIsLastVisited(b, NlaNext(b, off), end, ty, seen + [off]);
      assert seen + ([off] + rest) == seen + [off] + rest;
    } else {
      assert seen + Visits(b, off, end) == seen;
    }
  }

  /** On any bytes, a slot holds the last visited attribute of its type, or nothing. */
  lemma SlotIsLastVisited(b: bytes, off: nat, end: int, ty: nat)
    requires end <= |b|
    ensures Slot(b, off, end, ty) == LastOfType(b, Visits(b, off, end), ty)
  {
    SlotFromIsLastVisited(b, off, end, ty, []);
    assert [] + Visits(b, off, end) == Visits(b, off, end);
  }

  /**
   nla_parse.  The table has max_type slots.  Type 0 is stored without a bounds test, so every
   caller passes a table with at least one slot.
   */
  method NlaParse(tb: array<Option<nat>>, b: bytes, head: nat, len: int)
    requires tb.Length > 0
    requires head + len <= |b|
    modifies tb
    ensures forall ty :: 0 <= ty < tb.Length ==> tb[ty] == Slot(b, head, head + len, ty)
  {
    for i := 0 to tb.Length
      invariant forall k :: 0 <= k < i ==> tb[k] == None
    {
      tb[i] := None;
    }
    var pos, rem := head, len;
    while rem >= NLA_HDRLEN && NLA_HDRLEN <= GetU16(b, pos) <= rem
      invariant pos + rem == head + len
      invariant forall ty :: 0 <= ty < tb.Length ==>
        SlotFrom(b, pos, head + len, ty, tb[ty]) == Slot(b, head, head + len, ty)
      decreases rem
    {
      ghost var before := tb[..];
      var ty := GetU16(b, pos + 2) % TYPE_LIMIT;
      if ty == 0 || ty < tb.Length {
        tb[ty] := Some(pos);
      }
      forall t | 0 <= t < tb.Length
        ensures SlotFrom(b, NlaNext(b, pos), head + len, t, tb[t]) == Slot(b, head, head + len, t)
      {
        assert SlotFrom(b, pos, head + len, t, before[t]) == Slot(b, head, head + len, t);
        assert tb[t] == if ty == t then Some(pos) else before[t];
      }
      var step := Align(GetU16(b, pos));
      pos, rem := pos + step, rem - step;
    }
  }
}
