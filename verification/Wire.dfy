/**
 Bytes, host-order integers and the four-byte alignment shared by every netlink layer
 (section 2.2 of RFC 3549).  The 16-bit fields are written in little-endian host order.
 */
module Wire {

  newtype byte = x: int | 0 <= x < 256

  type bytes = seq<byte>

  const U16_LIMIT := 0x1_0000
  const U32_LIMIT := 0x1_0000_0000

  /** The number of four-byte words that n bytes take. */
  function Words(n: nat): (w: nat)
    ensures n <= 4 * w < n + 4
  {
    (n + 3) / 4
  }

  /** NLMSG_ALIGN, NLA_ALIGN, RTA_ALIGN and RTNH_ALIGN: all four round up to a multiple of 4. */
  function Align(n: nat): (r: nat)
    ensures n <= r < n + 4
  {
    4 * Words(n)
  }

  function GetU16(b: bytes, off: nat): (v: nat)
    requires off + 2 <= |b|
    ensures v < U16_LIMIT
  {
    b[off] as int + 0x100 * b[off + 1] as int
  }

  /** What is left of a length stored into a 16-bit field. */
  function Truncated(n: nat): (v: nat)
    ensures v < U16_LIMIT
  {
    if n < U16_LIMIT then n else n % U16_LIMIT
  }

  function PutU16(v: nat): (s: bytes)
    requires v < U16_LIMIT
    ensures |s| == 2 && GetU16(s, 0) == v
  {
    [(v % 0x100) as byte, (v / 0x100) as byte]
  }

  function GetU32(b: bytes, off: nat): (v: nat)
    requires off + 4 <= |b|
    ensures v < U32_LIMIT
  {
    GetU16(b, off) + U16_LIMIT * GetU16(b, off + 2)
  }

  function PutU32(v: nat): (s: bytes)
    requires v < U32_LIMIT
    ensures |s| == 4 && GetU32(s, 0) == v
  {
    var s := PutU16(v % U16_LIMIT) + PutU16(v / U16_LIMIT);
    assert GetU16(s, 0) == v % U16_LIMIT && GetU16(s, 2) == v / U16_LIMIT;
    s
  }

  /** The buffer b after s has been copied over it at offset off. */
  function Splice(b: bytes, off: nat, s: bytes): (r: bytes)
    requires off + |s| <= |b|
    ensures |r| == |b|
    ensures forall i :: 0 <= i < |b| ==> r[i] == if off <= i < off + |s| then s[i - off] else b[i]
  {
    b[..off] + s + b[off + |s|..]
  }

  /** The buffer holds the bytes s at offset off. */
  predicate BytesAt(b: bytes, off: nat, s: bytes) {
    off + |s| <= |b| && forall i :: 0 <= i < |s| ==> b[off + i] == s[i]
  }

  /** The bytes from lo up to hi. */
  function Extract(b: bytes, lo: nat, hi: nat): (s: bytes)
    requires lo <= hi <= |b|
    ensures |s| == hi - lo && BytesAt(b, lo, s)
  {
    seq(hi - lo, i requires 0 <= i < hi - lo => b[lo + i])
  }

  /** b and c hold the same bytes in the half-open range from lo to hi. */
  ghost predicate SameRange(b: bytes, c: bytes, lo: nat, hi: nat) {
    hi <= |b| && hi <= |c| && forall i :: lo <= i < hi ==> b[i] == c[i]
  }

  /** memcpy into a buffer: the named bytes are replaced and nothing else. */
  method Store(buf: array<byte>, off: nat, s: bytes)
    requires off + |s| <= buf.Length
    modifies buf
    ensures buf[..] == Splice(old(buf[..]), off, s)
  {
    for i := 0 to |s|
      invariant forall k :: 0 <= k < buf.Length ==>
        buf[k] == if off <= k < off + i then s[k - off] else old(buf[k])
    {
      buf[off + i] := s[i];
    }
  }
}
