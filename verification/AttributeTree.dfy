/**
 Attribute trees, the bytes the builder writes for them and the tree a nested walk reads back.
 Length fields are 16 bits wide, so an attribute longer than 65535 bytes is written with a
 truncated length; the padding after a payload is whatever the buffer held before.
 */
module AttributeTree {
  import opened Wire
  import opened Wrappers
  import opened Attributes

  /** A list of attributes: an attribute with bytes or with nested attributes, then the rest. */
  datatype Forest =
    | End
    | Leaf(ty: nat, payload: bytes, rest: Forest)
    | Nest(ty: nat, inner: Forest, rest: Forest)

  /** The four-byte words a forest takes in the buffer, padding included. */
  function SizeInWords(f: Forest): nat {
    match f
    case End => 0
    case Leaf(_, payload, rest) => Words(NLA_HDRLEN + |payload|) + SizeInWords(rest)
    case Nest(_, inner, rest) => 1 + SizeInWords(inner) + SizeInWords(rest)
  }

  function Size(f: Forest): nat { 4 * SizeInWords(f) }

  /** Attribute types are 16-bit fields. */
  predicate TypesFit(f: Forest) {
    match f
    case End => true
    case Leaf(ty, _, rest) => ty < U16_LIMIT && TypesFit(rest)
    case Nest(ty, inner, rest) => ty < U16_LIMIT && TypesFit(inner) && TypesFit(rest)
  }

  /** Every attribute's length fits its 16-bit length field. */
  predicate LengthsFit(f: Forest) {
    match f
    case End => true
    case Leaf(_, payload, rest) => NLA_HDRLEN + |payload| < U16_LIMIT && LengthsFit(rest)
    case Nest(_, inner, rest) => NLA_HDRLEN + Size(inner) < U16_LIMIT && LengthsFit(inner) && LengthsFit(rest)
  }

  /** The header at off has the given type and the 16-bit truncation of the given length. */
  predicate HeaderAt(b: bytes, off: nat, ty: nat, len: nat)
    requires off + NLA_HDRLEN <= |b|
  {
    GetU16(b, off) == Truncated(len) && GetU16(b, off + 2) == ty
  }

  /** The buffer holds, from off on, what the builder writes for f; the padding bytes are free. */
  predicate Written(b: bytes, off: nat, f: Forest)
    requires off + Size(f) <= |b|
    decreases f
  {
    match f
    case End => true
    case Leaf(ty, payload, rest) =>
      var len := NLA_HDRLEN + |payload|;
      HeaderAt(b, off, ty, len) && BytesAt(b, off + NLA_HDRLEN, payload) && Written(b, off + Align(len), rest)
    case Nest(ty, inner, rest) =>
      var len := NLA_HDRLEN + Size(inner);
      HeaderAt(b, off, ty, len) && Written(b, off + NLA_HDRLEN, inner) && Written(b, off + len, rest)
  }

  /** Written looks only at the bytes of the forest itself. */
  lemma {:induction false} WrittenFrame(b: bytes, c: bytes, off: nat, f: Forest)
    requires off + Size(f) <= |b| && SameRange(b, c, off, off + Size(f))
    requires Written(b, off, f)
    ensures Written(c, off, f)
    decreases f
  {
    match f
    case End =>
    case Leaf(ty, payload, rest) =>
      WrittenFrame(b, c, off + Align(NLA_HDRLEN + |payload|), rest);
    case Nest(ty, inner, rest) =>
      WrittenFrame(b, c, off + NLA_HDRLEN, inner);
      WrittenFrame(b, c, off + NLA_HDRLEN + Size(inner), rest);
  }

  /** What a reader knows beforehand: which types carry nested attributes, and what is inside them. */
  datatype Schema = Schema(nested: map<nat, Schema>)

  /** The tree nla_for_each_attr and nla_parse_nested read from any bytes, guided by a schema. */
  function Decode(b: bytes, off: nat, end: int, schema: Schema): Forest
    requires end <= |b|
    decreases end - off
  {
    if NlaOk(b, off, end) then
      var ty, len := NlaType(b, off), GetU16(b, off);
      var rest := Decode(b, NlaNext(b, off), end, schema);
      if ty in schema.nested then
        Nest(ty, Decode(b, off + NLA_HDRLEN, off + len, schema.nested[ty]), rest)
      else
        Leaf(ty, Extract(b, off + NLA_HDRLEN, off + len), rest)
    else
      End
  }

  /** The types of a list of attributes, nested ones not included. */
  function TopTypes(f: Forest): seq<nat> {
    match f
    case End => []
    case Leaf(ty, _, rest) => [ty] + TopTypes(rest)
    case Nest(ty, _, rest) => [ty] + TopTypes(rest)
  }

  /** The (masked) types of the attributes at the given offsets. */
  function TypesAt(b: bytes, vs: seq<nat>): seq<nat>
    requires Headers(b, vs)
  {
    if vs == [] then [] else [NlaType(b, vs[0])] + TypesAt(b, vs[1..])
  }

  /** The tree's top level is what nla_for_each_attr visits, so nla_parse's table and the tree agree. */
  lemma {:induction false} TopLevelIsVisited(b: bytes, off: nat, end: int, schema: Schema)
    requires end <= |b|
    ensures TopTypes(Decode(b, off, end, schema)) == TypesAt(b, Visits(b, off, end))
    decreases end - off
  {
    if NlaOk(b, off, end) {
      var rest := Visits(b, NlaNext(b, off), end);
      assert ([off] + rest)[1..] == rest;
      TopLevelIsVisited(b, NlaNext(b, off), end, schema);
    }
  }

  /** The tree with the flag bits cleared from every type, which is all a reader can see. */
  function MaskTypes(f: Forest): Forest {
    match f
    case End => End
    case Leaf(ty, payload, rest) => Leaf(Masked(ty), payload, MaskTypes(rest))
    case Nest(ty, inner, rest) => Nest(Masked(ty), MaskTypes(inner), MaskTypes(rest))
  }

  /** The tree nests exactly where the schema says. */
  predicate Conforms(f: Forest, schema: Schema) {
    match f
    case End => true
    case Leaf(ty, _, rest) => Masked(ty) !in schema.nested && Conforms(rest, schema)
    case Nest(ty, inner, rest) =>
      Masked(ty) in schema.nested && Conforms(inner, schema.nested[Masked(ty)]) && Conforms(rest, schema)
  }

  /** A header with an untruncated length is accepted by nla_ok and stepped over exactly. */
  lemma DecodeStep(b: bytes, off: nat, ty: nat, len: nat, end: nat, schema: Schema)
    requires off + NLA_HDRLEN <= |b| && HeaderAt(b, off, ty, len)
    requires NLA_HDRLEN <= len < U16_LIMIT && off + len <= end <= |b|
    ensures Decode(b, off, end, schema) ==
            var rest := Decode(b, off + Align(len), end, schema);
            if Masked(ty) in schema.nested then
              Nest(Masked(ty), Decode(b, off + NLA_HDRLEN, off + len, schema.nested[Masked(ty)]), rest)
            else
              Leaf(Masked(ty), Extract(b, off + NLA_HDRLEN, off + len), rest)
  {
  }

  /** The buffer holds f, f nests where the schema says, and every length of f fits. */
  ghost predicate Readable(b: bytes, off: nat, f: Forest, schema: Schema) {
    off + Size(f) <= |b| && Written(b, off, f) && Conforms(f, schema) && LengthsFit(f)
  }

  lemma ReadableLeaf(b: bytes, off: nat, f: Forest, schema: Schema)
    requires f.Leaf? && Readable(b, off, f, schema)
    ensures var len := NLA_HDRLEN + |f.payload|;
            && Masked(f.ty) !in schema.nested
            && len < U16_LIMIT && HeaderAt(b, off, f.ty, len) && BytesAt(b, off + NLA_HDRLEN, f.payload)
            && Readable(b, off + Align(len), f.rest, schema)
            && Size(f) == Align(len) + Size(f.rest)
  {
  }

  lemma ReadableNest(b: bytes, off: nat, f: Forest, schema: Schema)
    requires f.Nest? && Readable(b, off, f, schema)
    ensures var len := NLA_HDRLEN + Size(f.inner);
            && Masked(f.ty) in schema.nested
            && len < U16_LIMIT && HeaderAt(b, off, f.ty, len) && Align(len) == len
            && Readable(b, off + NLA_HDRLEN, f.inner, schema.nested[Masked(f.ty)])
            && Readable(b, off + len, f.rest, schema)
            && Size(f) == len + Size(f.rest)
  {
  }

  lemma {:induction false} LeafReadsBack(b: bytes, off: nat, f: Forest, schema: Schema, end: nat)
    requires f.Leaf? && Readable(b, off, f, schema) && end == off + Size(f)
    ensures Decode(b, off, end, schema) == MaskTypes(f)
    decreases f, 0
  {
    ReadableLeaf(b, off, f, schema);
    var len := NLA_HDRLEN + |f.payload|;
    ReadableReadsBack(b, off + Align(len), f.rest, schema, end);
    DecodeStep(b, off, f.ty, len, end, schema);
  }

  lemma {:induction false} NestReadsBack(b: bytes, off: nat, f: Forest, schema: Schema, end: nat)
    requires f.Nest? && Readable(b, off, f, schema) && end == off + Size(f)
    ensures Decode(b, off, end, schema) == MaskTypes(f)
    decreases f, 0
  {
    ReadableNest(b, off, f, schema);
    var len := NLA_HDRLEN + Size(f.inner);
    ReadableReadsBack(b, off + NLA_HDRLEN, f.inner, schema.nested[Masked(f.ty)], off + len);
    ReadableReadsBack(b, off + len, f.rest, schema, end);
    DecodeStep(b, off, f.ty, len, end, schema);
  }

  /** When every length fits, reading gives back the tree: types masked, payload exact, order kept. */
  lemma {:induction false} ReadableReadsBack(b: bytes, off: nat, f: Forest, schema: Schema, end: nat)
    requires Readable(b, off, f, schema) && end == off + Size(f)
    ensures Decode(b, off, end, schema) == MaskTypes(f)
    decreases f, 1
  {
    match f
    case End =>
    case Leaf(_, _, _) => LeafReadsBack(b, off, f, schema, end);
    case Nest(_, _, _) => NestReadsBack(b, off, f, schema, end);
  }

  lemma {:induction false} SizeIgnoresFlags(f: Forest)
    ensures SizeInWords(MaskTypes(f)) == SizeInWords(f)
  {
    match f
    case End =>
    case Leaf(_, _, rest) => SizeIgnoresFlags(rest);
    case Nest(_, inner, rest) => SizeIgnoresFlags(inner); SizeIgnoresFlags(rest);
  }

  /** Taking a prefix of l bytes, rounded up, off n bytes takes exactly its words off. */
  lemma WordsSplit(n: nat, l: nat)
    requires l <= n
    ensures Words(n) == Words(l) + (if Align(l) <= n then Words(n - Align(l)) else 0)
  {
  }

  /** The words of a tree that was read, by the parts its first attribute splits it into. */
  lemma DecodedSize(b: bytes, off: nat, n: nat, schema: Schema, inner: nat, rest: nat)
    requires off + n <= |b| && NlaOk(b, off, off + n)
    requires SizeInWords(Decode(b, NlaNext(b, off), off + n, schema)) <= rest
    requires var ty := NlaType(b, off);
             ty in schema.nested ==>
               SizeInWords(Decode(b, off + NLA_HDRLEN, off + GetU16(b, off), schema.nested[ty])) <= inner
    requires Words(GetU16(b, off)) == 1 + inner
    ensures SizeInWords(Decode(b, off, off + n, schema)) <= 1 + inner + rest
  {
    var len := GetU16(b, off);
    assert NLA_HDRLEN + |Extract(b, off + NLA_HDRLEN, off + len)| == len;
  }

  /** A tree read from a range of n bytes is no larger than the range, rounded up. */
  lemma {:induction false} DecodedTreeIsNoLarger(b: bytes, off: nat, n: nat, schema: Schema)
    requires off + n <= |b|
    ensures SizeInWords(Decode(b, off, off + n, schema)) <= Words(n)
    decreases n
  {
    if NlaOk(b, off, off + n) {
      var ty, len := NlaType(b, off), GetU16(b, off);
      WordsSplit(n, len);
      WordsSplit(len, NLA_HDRLEN);
      if Align(len) <= n {
        DecodedTreeIsNoLarger(b, NlaNext(b, off), n - Align(len), schema);
      }
      if ty in schema.nested {
        DecodedTreeIsNoLarger(b, off + NLA_HDRLEN, len - NLA_HDRLEN, schema.nested[ty]);
      }
      DecodedSize(b, off, n, schema, Words(len - NLA_HDRLEN), Words(n) - Words(len));
    }
  }

  lemma AlignWholeWords(w: nat)
    ensures Align(4 * w) == 4 * w
  {
  }

  /** A truncated nest length that still covers its w words was not truncated. */
  lemma CoveringLengthIsWhole(w: nat)
    requires var l := Truncated(NLA_HDRLEN + 4 * w); NLA_HDRLEN <= l && w <= Words(l - NLA_HDRLEN)
    ensures NLA_HDRLEN + 4 * w < U16_LIMIT
  {
  }

  /** Where the parts of a nest that was read come from; its attributes are covered by its length. */
  lemma DecodedNest(b: bytes, off: nat, end: nat, schema: Schema, n: Forest)
    requires end <= |b| && n == Decode(b, off, end, schema) && n.Nest?
    ensures NlaOk(b, off, end) && NlaType(b, off) == n.ty && n.ty in schema.nested
    ensures n.inner == Decode(b, off + NLA_HDRLEN, off + GetU16(b, off), schema.nested[n.ty])
    ensures n.rest == Decode(b, NlaNext(b, off), end, schema)
    ensures SizeInWords(n.inner) <= Words(GetU16(b, off) - NLA_HDRLEN)
  {
    DecodedTreeIsNoLarger(b, off + NLA_HDRLEN, GetU16(b, off) - NLA_HDRLEN, schema.nested[n.ty]);
    assert off + NLA_HDRLEN + (GetU16(b, off) - NLA_HDRLEN) == off + GetU16(b, off);
  }

  /** A nest read with as many words in it as were written has a whole length field, and its parts abut. */
  lemma ReadBackNest(b: bytes, off: nat, end: nat, schema: Schema, n: Forest)
    requires off + NLA_HDRLEN <= end <= |b| && n == Decode(b, off, end, schema) && n.Nest?
    requires GetU16(b, off) == Truncated(NLA_HDRLEN + Size(n.inner))
    ensures var len := NLA_HDRLEN + Size(n.inner);
            && len < U16_LIMIT && off + len <= end && n.ty in schema.nested
            && Decode(b, off + NLA_HDRLEN, off + len, schema.nested[n.ty]) == n.inner
            && Decode(b, off + len, end, schema) == n.rest
  {
    DecodedNest(b, off, end, schema, n);
    CoveringLengthIsWhole(SizeInWords(n.inner));
    AlignWholeWords(1 + SizeInWords(n.inner));
  }

  /** A leaf read with as many bytes as were written has a whole length field. */
  lemma ReadBackLeaf(b: bytes, off: nat, end: nat, schema: Schema, n: Forest)
    requires off + NLA_HDRLEN <= end <= |b| && n == Decode(b, off, end, schema) && n.Leaf?
    requires GetU16(b, off) == Truncated(NLA_HDRLEN + |n.payload|)
    ensures var len := NLA_HDRLEN + |n.payload|;
            len < U16_LIMIT && Decode(b, off + Align(len), end, schema) == n.rest
  {
  }

  lemma {:induction false} LeafThatReadsBackFits(b: bytes, off: nat, f: Forest, schema: Schema, end: nat)
    requires f.Leaf? && end == off + Size(f) <= |b| && Written(b, off, f)
    requires Decode(b, off, end, schema) == MaskTypes(f)
    ensures LengthsFit(f)
    decreases f, 0
  {
    ReadBackLeaf(b, off, end, schema, MaskTypes(f));
    ReadBackTreeFits(b, off + Align(NLA_HDRLEN + |f.payload|), f.rest, schema, end);
  }

  /** The parts of a nest that reads back: its length is whole, and both parts read back. */
  lemma NestPartsReadBack(b: bytes, off: nat, f: Forest, schema: Schema, end: nat)
    requires f.Nest? && end == off + Size(f) <= |b| && HeaderAt(b, off, f.ty, NLA_HDRLEN + Size(f.inner))
    requires Decode(b, off, end, schema) == MaskTypes(f)
    ensures var len := NLA_HDRLEN + Size(f.inner);
            && len < U16_LIMIT && end == off + len + Size(f.rest) && Masked(f.ty) in schema.nested
            && Decode(b, off + NLA_HDRLEN, off + len, schema.nested[Masked(f.ty)]) == MaskTypes(f.inner)
            && Decode(b, off + len, end, schema) == MaskTypes(f.rest)
  {
    SizeIgnoresFlags(f.inner);
    ReadBackNest(b, off, end, schema, Nest(Masked(f.ty), MaskTypes(f.inner), MaskTypes(f.rest)));
  }

  lemma {:induction false} NestThatReadsBackFits(b: bytes, off: nat, f: Forest, schema: Schema, end: nat)
    requires f.Nest? && end == off + Size(f) <= |b| && Written(b, off, f)
    requires Decode(b, off, end, schema) == MaskTypes(f)
    ensures LengthsFit(f)
    decreases f, 0
  {
    var len := NLA_HDRLEN + Size(f.inner);
    NestPartsReadBack(b, off, f, schema, end);
    ReadBackTreeFits(b, off + NLA_HDRLEN, f.inner, schema.nested[Masked(f.ty)], off + len);
    ReadBackTreeFits(b, off + len, f.rest, schema, end);
  }

  /** When some length does not fit its 16 bits, the tree does not read back. */
  lemma {:induction false} ReadBackTreeFits(b: bytes, off: nat, f: Forest, schema: Schema, end: nat)
    requires end == off + Size(f) <= |b| && Written(b, off, f)
    requires Decode(b, off, end, schema) == MaskTypes(f)
    ensures LengthsFit(f)
    decreases f, 1
  {
    match f
    case End =>
    case Leaf(_, _, _) => LeafThatReadsBackFits(b, off, f, schema, end);
    case Nest(_, _, _) => NestThatReadsBackFits(b, off, f, schema, end);
  }

  /** The codec round trip: a written tree reads back exactly when every attribute length fits 16 bits. */
  lemma RoundTripIffLengthsFit(b: bytes, off: nat, f: Forest, schema: Schema)
    requires off + Size(f) <= |b| && Written(b, off, f) && Conforms(f, schema)
    ensures Decode(b, off, off + Size(f), schema) == MaskTypes(f) <==> LengthsFit(f)
  {
    if LengthsFit(f) {
      ReadableReadsBack(b, off, f, schema, off + Size(f));
    } else if Decode(b, off, off + Size(f), schema) == MaskTypes(f) {
      ReadBackTreeFits(b, off, f, schema, off + Size(f));
    }
  }

  lemma {:induction false} SmallTreeFits(f: Forest)
    requires Size(f) < U16_LIMIT
    ensures LengthsFit(f)
  {
    match f
    case End =>
    case Leaf(_, _, rest) => SmallTreeFits(rest);
    case Nest(_, inner, rest) => SmallTreeFits(inner); SmallTreeFits(rest);
  }

  /** In a buffer of less than 65536 bytes every written tree reads back, whatever it is. */
  lemma SmallBufferRoundTrip(b: bytes, off: nat, f: Forest, schema: Schema)
    requires |b| < U16_LIMIT
    requires off + Size(f) <= |b| && Written(b, off, f) && Conforms(f, schema)
    ensures Decode(b, off, off + Size(f), schema) == MaskTypes(f)
  {
    SmallTreeFits(f);
    RoundTripIffLengthsFit(b, off, f, schema);
  }

  /** No type of the tree has one of the two flag bits. */
  predicate NoFlags(f: Forest) {
    match f
    case End => true
    case Leaf(ty, _, rest) => ty < 0x4000 && NoFlags(rest)
    case Nest(ty, inner, rest) => ty < 0x4000 && NoFlags(inner) && NoFlags(rest)
  }

  lemma {:induction false} MaskingKeepsTypes(f: Forest)
    requires NoFlags(f)
    ensures MaskTypes(f) == f
  {
    match f
    case End =>
    case Leaf(_, _, rest) => MaskingKeepsTypes(rest);
    case Nest(_, inner, rest) => MaskingKeepsTypes(inner); MaskingKeepsTypes(rest);
  }

  /** A tree without flag bits, written in such a buffer, reads back as itself. */
  lemma PlainTreeReadsBack(b: bytes, off: nat, f: Forest, schema: Schema)
    requires |b| < U16_LIMIT && NoFlags(f)
    requires off + Size(f) <= |b| && Written(b, off, f) && Conforms(f, schema)
    ensures Decode(b, off, off + Size(f), schema) == f
  {
    SmallBufferRoundTrip(b, off, f, schema);
    MaskingKeepsTypes(f);
  }

  /** The shortest payload that is lost: 65532 bytes make the length field 0, and the walk stops at once. */
  lemma TruncatedLeafIsLost(ty: nat, payload: bytes)
    requires ty < U16_LIMIT && |payload| == U16_LIMIT - NLA_HDRLEN
    ensures var b, f := [0, 0] + PutU16(ty) + payload, Leaf(ty, payload, End);
            && Size(f) == |b| && Written(b, 0, f) && Conforms(f, Schema(map[]))
            && Decode(b, 0, |b|, Schema(map[])) == End
  {
    var b := [0, 0] + PutU16(ty) + payload;
    var f := Leaf(ty, payload, End);
    assert b[2..4] == PutU16(ty);
    AlignWholeWords(U16_LIMIT / 4);
    assert NLA_HDRLEN + |payload| == 4 * (U16_LIMIT / 4);
    assert SizeInWords(f) == Words(NLA_HDRLEN + |payload|) + SizeInWords(End);
    assert GetU16(b, 0) == 0 == Truncated(NLA_HDRLEN + |payload|);
    assert GetU16(b, 2) == GetU16(PutU16(ty), 0);
    assert BytesAt(b, NLA_HDRLEN, payload);
  }

  // ---------------------------------------------------------------- nla_parse's table on a written tree

  /** The last top-level attribute of a type, None as End. */
  function LastNode(f: Forest, ty: nat): (n: Forest)
    ensures n == End || (n != End && Masked(n.ty) == ty)
  {
    if f == End then End
    else
      var later := LastNode(f.rest, ty);
      if later != End then later else if Masked(f.ty) == ty then f else End
  }

  /** The slot finds the attribute n as it was written: payload bytes, or inner attributes to walk again. */
  predicate Finds(b: bytes, slot: Option<nat>, n: Forest, schema: Schema, end: nat)
    requires end <= |b|
  {
    && slot.Some? && n != End
    && AttrInside(b, slot.value, 0, end) && NlaType(b, slot.value) == Masked(n.ty)
    && var p, q := slot.value + NLA_HDRLEN, slot.value + GetU16(b, slot.value);
       if n.Leaf? then Extract(b, p, q) == n.payload
       else Masked(n.ty) in schema.nested && Decode(b, p, q, schema.nested[Masked(n.ty)]) == MaskTypes(n.inner)
  }

  /** The first attribute of a readable forest is where it starts, and the walk goes on behind it. */
  lemma FirstIsFound(b: bytes, off: nat, f: Forest, schema: Schema, end: nat)
    requires f != End && Readable(b, off, f, schema) && end == off + Size(f)
    ensures NlaOk(b, off, end) && Finds(b, Some(off), f, schema, end)
    ensures Readable(b, NlaNext(b, off), f.rest, schema) && end == NlaNext(b, off) + Size(f.rest)
  {
    if f.Leaf? {
      ReadableLeaf(b, off, f, schema);
      assert Extract(b, off + NLA_HDRLEN, off + GetU16(b, off)) == f.payload;
    } else {
      ReadableNest(b, off, f, schema);
      var len := NLA_HDRLEN + Size(f.inner);
      ReadableReadsBack(b, off + NLA_HDRLEN, f.inner, schema.nested[Masked(f.ty)], off + len);
    }
  }

  lemma {:induction false} SlotFromFinds(b: bytes, off: nat, f: Forest, schema: Schema, end: nat, ty: nat,
                                         acc: Option<nat>)
    requires Readable(b, off, f, schema) && end == off + Size(f)
    ensures var slot, n := SlotFrom(b, off, end, ty, acc), LastNode(f, ty);
            if n == End then slot == acc else Finds(b, slot, n, schema, end)
    decreases f
  {
    if f != End {
      FirstIsFound(b, off, f, schema, end);
      SlotFromFinds(b, NlaNext(b, off), f.rest, schema, end, ty, if NlaType(b, off) == ty then Some(off) else acc);
    }
  }

  /**
   nla_parse on a written tree whose lengths fit: a slot is empty exactly when the top level has no
   attribute of the type, and else points at the last one, with its payload or its inner attributes.
   */
  lemma SlotFindsLastNode(b: bytes, off: nat, f: Forest, schema: Schema, end: nat, ty: nat)
    requires Readable(b, off, f, schema) && end == off + Size(f)
    ensures var slot, n := Slot(b, off, end, ty), LastNode(f, ty);
            if n == End then slot == None else Finds(b, slot, n, schema, end)
  {
    SlotFromFinds(b, off, f, schema, end, ty, None);
  }
}
