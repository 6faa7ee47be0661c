/**
 The message builder of src/netlink_tools.c: nlmsg_reserve, nlmsg_add_attr,
 nlmsg_nested_start and nlmsg_nested_end over one fixed buffer.
 */
module MessageBuffer {
  import opened Wire
  import opened Wrappers
  import opened Attributes
  import opened AttributeTree

  /** The four header bytes of an attribute whose whole length is len. */
  function AttrHeader(ty: nat, len: nat): (h: bytes)
    requires ty < U16_LIMIT
    ensures |h| == NLA_HDRLEN && HeaderAt(h, 0, ty, len)
  {
    PutU16(Truncated(len)) + PutU16(ty)
  }

  /** The forest f is written at off, inside the buffer. */
  ghost predicate ForestAt(b: bytes, off: nat, f: Forest) {
    off + Size(f) <= |b| && Written(b, off, f)
  }

  /** A complete attribute with bytes. */
  ghost predicate LeafAt(b: bytes, off: nat, ty: nat, payload: bytes) {
    && off + NLA_HDRLEN + |payload| <= |b|
    && HeaderAt(b, off, ty, NLA_HDRLEN + |payload|)
    && BytesAt(b, off + NLA_HDRLEN, payload)
  }

  /** A complete nest: header with its length, and the inner attributes behind it. */
  ghost predicate NestAt(b: bytes, off: nat, ty: nat, inner: Forest) {
    && off + NLA_HDRLEN + Size(inner) <= |b|
    && HeaderAt(b, off, ty, NLA_HDRLEN + Size(inner))
    && Written(b, off + NLA_HDRLEN, inner)
  }

  /** A netlink message under construction: the buffer and nlmsg_len. */
  class Message {
    const buf: array<byte>
    var len: nat

    /** The tail of the message, its length rounded up, lies in the buffer. */
    ghost predicate Valid()
      reads this
    {
      4 * Used() <= buf.Length
    }

    /** The four-byte words in use; the tail of the message is four times as far. */
    ghost function Used(): nat
      reads this
    {
      Words(len)
    }

    /** nlmsg_len is w whole words. */
    ghost predicate HasWords(w: nat)
      reads this
    {
      len == 4 * w && Used() == w
    }

    constructor (size: nat)
      ensures Valid() && fresh(buf) && buf.Length == size && len == 0
    {
      buf := new byte[size](_ => 0);
      len := 0;
    }

    /** nlmsg_reserve: the old tail of the message, or None when the rounded-up space is not there. */
    method Reserve(n: nat) returns (p: Option<nat>)
      requires Valid()
      modifies this`len
      ensures Valid()
      ensures p == if Align(old(len)) + Align(n) <= buf.Length then Some(Align(old(len))) else None
      ensures len == if p.Some? then Align(old(len)) + Align(n) else old(len)
      ensures Used() == old(Used()) + if p.Some? then Words(n) else 0
    {
      var tail := Align(len);
      if Align(len) + Align(n) > buf.Length {
        return None;
      }
      AlignWholeWords(Words(len) + Words(n));
      len := Align(len) + Align(n);
      return Some(tail);
    }

    /** nlmsg_add_attr: -1 and no change when the space is not there, else the new message length. */
    method AddAttr(ty: nat, data: bytes) returns (rc: int)
      requires Valid() && ty < U16_LIMIT
      modifies this`len, buf
      ensures Valid()
      ensures Align(old(len)) + Align(NLA_HDRLEN + |data|) > buf.Length ==>
                rc == -1 && len == old(len) && buf[..] == old(buf[..])
      ensures Align(old(len)) + Align(NLA_HDRLEN + |data|) <= buf.Length ==>
                && rc == len == Align(old(len)) + Align(NLA_HDRLEN + |data|)
                && Used() == old(Used()) + Words(NLA_HDRLEN + |data|)
                && buf[..] == Splice(old(buf[..]), 4 * old(Used()), AttrHeader(ty, NLA_HDRLEN + |data|) + data)
    {
      var rta := Reserve(NLA_HDRLEN + |data|);
      if rta == None {
        return -1;
      }
      Store(buf, rta.value, AttrHeader(ty, NLA_HDRLEN + |data|) + data);
      return len;
    }

    /** nlmsg_nested_start: the reserved header is returned unwritten; the caller sets its fields. */
    method NestedStart() returns (p: Option<nat>)
      requires Valid()
      modifies this`len
      ensures Valid()
      ensures p == if 4 * old(Used()) + NLA_HDRLEN <= buf.Length then Some(4 * old(Used())) else None
      ensures len == if p.Some? then 4 * old(Used()) + NLA_HDRLEN else old(len)
      ensures Used() == old(Used()) + if p.Some? then 1 else 0
    {
      p := Reserve(NLA_HDRLEN);
    }

    /** nlmsg_nested_start with the two field writes every caller makes next: length 0 and the type. */
    method OpenNest(ty: nat) returns (p: Option<nat>)
      requires Valid() && ty < U16_LIMIT
      modifies this`len, buf
      ensures Valid()
      ensures p == if 4 * old(Used()) + NLA_HDRLEN <= buf.Length then Some(4 * old(Used())) else None
      ensures len == if p.Some? then 4 * old(Used()) + NLA_HDRLEN else old(len)
      ensures Used() == old(Used()) + if p.Some? then 1 else 0
      ensures SameRange(buf[..], old(buf[..]), 0, 4 * old(Used()))
      ensures p.Some? ==> HeaderAt(buf[..], 4 * old(Used()), ty, 0)
    {
      p := NestedStart();
      if p.Some? {
        Store(buf, p.value, AttrHeader(ty, 0));
        HeaderStored(buf[..], old(buf[..]), p.value, ty);
      }
    }

    /** nlmsg_nested_end: back-patches the 16-bit length of the attribute open at attr. */
    method NestedEnd(attr: nat)
      requires Valid() && attr + NLA_HDRLEN <= 4 * Used()
      modifies buf
      ensures buf[..] == Splice(old(buf[..]), attr, PutU16(Truncated(4 * Used() - attr)))
    {
      Store(buf, attr, PutU16(Truncated(Align(len) - attr)));
    }

    /**
     The calls that build an attribute tree, in the order the callers of this file make them:
     add_attr for an attribute with bytes, nested_start, the inner attributes and nested_end for a
     nest.  It succeeds exactly when the tree fits the buffer, keeps every byte before the tree,
     and leaves the tree written, whatever the buffer held.
     */
    method BuildForest(f: Forest) returns (ok: bool)
      requires Valid() && TypesFit(f)
      modifies this`len, buf
      ensures Valid()
      ensures ok <==> 4 * (old(Used()) + SizeInWords(f)) <= buf.Length
      ensures Used() >= old(Used())
      ensures SameRange(buf[..], old(buf[..]), 0, 4 * old(Used()))
      ensures ok ==> Used() == old(Used()) + SizeInWords(f) && ForestAt(buf[..], 4 * old(Used()), f)
      decreases f, 1
    {
      match f
      case End =>
        ok := true;
      case Leaf(ty, payload, rest) =>
        ok := BuildLeaf(ty, payload, rest);
      case Nest(ty, inner, rest) =>
        ok := BuildNest(ty, inner, rest);
    }

    method AddLeaf(ty: nat, payload: bytes) returns (ok: bool)
      requires Valid() && ty < U16_LIMIT
      modifies this`len, buf
      ensures Valid()
      ensures ok <==> 4 * (old(Used()) + Words(NLA_HDRLEN + |payload|)) <= buf.Length
      ensures Used() >= old(Used())
      ensures SameRange(buf[..], old(buf[..]), 0, 4 * old(Used()))
      ensures ok ==> && Used() == old(Used()) + Words(NLA_HDRLEN + |payload|)
                     && LeafAt(buf[..], 4 * old(Used()), ty, payload)
    {
      var rc := AddAttr(ty, payload);
      ok := rc != -1;
      if ok {
        LeafWritten(buf[..], old(buf[..]), 4 * old(Used()), ty, payload);
      }
    }

    method BuildLeaf(ty: nat, payload: bytes, rest: Forest) returns (ok: bool)
      requires Valid() && TypesFit(Leaf(ty, payload, rest))
      modifies this`len, buf
      ensures Valid()
      ensures ok <==> 4 * (old(Used()) + SizeInWords(Leaf(ty, payload, rest))) <= buf.Length
      ensures Used() >= old(Used())
      ensures SameRange(buf[..], old(buf[..]), 0, 4 * old(Used()))
      ensures ok ==> && Used() == old(Used()) + SizeInWords(Leaf(ty, payload, rest))
                     && ForestAt(buf[..], 4 * old(Used()), Leaf(ty, payload, rest))
      decreases Leaf(ty, payload, rest), 0
    {
      ok := AddLeaf(ty, payload);
      if !ok {
        return;
      }
      ghost var mid := buf[..];
      ok := BuildForest(rest);
      if ok {
        LeafKept(mid, buf[..], 4 * old(Used()), ty, payload, rest);
      }
    }

    method BuildNest(ty: nat, inner: Forest, rest: Forest) returns (ok: bool)
      requires Valid() && TypesFit(Nest(ty, inner, rest))
      modifies this`len, buf
      ensures Valid()
      ensures ok <==> 4 * (old(Used()) + SizeInWords(Nest(ty, inner, rest))) <= buf.Length
      ensures Used() >= old(Used())
      ensures SameRange(buf[..], old(buf[..]), 0, 4 * old(Used()))
      ensures ok ==> && Used() == old(Used()) + SizeInWords(Nest(ty, inner, rest))
                     && ForestAt(buf[..], 4 * old(Used()), Nest(ty, inner, rest))
      decreases Nest(ty, inner, rest), 0
    {
      ok := FillNest(ty, inner);
      if !ok {
        return;
      }
      ghost var closed := buf[..];
      ok := BuildForest(rest);
      if ok {
        NestKept(closed, buf[..], 4 * old(Used()), ty, inner, rest);
      }
    }

    method FillNest(ty: nat, inner: Forest) returns (ok: bool)
      requires Valid() && ty < U16_LIMIT && TypesFit(inner)
      modifies this`len, buf
      ensures Valid()
      ensures ok <==> 4 * (old(Used()) + 1 + SizeInWords(inner)) <= buf.Length
      ensures Used() >= old(Used())
      ensures SameRange(buf[..], old(buf[..]), 0, 4 * old(Used()))
      ensures ok ==> && Used() == old(Used()) + 1 + SizeInWords(inner)
                     && NestAt(buf[..], 4 * old(Used()), ty, inner)
      decreases inner, 2
    {
      var p := OpenNest(ty);
      if p == None {
        return false;
      }
      ghost var open := buf[..];
      ok := BuildForest(inner);
      if ok {
        CloseNest(p.value, old(buf[..]), open, ty, inner);
      }
    }

    /** nlmsg_nested_end for a nest opened at attr and filled with inner since. */
    method CloseNest(attr: nat, ghost was: bytes, ghost open: bytes, ghost ty: nat, ghost inner: Forest)
      requires Valid() && 4 * Used() == attr + NLA_HDRLEN + Size(inner)
      requires attr + NLA_HDRLEN <= |open| == buf.Length
      requires SameRange(open, was, 0, attr) && HeaderAt(open, attr, ty, 0)
      requires SameRange(buf[..], open, 0, attr + NLA_HDRLEN) && ForestAt(buf[..], attr + NLA_HDRLEN, inner)
      modifies buf
      ensures NestAt(buf[..], attr, ty, inner) && SameRange(buf[..], was, 0, attr)
    {
      ghost var filled := buf[..];
      NestedEnd(attr);
      NestClosed(was, open, filled, buf[..], attr, ty, inner);
    }
  }

  /** After AddAttr the header and the payload are in place. */
  lemma LeafWritten(b: bytes, was: bytes, off: nat, ty: nat, payload: bytes)
    requires ty < U16_LIMIT && off + NLA_HDRLEN + |payload| <= |was|
    requires b == Splice(was, off, AttrHeader(ty, NLA_HDRLEN + |payload|) + payload)
    ensures LeafAt(b, off, ty, payload) && SameRange(b, was, 0, off)
  {
  }

  /** A written header and payload survive writes behind them. */
  lemma LeafKept(b: bytes, c: bytes, off: nat, ty: nat, payload: bytes, rest: Forest)
    requires |b| == |c| && LeafAt(b, off, ty, payload) && SameRange(b, c, 0, off + Align(NLA_HDRLEN + |payload|))
    requires ForestAt(c, off + Align(NLA_HDRLEN + |payload|), rest)
    ensures ForestAt(c, off, Leaf(ty, payload, rest))
  {
  }

  lemma HeaderStored(b: bytes, was: bytes, off: nat, ty: nat)
    requires ty < U16_LIMIT && off + NLA_HDRLEN <= |was| && b == Splice(was, off, AttrHeader(ty, 0))
    ensures HeaderAt(b, off, ty, 0) && SameRange(b, was, 0, off)
  {
  }

  /** The back-patch completes the header and leaves the type and the inner attributes alone. */
  lemma NestClosed(was: bytes, open: bytes, filled: bytes, closed: bytes, off: nat, ty: nat, inner: Forest)
    requires off + NLA_HDRLEN <= |open| == |filled|
    requires SameRange(open, was, 0, off) && HeaderAt(open, off, ty, 0)
    requires SameRange(filled, open, 0, off + NLA_HDRLEN)
    requires ForestAt(filled, off + NLA_HDRLEN, inner)
    requires closed == Splice(filled, off, PutU16(Truncated(NLA_HDRLEN + Size(inner))))
    ensures NestAt(closed, off, ty, inner)
    ensures SameRange(closed, was, 0, off)
  {
    var field := PutU16(Truncated(NLA_HDRLEN + Size(inner)));
    assert closed[off] == field[0] && closed[off + 1] == field[1];
    WrittenFrame(filled, closed, off + NLA_HDRLEN, inner);
  }

  /** A closed nest survives writes behind it. */
  lemma NestKept(b: bytes, c: bytes, off: nat, ty: nat, inner: Forest, rest: Forest)
    requires |b| == |c| && NestAt(b, off, ty, inner) && SameRange(b, c, 0, off + NLA_HDRLEN + Size(inner))
    requires ForestAt(c, off + NLA_HDRLEN + Size(inner), rest)
    ensures ForestAt(c, off, Nest(ty, inner, rest))
  {
    WrittenFrame(b, c, off + NLA_HDRLEN, inner);
  }
}
