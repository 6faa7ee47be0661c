/**
 The range-compressing part of IdGenerator.__str__ (scripts/lib/python/dn_base_id_tool.py): the
 ranges printed for the reserved ids.
 */
module IdRanges {

  /** One printed range, both ends included; a single id is printed without the dash. */
  datatype Interval = Interval(lo: int, hi: int)

  predicate Ascending(ids: seq<int>) {
    forall i, j :: 0 <= i < j < |ids| ==> ids[i] < ids[j]
  }

  predicate Inside(r: Interval, x: int) { r.lo <= x <= r.hi }

  /** Some range contains x. */
  ghost predicate Covers(rs: seq<Interval>, x: int) {
    exists k :: 0 <= k < |rs| && Inside(rs[k], x)
  }

  /** Non-empty ranges in ascending order, with at least one id missing between any two. */
  ghost predicate Maximal(rs: seq<Interval>) {
    && (forall k :: 0 <= k < |rs| ==> rs[k].lo <= rs[k].hi)
    && (forall j, k :: 0 <= j < k < |rs| ==> rs[j].hi + 1 < rs[k].lo)
  }

  /** The ranges written for an id list that sorted() returned. */
  method WriteRanges(idList: seq<int>) returns (rs: seq<Interval>)
    requires Ascending(idList)
    ensures Maximal(rs)
    ensures forall x :: Covers(rs, x) <==> x in idList
  {
    rs := [];
    if |idList| == 0 {
      return;
    }
    var startId, prevId := idList[0], idList[0];
    for i := 1 to |idList|
      invariant prevId == idList[i - 1] && startId <= prevId
      invariant Maximal(rs) && forall k :: 0 <= k < |rs| ==> rs[k].hi + 1 < startId
      invariant forall x :: x in idList[..i] <==> Covers(rs, x) || startId <= x <= prevId
    {
      var objId := idList[i];
      ghost var was := rs;
      if objId > prevId + 1 {
        rs := rs + [Interval(startId, prevId)];
        CoversSnoc(was, Interval(startId, prevId));
        startId := objId;
      }
      prevId := objId;
      assert idList[..i + 1] == idList[..i] + [objId];
    }
    CoversSnoc(rs, Interval(startId, prevId));
    rs := rs + [Interval(startId, prevId)];
    assert idList[..|idList|] == idList;
  }

  lemma CoversSnoc(rs: seq<Interval>, r: Interval)
    ensures forall x :: Covers(rs + [r], x) <==> Covers(rs, x) || Inside(r, x)
  {
    forall x ensures Covers(rs + [r], x) <==> Covers(rs, x) || Inside(r, x) {
      assert (rs + [r])[|rs|] == r;
      if Covers(rs, x) {
        var k :| 0 <= k < |rs| && Inside(rs[k], x);
        assert Inside((rs + [r])[k], x);
      }
    }
  }

  lemma CoversCons(rs: seq<Interval>, x: int)
    requires rs != []
    ensures Covers(rs, x) <==> Inside(rs[0], x) || Covers(rs[1..], x)
  {
  }

  /** The first range of two maximal lists with the same ids starts, and ends, at the same id. */
  lemma SameFirstRange(a: seq<Interval>, b: seq<Interval>)
    requires Maximal(a) && Maximal(b) && a != [] && b != []
    requires forall x :: Covers(a, x) <==> Covers(b, x)
    ensures a[0] == b[0]
  {
    FirstIdCovered(a);
    FirstIdCovered(b);
    assert a[0].lo == b[0].lo;
    NotCovered(a);
    NotCovered(b);
    assert !Inside(a[0], b[0].hi + 1) && !Inside(b[0], a[0].hi + 1);
  }

  lemma FirstIdCovered(a: seq<Interval>)
    requires Maximal(a) && a != []
    ensures Covers(a, a[0].lo)
  {
  }

  lemma NotCovered(a: seq<Interval>)
    requires Maximal(a) && a != []
    ensures !Covers(a, a[0].hi + 1)
  {
  }

  /** The printed form is canonical: the reserved set determines the ranges, and no other maximal list fits. */
  lemma {:induction false} RangesDeterminedByIds(a: seq<Interval>, b: seq<Interval>)
    requires Maximal(a) && Maximal(b)
    requires forall x :: Covers(a, x) <==> Covers(b, x)
    ensures a == b
    decreases |a| + |b|
  {
    if a != [] {
      FirstIdCovered(a);
    }
    if b != [] {
      FirstIdCovered(b);
    }
    if a != [] && b != [] {
      SameFirstRange(a, b);
      forall x ensures Covers(a[1..], x) <==> Covers(b[1..], x) {
        CoversCons(a, x);
        CoversCons(b, x);
        assert Inside(a[0], x) ==> !Covers(a[1..], x) && !Covers(b[1..], x);
      }
      RangesDeterminedByIds(a[1..], b[1..]);
      assert a == [a[0]] + a[1..] && b == [b[0]] + b[1..];
    }
  }
}
