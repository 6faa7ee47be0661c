/**
 The object ID allocator of scripts/lib/python/dn_base_id_tool.py: class IdGenerator with its cached
 next id and cached maximum, and the plain set of ids with least-free allocation that it refines.
 */
module IdGenerator {
  import opened Wrappers

  // ---------------------------------------------------------------- what it refines

  /** The allocation range; no maximum means unbounded. */
  datatype Range = Range(min: int, max: Option<int>) {
    predicate Below(id: int) { max.Some? ==> id <= max.value }

    predicate Contains(id: int) { min <= id && Below(id) }

    /** Some id can be allocated at all. */
    predicate NonEmpty() { Below(min) }
  }

  /** The ids in use, and whether at the end of some allocation or reservation the whole range was. */
  datatype Ids = Ids(live: set<int>, wasFull: bool)

  ghost predicate IsLeastFree(range: Range, live: set<int>, id: int) {
    range.min <= id && id !in live && forall x :: range.min <= x < id ==> x in live
  }

  ghost predicate Full(range: Range, live: set<int>) {
    range.max.Some? && forall x :: range.min <= x <= range.max.value ==> x in live
  }

  /** A call with its result. */
  datatype Event =
    | Got(result: Option<int>)
    | Released(id: int, ok: bool)
    | Reserved(id: int, ok: bool)
    | Asked(id: int, used: bool)

  /** The set-of-ids specification: neither the cached next id nor the cached maximum occurs in it. */
  ghost predicate Allowed(range: Range, s: Ids, e: Event, t: Ids) {
    match e
    case Got(None) => s.wasFull && t == s
    case Got(Some(id)) =>
      && !s.wasFull && IsLeastFree(range, s.live, id)
      && t == Ids(s.live + {id}, Full(range, s.live + {id}))
    case Released(id, ok) => ok == (id in s.live) && t == s.(live := s.live - {id})
    case Reserved(id, ok) =>
      && ok == (range.Contains(id) && id !in s.live)
      && t == if ok then Ids(s.live + {id}, s.wasFull || Full(range, s.live + {id})) else s
    case Asked(id, used) => used == (id in s.live) && t == s
  }

  // ---------------------------------------------------------------- the class

  class IdGenerator {
    const range: Range
    var resvedIds: set<int>
    var availId: Option<int>
    var maxResvedId: Option<int>
    ghost var wasFull: bool

    ghost function Abs(): Ids
      reads this
    {
      Ids(resvedIds, wasFull)
    }

    /** The cached maximum is the maximum of the reserved ids, or None exactly when there are none. */
    ghost predicate MaxCached()
      reads this
    {
      match maxResvedId
      case None => resvedIds == {}
      case Some(m) => m in resvedIds && forall x :: x in resvedIds ==> x <= m
    }

    ghost predicate Valid()
      reads this
    {
      && (forall x :: x in resvedIds ==> range.min <= x && (range.NonEmpty() ==> range.Below(x)))
      && MaxCached()
      && (availId.None? <==> wasFull)
      && (availId.Some? ==> && IsLeastFree(range, resvedIds, availId.value)
                            && (range.NonEmpty() ==> range.Below(availId.value)))
    }

    constructor Init(minId: int, maxId: Option<int>)
      ensures Valid() && range == Range(minId, maxId) && Abs() == Ids({}, false)
    {
      range := Range(minId, maxId);
      resvedIds, availId, maxResvedId := {}, Some(minId), None;
      wasFull := false;
    }

    /** __init__: ValueError, here None, exactly when both bounds are given and not in order. */
    static method Create(minId: Option<int>, maxId: Option<int>) returns (g: Option<IdGenerator>)
      ensures g.None? <==> minId.Some? && maxId.Some? && minId.value >= maxId.value
      ensures g.Some? ==> && fresh(g.value) && g.value.Valid() && g.value.Abs() == Ids({}, false)
                          && g.value.range == Range(if minId.Some? then minId.value else 1, maxId)
    {
      if minId.Some? && maxId.Some? && minId.value >= maxId.value {
        return None;
      }
      var gen := new IdGenerator.Init(if minId.Some? then minId.value else 1, maxId);
      return Some(gen);
    }

    /**
     get_next_avail_id, called when the next id has just been reserved and the cached maximum may
     not know it yet.  The search stops at the cached maximum, and the last id may be the next.
     */
    method GetNextAvailId()
      requires availId.Some? && availId.value in resvedIds && range.min <= availId.value
      requires forall x :: range.min <= x < availId.value ==> x in resvedIds
      requires match maxResvedId
               case None => resvedIds == {availId.value}
               case Some(m) => forall x :: x in resvedIds ==> x <= m || x == availId.value
      modifies this`availId
      ensures availId.None? <==> Full(range, resvedIds)
      ensures availId.Some? ==> IsLeastFree(range, resvedIds, availId.value) && range.Below(availId.value)
    {
      var next := availId.value + 1;
      while maxResvedId.None? || next <= maxResvedId.value
        invariant availId.value < next
        invariant forall x :: range.min <= x < next ==> x in resvedIds
        decreases if maxResvedId.None? then 0 else maxResvedId.value - next
      {
        if next !in resvedIds {
          break;
        }
        next := next + 1;
      }
      assert IsLeastFree(range, resvedIds, next);
      availId := Some(next);
      if range.max.Some? && next > range.max.value {
        availId := None;
      }
    }

    /** get_new_id. */
    method GetNewId() returns (id: Option<int>)
      requires Valid()
      modifies this
      ensures Valid() && Allowed(range, old(Abs()), Got(id), Abs())
      ensures id.Some? ==> (range.Contains(id.value) <==> range.NonEmpty())
    {
      if availId.None? {
        return None;
      }
      var newId := availId.value;
      resvedIds := resvedIds + {newId};
      GetNextAvailId();
      if maxResvedId.None? || newId > maxResvedId.value {
        maxResvedId := Some(newId);
      }
      wasFull := Full(range, resvedIds);
      return Some(newId);
    }

    /** release_id.  In Python 2 no number is smaller than None: an exhausted generator stays exhausted. */
    method ReleaseId(objId: int) returns (ok: bool)
      requires Valid()
      modifies this
      ensures Valid() && Allowed(range, old(Abs()), Released(objId, ok), Abs())
    {
      if objId !in resvedIds {
        return false;
      }
      resvedIds := resvedIds - {objId};
      if availId.Some? && objId < availId.value {
        availId := Some(objId);
      }
      if maxResvedId == Some(objId) {
        var id := objId;
        while id >= range.min
          invariant range.min - 1 <= id <= objId
          invariant forall x :: x in resvedIds ==> x <= id
          decreases id - range.min
        {
          if id in resvedIds {
            break;
          }
          id := id - 1;
        }
        maxResvedId := if id < range.min then None else Some(id);
      }
      return true;
    }

    /** is_id_used. */
    method IsIdUsed(objId: int) returns (used: bool)
      ensures Allowed(range, Abs(), Asked(objId, used), Abs())
    {
      return objId in resvedIds;
    }

    /** reserve_id. */
    method ReserveId(objId: int) returns (ok: bool)
      requires Valid()
      modifies this
      ensures Valid() && Allowed(range, old(Abs()), Reserved(objId, ok), Abs())
    {
      if objId < range.min || (range.max.Some? && objId > range.max.value) {
        return false;
      }
      if objId in resvedIds {
        return false;
      }
      resvedIds := resvedIds + {objId};
      if availId == Some(objId) {
        GetNextAvailId();
      }
      if maxResvedId.None? || objId > maxResvedId.value {
        maxResvedId := Some(objId);
      }
      wasFull := wasFull || Full(range, resvedIds);
      return true;
    }
  }

  // ---------------------------------------------------------------- whole runs

  /** A run of the specification: the states around each event, from the empty generator on. */
  ghost predicate IsTrace(range: Range, ss: seq<Ids>, es: seq<Event>) {
    && |ss| == |es| + 1
    && ss[0] == Ids({}, false)
    && forall i :: 0 <= i < |es| ==> Allowed(range, ss[i], es[i], ss[i + 1])
  }

  predicate Acquires(e: Event, id: int) { e == Got(Some(id)) || e == Reserved(id, true) }

  /** The ids a client holds after the first i events, counted from the results alone. */
  function Held(es: seq<Event>, i: nat): set<int>
    requires i <= |es|
  {
    if i == 0 then {}
    else
      match es[i - 1]
      case Got(Some(id)) => Held(es, i - 1) + {id}
      case Reserved(id, true) => Held(es, i - 1) + {id}
      case Released(id, true) => Held(es, i - 1) - {id}
      case _ => Held(es, i - 1)
  }

  lemma {:induction false} LiveIsHeld(range: Range, ss: seq<Ids>, es: seq<Event>, i: nat)
    requires IsTrace(range, ss, es) && i <= |es|
    ensures ss[i].live == Held(es, i)
  {
    if i > 0 {
      LiveIsHeld(range, ss, es, i - 1);
      assert Allowed(range, ss[i - 1], es[i - 1], ss[i]);
    }
  }

  /** is_id_used answers what the clients' own results say. */
  lemma AnswersAreRight(range: Range, ss: seq<Ids>, es: seq<Event>, i: nat)
    requires IsTrace(range, ss, es) && i < |es| && es[i].Asked?
    ensures es[i].used <==> es[i].id in Held(es, i)
  {
    LiveIsHeld(range, ss, es, i);
    assert Allowed(range, ss[i], es[i], ss[i + 1]);
  }

  /** release_id and reserve_id succeed exactly on what the clients' own results say is held, or free and in range. */
  lemma ResultsAreRight(range: Range, ss: seq<Ids>, es: seq<Event>, i: nat)
    requires IsTrace(range, ss, es) && i < |es|
    ensures es[i].Released? ==> (es[i].ok <==> es[i].id in Held(es, i))
    ensures es[i].Reserved? ==>
      (es[i].ok <==> && es[i].id !in Held(es, i) && range.min <= es[i].id
                     && (range.max.Some? ==> es[i].id <= range.max.value))
  {
    LiveIsHeld(range, ss, es, i);
    assert Allowed(range, ss[i], es[i], ss[i + 1]);
  }

  lemma {:induction false} HeldUntilReleased(es: seq<Event>, i: nat, j: nat, id: int)
    requires i < j <= |es| && Acquires(es[i], id)
    requires forall k :: i < k < j ==> es[k] != Released(id, true)
    ensures id in Held(es, j)
    decreases j
  {
    if j > i + 1 {
      HeldUntilReleased(es, i, j - 1, id);
    }
  }

  /** No id is handed out twice, or reserved while handed out, without a release in between. */
  lemma NoIdIssuedTwice(range: Range, ss: seq<Ids>, es: seq<Event>, i: nat, j: nat, id: int)
    requires IsTrace(range, ss, es) && i < j < |es|
    requires Acquires(es[i], id) && Acquires(es[j], id)
    ensures exists k :: i < k < j && es[k] == Released(id, true)
  {
    assert Allowed(range, ss[j], es[j], ss[j + 1]);
    LiveIsHeld(range, ss, es, j);
    if forall k :: i < k < j ==> es[k] != Released(id, true) {
      HeldUntilReleased(es, i, j, id);
    }
  }

  /** Every id handed out is the least one, from the minimum up, that no client holds. */
  lemma IssuesLeastFree(range: Range, ss: seq<Ids>, es: seq<Event>, i: nat)
    requires IsTrace(range, ss, es) && i < |es| && es[i].Got? && es[i].result.Some?
    ensures IsLeastFree(range, Held(es, i), es[i].result.value)
  {
    LiveIsHeld(range, ss, es, i);
    assert Allowed(range, ss[i], es[i], ss[i + 1]);
  }

  lemma {:induction false} WasFullMeaning(range: Range, ss: seq<Ids>, es: seq<Event>, i: nat)
    requires IsTrace(range, ss, es) && i <= |es| && range.NonEmpty()
    ensures ss[i].wasFull <==> exists k :: 0 <= k <= i && Full(range, Held(es, k))
  {
    LiveIsHeld(range, ss, es, i);
    if i > 0 {
      WasFullMeaning(range, ss, es, i - 1);
      LiveIsHeld(range, ss, es, i - 1);
      assert Allowed(range, ss[i - 1], es[i - 1], ss[i]);
      if es[i - 1].Released? && Full(range, Held(es, i)) {
        assert Held(es, i) <= Held(es, i - 1);
        assert Full(range, Held(es, i - 1));
      }
    } else {
      assert range.max.Some? ==> range.min !in Held(es, 0);
    }
  }

  /**
   When allocation fails: exactly when at some earlier moment of the run the whole range was held,
   whether or not ids have been released since.
   */
  lemma FailsIffEverFull(range: Range, ss: seq<Ids>, es: seq<Event>, i: nat)
    requires IsTrace(range, ss, es) && i < |es| && es[i].Got? && range.NonEmpty()
    ensures es[i].result.None? <==> exists k :: 0 <= k <= i && Full(range, Held(es, k))
  {
    WasFullMeaning(range, ss, es, i);
    assert Allowed(range, ss[i], es[i], ss[i + 1]);
  }

  /** So a free id may be refused: with ids 1 and 2, releasing 1 after both are out does not bring it back. */
  lemma FreeIdRefused()
    ensures var range := Range(1, Some(2));
            var es := [Got(Some(1)), Got(Some(2)), Released(1, true), Got(None)];
            && (exists ss :: IsTrace(range, ss, es))
            && range.Contains(1) && 1 !in Held(es, 3)
  {
    var range := Range(1, Some(2));
    var es := [Got(Some(1)), Got(Some(2)), Released(1, true), Got(None)];
    var ss := [Ids({}, false), Ids({1}, false), Ids({1, 2}, true), Ids({2}, true), Ids({2}, true)];
    assert {} + {1} == {1} && {1} + {2} == {1, 2} && {1, 2} - {1} == {2};
    assert !Full(range, {1}) by { assert 2 !in {1}; }
    assert Allowed(range, ss[0], es[0], ss[1]);
    assert Allowed(range, ss[1], es[1], ss[2]);
    assert IsTrace(range, ss, es);
    assert Held(es, 1) == {1} && Held(es, 2) == {1, 2} && Held(es, 3) == {2};
  }

  /** With a maximum below the default minimum 1 the first id handed out is out of range. */
  lemma EmptyRangeIssues(max: int)
    requires max < 1
    ensures var range := Range(1, Some(max));
            (exists ss :: IsTrace(range, ss, [Got(Some(1))])) && !range.Contains(1)
  {
    var range := Range(1, Some(max));
    var ss := [Ids({}, false), Ids({} + {1}, true)];
    assert Allowed(range, ss[0], Got(Some(1)), ss[1]);
    assert IsTrace(range, ss, [Got(Some(1))]);
  }
}
