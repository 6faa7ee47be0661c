/**
 The change-tracking interface cache of src/if/os_interface_cache.cpp and an observer that hears of
 an update only when if_info_update reports a change.
 */
module InterfaceCache {
  import opened Wrappers
  import opened Runs

  type Ifindex = int

  /** OS_IF_* change bits; the master bit pattern is 5, the admin and MAC bits together. */
  const ADM_CHANGE: bv8 := 1
  const MTU_CHANGE: bv8 := 2
  const PHY_CHANGE: bv8 := 4
  const MASTER_CHANGE: bv8 := 5
  const OPER_CHANGE: bv8 := 8
  const CHANGE_ALL: bv8 := 15

  /** The tracked fields of if_info_t; mac 0 is the zero MAC. */
  datatype Info = Info(admin: bool, oper: bool, mtu: int, master: Ifindex, mac: nat)

  function Bit(changed: bool, bit: bv8): bv8 { if changed then bit else 0 }

  /** The change mask of an update of a known interface; a zero MAC is stored but not reported. */
  function Mask(cached: Info, info: Info): bv8 {
    Bit(cached.admin != info.admin, ADM_CHANGE)
    | Bit(cached.oper != info.oper, OPER_CHANGE)
    | Bit(cached.mtu != info.mtu, MTU_CHANGE)
    | Bit(cached.master != info.master, MASTER_CHANGE)
    | Bit(info.mac != 0 && cached.mac != info.mac, PHY_CHANGE)
  }

  function Track(cache: map<Ifindex, Info>, ifx: Ifindex, info: Info): bv8 {
    if ifx in cache then Mask(cache[ifx], info) else CHANGE_ALL
  }

  /** The name index grows when an interface with a name is first seen; a later update leaves it alone. */
  function NameAdded(names: map<string, Ifindex>, cache: map<Ifindex, Info>, ifx: Ifindex, name: string)
    : map<string, Ifindex>
  {
    if ifx !in cache && name != "" then names[name := ifx] else names
  }

  /** The second half of if_info_update: a known entry is brought up to date field by field. */
  method Merge(cached: Info, info: Info) returns (it: Info, track: bv8)
    ensures it == info && track == Mask(cached, info)
  {
    it, track := cached, 0;
    if it.admin != info.admin {
      track := track | ADM_CHANGE;
      it := it.(admin := info.admin);
    }
    if it.oper != info.oper {
      track := track | OPER_CHANGE;
      it := it.(oper := info.oper);
    }
    if it.mtu != info.mtu {
      track := track | MTU_CHANGE;
      it := it.(mtu := info.mtu);
    }
    if it.master != info.master {
      track := track | MASTER_CHANGE;
      it := it.(master := info.master);
    }
    if info.mac == 0 {
      it := it.(mac := info.mac);
    } else if it.mac != info.mac {
      track := track | PHY_CHANGE;
      it := it.(mac := info.mac);
    }
  }

  /** The cache with its name index; `events` is the run that led to it. */
  class InterfaceTable {
    var ifMap: map<Ifindex, Info>
    var nameMap: map<string, Ifindex>
    ghost var events: seq<Event>

    ghost predicate Valid()
      reads this
    {
      ifMap == Cached(events) && nameMap == Named(events)
    }

    constructor ()
      ensures Valid() && events == []
    {
      ifMap, nameMap, events := map[], map[], [];
    }

    /** if_info_update. */
    method Update(ifx: Ifindex, name: string, info: Info) returns (track: bv8)
      requires Valid()
      modifies this
      ensures Valid() && events == old(events) + [Updated(ifx, name, info)]
      ensures ifMap == old(ifMap)[ifx := info]
      ensures track == Track(old(ifMap), ifx, info)
      ensures nameMap == NameAdded(old(nameMap), old(ifMap), ifx, name)
    {
      events := events + [Updated(ifx, name, info)];
      RunSnoc(old(events), Updated(ifx, name, info));
      if ifx !in ifMap {
        if name != "" {
          nameMap := nameMap[name := ifx];
        }
        ifMap := ifMap[ifx := info];
        return CHANGE_ALL;
      }
      var it;
      it, track := Merge(ifMap[ifx], info);
      ifMap := ifMap[ifx := it];
    }

    /** if_info_delete. */
    method Delete(ifx: Ifindex, name: string)
      requires Valid()
      modifies this
      ensures Valid() && events == old(events) + [Deleted(ifx, name)]
      ensures ifMap == old(ifMap) - {ifx}
      ensures nameMap == old(nameMap) - (if name == "" then {} else {name})
    {
      events := events + [Deleted(ifx, name)];
      RunSnoc(old(events), Deleted(ifx, name));
      ifMap := ifMap - {ifx};
      if name != "" {
        nameMap := nameMap - {name};
      }
    }

    /**
     get_ifindex_from_name.  While no event has broken the index, the answer is the cached interface
     first seen under that name, and there is one exactly when such an interface is cached.
     */
    method IndexFromName(name: string) returns (ifx: Option<Ifindex>)
      requires Valid()
      ensures ifx.Some? ==> name in Named(events) && Named(events)[name] == ifx.value
      ensures ifx.None? ==> name !in Named(events)
      ensures Stored(events).Keys == ifMap.Keys
      ensures NothingBreaks(events) && ifx.Some? ==>
                ifx.value in ifMap && Stored(events)[ifx.value] == name && name != ""
      ensures NothingBreaks(events) && ifx.None? && name != "" ==>
                forall i :: i in ifMap ==> Stored(events)[i] != name
    {
      StoredAreCached(events);
      if NothingBreaks(events) {
        IndexExactIffNothingBreaks(events);
        assert events[..|events|] == events && ExactAt(events, |events|);
      }
      return if name in nameMap then Some(nameMap[name]) else None;
    }
  }

  /**
   What the mask tells and what it hides: it is zero exactly when nothing but possibly a zero MAC was
   new, MTU and oper bits are exact, and the admin and MAC bits are also raised by a new master.
   */
  lemma MaskMeaning(cached: Info, info: Info)
    ensures Mask(cached, info) == 0 <==>
      cached.admin == info.admin && cached.oper == info.oper && cached.mtu == info.mtu
      && cached.master == info.master && (info.mac == 0 || cached.mac == info.mac)
    ensures Mask(cached, info) & 1 != 0 <==> cached.admin != info.admin || cached.master != info.master
    ensures Mask(cached, info) & 2 != 0 <==> cached.mtu != info.mtu
    ensures Mask(cached, info) & 4 != 0 <==>
      (info.mac != 0 && cached.mac != info.mac) || cached.master != info.master
    ensures Mask(cached, info) & 8 != 0 <==> cached.oper != info.oper
    ensures Mask(cached, info) < 16
  {
  }

  /** The first sight of an interface raises every bit. */
  lemma FirstSightMeaning(cache: map<Ifindex, Info>, ifx: Ifindex, info: Info)
    requires ifx !in cache
    ensures Track(cache, ifx, info) == 0xf
  {
  }

  /** A bare mask of 5 is ambiguous: a new master alone, or a new admin state and a new MAC. */
  lemma MasksCollide(cached: Info, master: Ifindex, mac: nat)
    requires master != cached.master && mac != cached.mac && mac != 0
    ensures Mask(cached, cached.(master := master)) == 5
    ensures Mask(cached, cached.(admin := !cached.admin, mac := mac)) == 5
  {
  }

  /** An update or a delete of one interface. */
  datatype Event = Updated(ifx: Ifindex, name: string, info: Info) | Deleted(ifx: Ifindex, name: string)

  /** The cache after a run. */
  function Cached(events: seq<Event>): map<Ifindex, Info> {
    if events == [] then map[]
    else
      var before := Cached(events[..|events| - 1]);
      match events[|events| - 1]
      case Updated(ifx, _, info) => before[ifx := info]
      case Deleted(ifx, _) => before - {ifx}
  }

  /** What one more event does to cache and name index. */
  lemma RunSnoc(events: seq<Event>, e: Event)
    ensures Cached(events + [e]) ==
      if e.Updated? then Cached(events)[e.ifx := e.info] else Cached(events) - {e.ifx}
    ensures Named(events + [e]) ==
      if e.Updated? then NameAdded(Named(events), Cached(events), e.ifx, e.name)
      else Named(events) - (if e.name == "" then {} else {e.name})
  {
    assert (events + [e])[..|events|] == events;
  }

  /** What an observer knows that hears only updates with a non-zero mask, and no deletes. */
  function Observed(events: seq<Event>): map<Ifindex, Info> {
    if events == [] then map[]
    else
      var front := events[..|events| - 1];
      match events[|events| - 1]
      case Updated(ifx, _, info) =>
        if Track(Cached(front), ifx, info) != 0 then Observed(front)[ifx := info] else Observed(front)
      case Deleted(_, _) => Observed(front)
  }

  ghost predicate Agree(cached: Info, observed: Info) {
    && observed.(mac := cached.mac) == cached
    && (cached.mac != 0 ==> observed.mac == cached.mac)
  }

  /**
   Over every run the observer agrees with the cache on admin, oper, MTU and master of every cached
   interface, and on its MAC unless the cached MAC is zero.
   */
  lemma {:induction false} ObserverAgrees(events: seq<Event>, ifx: Ifindex)
    requires ifx in Cached(events)
    ensures ifx in Observed(events) && Agree(Cached(events)[ifx], Observed(events)[ifx])
  {
    if events != [] {
      var front := events[..|events| - 1];
      if ifx in Cached(front) {
        ObserverAgrees(front, ifx);
      }
      match events[|events| - 1]
      case Updated(i, _, info) =>
        if i == ifx && ifx in Cached(front) {
          MaskMeaning(Cached(front)[ifx], info);
        }
      case Deleted(_, _) =>
    }
  }

  /**
   After the run the observer's MAC of a cached interface is not the cached one: the latest update
   that set it to zero was not reported, and nothing reported has come since.
   */
  predicate MacHidden(events: seq<Event>, ifx: Ifindex) {
    events != [] &&
    var front := events[..|events| - 1];
    match events[|events| - 1]
    case Updated(i, _, info) =>
      if i != ifx then MacHidden(front, ifx)
      else
        && ifx in Cached(front) && Mask(Cached(front)[ifx], info) == 0 && info.mac == 0
        && (Cached(front)[ifx].mac != 0 || MacHidden(front, ifx))
    case Deleted(i, _) => i != ifx && MacHidden(front, ifx)
  }

  /** The exception is exact: over every run the MACs differ if and only if a zero MAC was hidden. */
  lemma {:induction false} MacDiffersIffHidden(events: seq<Event>, ifx: Ifindex)
    requires ifx in Cached(events)
    ensures ifx in Observed(events)
    ensures Observed(events)[ifx].mac != Cached(events)[ifx].mac <==> MacHidden(events, ifx)
  {
    ObserverAgrees(events, ifx);
    var front := events[..|events| - 1];
    if ifx in Cached(front) {
      MacDiffersIffHidden(front, ifx);
      ObserverAgrees(front, ifx);
      var e := events[|events| - 1];
      if e.Updated? && e.ifx == ifx {
        MaskMeaning(Cached(front)[ifx], e.info);
      }
    }
  }

  /** The name index after a run. */
  function Named(events: seq<Event>): map<string, Ifindex> {
    if events == [] then map[]
    else
      var front := events[..|events| - 1];
      match events[|events| - 1]
      case Updated(ifx, name, _) => NameAdded(Named(front), Cached(front), ifx, name)
      case Deleted(_, name) => Named(front) - (if name == "" then {} else {name})
  }

  /** The names under which cached interfaces were first seen, after one more event. */
  function StoredAfter(stored: map<Ifindex, string>, e: Event): map<Ifindex, string> {
    match e
    case Updated(ifx, name, _) => if ifx in stored then stored else stored[ifx := name]
    case Deleted(ifx, _) => stored - {ifx}
  }

  /** The name under which each cached interface was first seen; a later update does not change it. */
  function Stored(events: seq<Event>): map<Ifindex, string> {
    if events == [] then map[] else StoredAfter(Stored(events[..|events| - 1]), events[|events| - 1])
  }

  lemma {:induction false} StoredAreCached(events: seq<Event>)
    ensures Stored(events).Keys == Cached(events).Keys
  {
    if events != [] {
      StoredAreCached(events[..|events| - 1]);
    }
  }

  /** The index finds exactly the interfaces with a stored name. */
  predicate IsIndex(names: map<string, Ifindex>, stored: map<Ifindex, string>) {
    && (forall name :: name in names ==> name != "" && names[name] in stored && stored[names[name]] == name)
    && (forall ifx :: ifx in stored && stored[ifx] != "" ==> stored[ifx] in names && names[stored[ifx]] == ifx)
  }

  /**
   The event spoils the index: an interface is first seen under a name that another one has, or one
   is deleted under a name that is not its stored one and leaves its own entry or takes another's.
   */
  predicate Spoils(names: map<string, Ifindex>, stored: map<Ifindex, string>, e: Event) {
    match e
    case Updated(ifx, name, _) => ifx !in stored && name in names
    case Deleted(ifx, name) => if name in names then names[name] != ifx else ifx in stored && stored[ifx] != ""
  }

  /** After the first i events of a run the index is exact. */
  predicate ExactAt(events: seq<Event>, i: nat)
    requires i <= |events|
  {
    IsIndex(Named(events[..i]), Stored(events[..i]))
  }

  predicate BreaksAt(events: seq<Event>, i: nat)
    requires i < |events|
  {
    Spoils(Named(events[..i]), Stored(events[..i]), events[i])
  }

  predicate NothingBreaks(events: seq<Event>) { forall i :: 0 <= i < |events| ==> !BreaksAt(events, i) }

  lemma UpdateSpoils(names: map<string, Ifindex>, cache: map<Ifindex, Info>, stored: map<Ifindex, string>, e: Event)
    requires e.Updated? && IsIndex(names, stored) && stored.Keys == cache.Keys
    ensures IsIndex(NameAdded(names, cache, e.ifx, e.name), StoredAfter(stored, e)) <==> !Spoils(names, stored, e)
  {
    assert e.ifx in stored <==> e.ifx in cache;
    if Spoils(names, stored, e) {
      var other := names[e.name];
      assert StoredAfter(stored, e)[other] == e.name;
    }
  }

  lemma DeleteSpoils(names: map<string, Ifindex>, stored: map<Ifindex, string>, e: Event)
    requires e.Deleted? && IsIndex(names, stored)
    ensures IsIndex(names - (if e.name == "" then {} else {e.name}), StoredAfter(stored, e))
       <==> !Spoils(names, stored, e)
  {
    var names', stored' := names - (if e.name == "" then {} else {e.name}), StoredAfter(stored, e);
    if Spoils(names, stored, e) {
      if e.name in names {
        assert stored'[names[e.name]] == e.name;
      } else {
        assert stored[e.ifx] in names';
      }
    }
  }

  lemma ExactStep(events: seq<Event>, i: nat)
    requires i < |events| && ExactAt(events, i)
    ensures ExactAt(events, i + 1) <==> !BreaksAt(events, i)
  {
    assert events[..i + 1][..i] == events[..i];
    StoredAreCached(events[..i]);
    if events[i].Updated? {
      UpdateSpoils(Named(events[..i]), Cached(events[..i]), Stored(events[..i]), events[i]);
    } else {
      DeleteSpoils(Named(events[..i]), Stored(events[..i]), events[i]);
    }
  }

  /** Over every run the name index is exact at all times if and only if no event spoils it. */
  lemma IndexExactIffNothingBreaks(events: seq<Event>)
    ensures (forall i :: 0 <= i <= |events| ==> ExactAt(events, i)) <==> NothingBreaks(events)
  {
    var n := |events|;
    var exact := seq(n + 1, i requires 0 <= i <= n => ExactAt(events, i));
    var breaks := seq(n, i requires 0 <= i < n => BreaksAt(events, i));
    assert events[..0] == [];
    forall i | 0 <= i < n && exact[i] ensures exact[i + 1] <==> !breaks[i] {
      ExactStep(events, i);
    }
    HoldsUntilBroken(exact, breaks);
    assert forall i :: 0 <= i <= n ==> exact[i] == ExactAt(events, i);
    assert forall i :: 0 <= i < n ==> breaks[i] == BreaksAt(events, i);
  }

  /** Every event carries its interface's one name, and named interfaces have different names. */
  ghost predicate NamesFixed(events: seq<Event>, nameOf: Ifindex -> string) {
    && (forall i, j :: nameOf(i) == nameOf(j) && nameOf(i) != "" ==> i == j)
    && (forall k :: 0 <= k < |events| ==> events[k].name == nameOf(events[k].ifx))
  }

  /** After n events the stored names are the interfaces' own. */
  ghost predicate OwnNamesStored(events: seq<Event>, nameOf: Ifindex -> string, n: nat)
    requires n <= |events|
  {
    forall ifx :: ifx in Stored(events[..n]) ==> Stored(events[..n])[ifx] == nameOf(ifx)
  }

  lemma FixedNamesStep(events: seq<Event>, nameOf: Ifindex -> string, n: nat)
    requires NamesFixed(events, nameOf) && n < |events| && ExactAt(events, n) && OwnNamesStored(events, nameOf, n)
    ensures !BreaksAt(events, n) && ExactAt(events, n + 1) && OwnNamesStored(events, nameOf, n + 1)
  {
    assert events[..n + 1][..n] == events[..n] && events[n].name == nameOf(events[n].ifx);
    ExactStep(events, n);
  }

  lemma {:induction false} FixedNamesAt(events: seq<Event>, nameOf: Ifindex -> string, n: nat)
    requires NamesFixed(events, nameOf) && n <= |events|
    ensures ExactAt(events, n) && OwnNamesStored(events, nameOf, n)
  {
    if n == 0 {
      assert events[..0] == [];
    } else {
      FixedNamesAt(events, nameOf, n - 1);
      FixedNamesStep(events, nameOf, n - 1);
    }
  }

  /** On runs where each interface keeps one name of its own no event spoils the index, and those names are stored. */
  lemma FixedNamesSpoilNothing(events: seq<Event>, nameOf: Ifindex -> string)
    requires NamesFixed(events, nameOf)
    ensures NothingBreaks(events)
    ensures forall n :: 0 <= n <= |events| ==> ExactAt(events, n) && OwnNamesStored(events, nameOf, n)
  {
    forall n | 0 <= n <= |events| ensures ExactAt(events, n) && OwnNamesStored(events, nameOf, n) {
      FixedNamesAt(events, nameOf, n);
    }
    forall n | 0 <= n < |events| ensures !BreaksAt(events, n) {
      FixedNamesAt(events, nameOf, n);
      FixedNamesStep(events, nameOf, n);
    }
  }

  /** An interface that is renamed and deleted under its new name is still found under the old one. */
  lemma RenamedInterfaceStays(ifx: Ifindex, first: string, second: string, a: Info)
    requires first != second && first != ""
    ensures var events := [Updated(ifx, first, a), Updated(ifx, second, a), Deleted(ifx, second)];
            && ifx !in Cached(events)
            && first in Named(events) && Named(events)[first] == ifx
            && BreaksAt(events, 2)
  {
    var e0, e1, e2 := Updated(ifx, first, a), Updated(ifx, second, a), Deleted(ifx, second);
    assert [e0][..0] == [] && [e0, e1][..1] == [e0] && [e0, e1, e2][..2] == [e0, e1];
    assert Cached([e0]) == map[ifx := a] && Named([e0]) == map[first := ifx] && Stored([e0]) == map[ifx := first];
    assert Cached([e0, e1]) == map[ifx := a] && Named([e0, e1]) == map[first := ifx];
    assert Stored([e0, e1]) == map[ifx := first];
  }
}
