/**
 Bridge membership and the port-to-VLAN relation of src/if/os_interface_bridge.cpp over the member
 sets of if_bridge.
 */
module BridgeMembers {
  import opened Wrappers
  import opened Members
  import opened Runs

  /** tag_map_, untag_map_ and mbr_intf_to_vlan_map. */
  datatype BridgeDb = BridgeDb(tag: MemberMap, untag: MemberMap, vlans: MemberMap)

  /**
   What the handler looks at in one interface event: bridge type, IFLA_MASTER, delete operation, type
   VLAN sub-interface or VXLAN, kind tun or type LAG, kind present, IFF_SLAVE, the kernel's own answer
   about the membership, and the port the sub-interface's name resolves to.
   */
  datatype Details = Details(
    ifindex: Ifindex,
    isBridge: bool,
    master: Option<Ifindex>,
    deleting: bool,
    tagged: bool,
    tunOrLag: bool,
    hasKind: bool,
    slave: bool,
    inKernel: bool,
    parent: Option<Ifindex>
  )

  /** os_interface_update_vlan_info: the port of the relation, if the name resolves. */
  function PortOf(d: Details, tag: bool): Option<Ifindex> { if tag then d.parent else Some(d.ifindex) }

  /** Adding to the relation. */
  function VlanAdded(vlans: MemberMap, port: Option<Ifindex>, vlan: Ifindex): MemberMap {
    if port.None? then vlans else With(vlans, port.value, vlan)
  }

  /** Removing from the relation; a port without VLANs leaves the map. */
  function VlanRemoved(vlans: MemberMap, port: Option<Ifindex>, vlan: Ifindex): MemberMap {
    if port.None? || port.value !in vlans then vlans
    else if vlans[port.value] - {vlan} == {} then vlans - {port.value}
    else Without(vlans, port.value, vlan)
  }

  /** The event makes the handler try to add a member, tagged or not. */
  predicate Adds(d: Details) {
    !d.isBridge && d.master.Some? && !d.deleting && d.hasKind && !d.slave && (d.tunOrLag || d.tagged)
  }

  /** A tun or LAG is added untagged; the type is then rewritten and the tagged branch is not taken. */
  predicate AddsTagged(d: Details) { !d.tunOrLag }

  /** The member is new to the bridge and the kernel confirms it. */
  predicate Admits(db: BridgeDb, d: Details)
    requires d.master.Some?
  {
    d.inKernel && d.ifindex !in Of(db.tag, d.master.value) && d.ifindex !in Of(db.untag, d.master.value)
  }

  /** What the handler turns the event into: nothing new, a deleted L2 port, or a created one. */
  datatype Rewrite = Untouched | PortDelete | PortCreate

  /** What one event leaves. */
  function After(db: BridgeDb, d: Details): BridgeDb {
    if !d.isBridge && d.master.Some? && d.deleting then
      var vlans := VlanRemoved(db.vlans, PortOf(d, d.tagged), d.master.value);
      if d.tagged then BridgeDb(Without(db.tag, d.master.value, d.ifindex), db.untag, vlans)
      else BridgeDb(db.tag, Without(db.untag, d.master.value, d.ifindex), vlans)
    else if Adds(d) && Admits(db, d) then
      var vlans := VlanAdded(db.vlans, PortOf(d, AddsTagged(d)), d.master.value);
      if AddsTagged(d) then BridgeDb(With(db.tag, d.master.value, d.ifindex), db.untag, vlans)
      else BridgeDb(db.tag, With(db.untag, d.master.value, d.ifindex), vlans)
    else db
  }

  /** if_bridge with the relation beside it. */
  class Bridges {
    const tagMap: MemberData
    const untagMap: MemberData
    var vlans: MemberMap

    ghost predicate Valid() { tagMap != untagMap }

    ghost function View(): BridgeDb
      reads this, tagMap, untagMap
    {
      BridgeDb(tagMap.mbrMap, untagMap.mbrMap, vlans)
    }

    constructor ()
      ensures Valid() && fresh(tagMap) && fresh(untagMap) && View() == BridgeDb(map[], map[], map[])
    {
      tagMap := new MemberData();
      untagMap := new MemberData();
      vlans := map[];
    }

    /** nas_os_is_port_part_of_vlan. */
    predicate IsPortPartOfVlan(vlan: Ifindex, port: Ifindex)
      reads this
    {
      port in vlans && vlan in vlans[port]
    }

    /** os_interface_update_vlan_info. */
    method UpdateVlanInfo(d: Details, vlan: Ifindex, tag: bool, add: bool) returns (ok: bool)
      modifies this
      ensures vlans == if add then VlanAdded(old(vlans), PortOf(d, tag), vlan)
                       else VlanRemoved(old(vlans), PortOf(d, tag), vlan)
      ensures ok <==> PortOf(d, tag).Some?
    {
      var mbr := d.ifindex;
      if tag {
        if d.parent == None {
          return false;
        }
        mbr := d.parent.value;
      }
      if add {
        assert {} + {vlan} == {vlan};
        vlans := if mbr !in vlans then vlans[mbr := {vlan}] else vlans[mbr := vlans[mbr] + {vlan}];
      } else if mbr in vlans {
        vlans := vlans[mbr := vlans[mbr] - {vlan}];
        if vlans[mbr] == {} {
          vlans := vlans - {mbr};
        }
        assert vlans == VlanRemoved(old(vlans), Some(mbr), vlan);
      }
      return true;
    }

    /** os_interface_vlan_bridge_handler: false for a duplicate or a membership the kernel denies. */
    method AddMember(d: Details, master: Ifindex, tag: bool) returns (ok: bool)
      requires Valid()
      modifies this, tagMap, untagMap
      ensures ok <==> old(!tagMap.Present(master, d.ifindex) && !untagMap.Present(master, d.ifindex)) && d.inKernel
      ensures View() ==
        if !ok then old(View())
        else BridgeDb(if tag then With(old(View()).tag, master, d.ifindex) else old(View()).tag,
                      if tag then old(View()).untag else With(old(View()).untag, master, d.ifindex),
                      VlanAdded(old(View()).vlans, PortOf(d, tag), master))
    {
      if tagMap.Present(master, d.ifindex) || untagMap.Present(master, d.ifindex) {
        return false;
      }
      if !d.inKernel {
        return false;
      }
      var resolved := UpdateVlanInfo(d, master, tag, true);  // the result is not looked at
      if !tag {
        untagMap.Add(master, d.ifindex);
      } else {
        tagMap.Add(master, d.ifindex);
      }
      return true;
    }

    /** os_interface_bridge_attrs_handler. */
    method Handle(d: Details) returns (keepGoing: bool, rewrite: Rewrite)
      requires Valid()
      modifies this, tagMap, untagMap
      ensures View() == After(old(View()), d)
      ensures !keepGoing <==>
        && !d.isBridge && d.master.Some? && !d.deleting && d.hasKind && !d.slave && d.tagged && !d.tunOrLag
        && (!d.inKernel || d.ifindex in Of(old(View()).tag, d.master.value)
                        || d.ifindex in Of(old(View()).untag, d.master.value))
      ensures rewrite.PortDelete? <==> !d.isBridge && d.master.Some? && d.deleting
      ensures rewrite.PortCreate? <==> Adds(d) && (AddsTagged(d) || Admits(old(View()), d))
    {
      if d.isBridge || d.master == None {
        return true, Untouched;
      }
      var master := d.master.value;
      if d.deleting {
        var found;
        if d.tagged {
          found := tagMap.Del(master, d.ifindex);
          found := UpdateVlanInfo(d, master, true, false);
        } else {
          found := untagMap.Del(master, d.ifindex);
          found := UpdateVlanInfo(d, master, false, false);
        }
        return true, PortDelete;
      }
      if !d.hasKind || d.slave {
        return true, Untouched;
      }
      if d.tunOrLag {
        var added := AddMember(d, master, false);
        return true, if added then PortCreate else Untouched;
      }
      if d.tagged {
        keepGoing := AddMember(d, master, true);
        return keepGoing, PortCreate;
      }
      return true, Untouched;
    }
  }

  // ---------------------------------------------------------------- runs

  function Run(events: seq<Details>): BridgeDb {
    if events == [] then BridgeDb(map[], map[], map[])
    else After(Run(events[..|events| - 1]), events[|events| - 1])
  }

  /** No interface is both tagged and untagged in one bridge. */
  ghost predicate Disjoint(db: BridgeDb) {
    forall bridge :: Of(db.tag, bridge) !! Of(db.untag, bridge)
  }

  /** No port is stored with an empty VLAN set. */
  ghost predicate NoEmptyVlans(db: BridgeDb) {
    forall port :: port in db.vlans ==> db.vlans[port] != {}
  }

  /** A member that justifies the pair: the port itself untagged, or a tagged member on top of it. */
  ghost predicate Witnessed(db: BridgeDb, port: Ifindex, vlan: Ifindex, parentOf: Ifindex -> Ifindex) {
    || port in Of(db.untag, vlan)
    || exists m :: m in Of(db.tag, vlan) && parentOf(m) == port
  }

  ghost predicate AllWitnessed(db: BridgeDb, parentOf: Ifindex -> Ifindex) {
    forall port, vlan :: port in db.vlans && vlan in db.vlans[port] ==> Witnessed(db, port, vlan, parentOf)
  }

  /** The name lookup may fail, but when it answers it names the interface's one parent. */
  predicate LookupRight(d: Details, parentOf: Ifindex -> Ifindex) {
    d.parent.Some? ==> d.parent.value == parentOf(d.ifindex)
  }

  /** It also answers whenever a tagged member is deleted. */
  predicate LookupWorks(d: Details, parentOf: Ifindex -> Ifindex) {
    LookupRight(d, parentOf) && (d.deleting && d.tagged ==> d.parent.Some?)
  }

  /** The event is a confirmed addition of a member the bridge does not have, said by the event's own fields. */
  predicate IsAddition(db: BridgeDb, d: Details, bridge: Ifindex) {
    && !d.isBridge && d.master == Some(bridge) && !d.deleting && d.hasKind && !d.slave && d.inKernel
    && d.ifindex !in Of(db.tag, bridge) && d.ifindex !in Of(db.untag, bridge)
  }

  /** The event is a deletion from the bridge. */
  predicate IsDeletion(d: Details, bridge: Ifindex) { !d.isBridge && d.master == Some(bridge) && d.deleting }

  /**
   Who is a member afterwards.  A slave of a bond and an interface without a kind never join, a tun or
   LAG joins untagged, a VLAN sub-interface or VXLAN tagged; only a deletion takes a member away.
   */
  lemma MembersAfter(db: BridgeDb, d: Details, bridge: Ifindex, m: Ifindex)
    ensures m in Of(After(db, d).untag, bridge) <==>
      || (m == d.ifindex && IsAddition(db, d, bridge) && d.tunOrLag)
      || (m in Of(db.untag, bridge) && !(m == d.ifindex && IsDeletion(d, bridge) && !d.tagged))
    ensures m in Of(After(db, d).tag, bridge) <==>
      || (m == d.ifindex && IsAddition(db, d, bridge) && d.tagged && !d.tunOrLag)
      || (m in Of(db.tag, bridge) && !(m == d.ifindex && IsDeletion(d, bridge) && d.tagged))
  {
  }

  lemma StepKeepsDisjoint(db: BridgeDb, d: Details)
    requires Disjoint(db) && NoEmptyVlans(db)
    ensures Disjoint(After(db, d)) && NoEmptyVlans(After(db, d))
  {
  }

  /** Over every run, whatever the events and lookups: the two member sets of a bridge stay disjoint. */
  lemma {:induction false} RunsKeepDisjoint(events: seq<Details>)
    ensures Disjoint(Run(events)) && NoEmptyVlans(Run(events))
  {
    if events != [] {
      RunsKeepDisjoint(events[..|events| - 1]);
      StepKeepsDisjoint(Run(events[..|events| - 1]), events[|events| - 1]);
    }
  }

  lemma StepKeepsWitnesses(db: BridgeDb, d: Details, parentOf: Ifindex -> Ifindex)
    requires AllWitnessed(db, parentOf) && LookupWorks(d, parentOf)
    ensures AllWitnessed(After(db, d), parentOf)
  {
    var v := After(db, d);
    forall port, vlan | port in v.vlans && vlan in v.vlans[port] ensures Witnessed(v, port, vlan, parentOf) {
      if port in db.vlans && vlan in db.vlans[port] {
        assert Witnessed(db, port, vlan, parentOf);
        if port !in Of(db.untag, vlan) {
          var m :| m in Of(db.tag, vlan) && parentOf(m) == port;
          assert m in Of(v.tag, vlan);
        }
      } else {
        assert d.master == Some(vlan);
        assert !AddsTagged(d) || (d.ifindex in Of(v.tag, vlan) && parentOf(d.ifindex) == port);
      }
    }
  }

  /** Over every run with working lookups, a port is reported in a VLAN only with a member to show for it. */
  lemma {:induction false} RunsKeepWitnesses(events: seq<Details>, parentOf: Ifindex -> Ifindex)
    requires forall i :: 0 <= i < |events| ==> LookupWorks(events[i], parentOf)
    ensures AllWitnessed(Run(events), parentOf)
  {
    if events != [] {
      RunsKeepWitnesses(events[..|events| - 1], parentOf);
      StepKeepsWitnesses(Run(events[..|events| - 1]), events[|events| - 1], parentOf);
    }
  }

  /** The event deletes a member. */
  predicate Deletes(d: Details) { !d.isBridge && d.master.Some? && d.deleting }

  /** The port whose pair with the bridge the event is about. */
  function PairPort(d: Details, tag: bool, parentOf: Ifindex -> Ifindex): Ifindex {
    if tag then parentOf(d.ifindex) else d.ifindex
  }

  /** Before a deletion: another member of the bridge has the same port. */
  ghost predicate OtherShares(db: BridgeDb, d: Details, parentOf: Ifindex -> Ifindex)
    requires d.master.Some?
  {
    var port, vlan := PairPort(d, d.tagged, parentOf), d.master.value;
    || (d.tagged && port in Of(db.untag, vlan))
    || exists m :: m in Of(db.tag, vlan) && parentOf(m) == port && !(d.tagged && m == d.ifindex)
  }

  /** A tagged member is deleted and its name does not resolve: its pair, shared with nobody, stays behind. */
  ghost predicate Strands(db: BridgeDb, d: Details, parentOf: Ifindex -> Ifindex) {
    && Deletes(d) && d.tagged && d.parent.None?
    && d.ifindex in Of(db.tag, d.master.value)
    && d.master.value in Of(db.vlans, parentOf(d.ifindex))
    && !OtherShares(db, d, parentOf)
  }

  /** A deletion removes a pair that another member still needs. */
  ghost predicate TakesSharedPair(db: BridgeDb, d: Details, parentOf: Ifindex -> Ifindex) {
    Deletes(d) && PortOf(d, d.tagged).Some? && OtherShares(db, d, parentOf)
  }

  /** A tagged member is added and its name does not resolve: its pair is not entered. */
  predicate MissesPair(db: BridgeDb, d: Details, parentOf: Ifindex -> Ifindex) {
    && Adds(d) && AddsTagged(d) && Admits(db, d) && d.parent.None?
    && d.master.value !in Of(db.vlans, parentOf(d.ifindex))
  }

  lemma LookedUpStepKeepsWitnesses(db: BridgeDb, d: Details, parentOf: Ifindex -> Ifindex)
    requires AllWitnessed(db, parentOf) && LookupRight(d, parentOf) && !Strands(db, d, parentOf)
    ensures AllWitnessed(After(db, d), parentOf)
  {
    if LookupWorks(d, parentOf) {
      StepKeepsWitnesses(db, d, parentOf);
    } else {
      var v := After(db, d);
      forall port, vlan | port in v.vlans && vlan in v.vlans[port] ensures Witnessed(v, port, vlan, parentOf) {
        assert Witnessed(db, port, vlan, parentOf);
      }
    }
  }

  /**
   Each reported pair keeps a member to show for it exactly when the step is not the deletion of its
   last tagged member with a name that does not resolve.
   */
  lemma WitnessedIffNotStranded(db: BridgeDb, d: Details, parentOf: Ifindex -> Ifindex)
    requires AllWitnessed(db, parentOf) && LookupRight(d, parentOf)
    ensures AllWitnessed(After(db, d), parentOf) <==> !Strands(db, d, parentOf)
  {
    if Strands(db, d, parentOf) {
      var port, vlan := parentOf(d.ifindex), d.master.value;
      assert !Witnessed(After(db, d), port, vlan, parentOf);
      assert port in After(db, d).vlans && vlan in After(db, d).vlans[port];
    } else {
      LookedUpStepKeepsWitnesses(db, d, parentOf);
    }
  }

  /** Every member's port is reported in the bridge's VLAN: the converse of AllWitnessed. */
  ghost predicate AllReported(db: BridgeDb, parentOf: Ifindex -> Ifindex) {
    forall port, vlan :: Witnessed(db, port, vlan, parentOf) ==> vlan in Of(db.vlans, port)
  }

  lemma AddsKeepReported(db: BridgeDb, d: Details, parentOf: Ifindex -> Ifindex)
    requires AllReported(db, parentOf) && LookupRight(d, parentOf) && !Deletes(d)
    ensures AllReported(After(db, d), parentOf) <==> !MissesPair(db, d, parentOf)
  {
    var v := After(db, d);
    if MissesPair(db, d, parentOf) {
      assert d.ifindex in Of(v.tag, d.master.value);
      assert Witnessed(v, parentOf(d.ifindex), d.master.value, parentOf);
    } else {
      forall port, vlan | Witnessed(v, port, vlan, parentOf) ensures vlan in Of(v.vlans, port) {
        if v != db && !(vlan == d.master.value && port == PairPort(d, AddsTagged(d), parentOf)) {
          assert Witnessed(db, port, vlan, parentOf);
        }
      }
    }
  }

  /** A pair another member shares is still witnessed once the deleted member is gone, and only then. */
  lemma SharedIffStillWitnessed(db: BridgeDb, d: Details, parentOf: Ifindex -> Ifindex)
    requires Deletes(d)
    ensures Witnessed(After(db, d), PairPort(d, d.tagged, parentOf), d.master.value, parentOf)
       <==> OtherShares(db, d, parentOf)
  {
    var v, vlan := After(db, d), d.master.value;
    assert forall m :: m in Of(v.tag, vlan) <==> m in Of(db.tag, vlan) && !(d.tagged && m == d.ifindex);
  }

  lemma DeletesKeepReported(db: BridgeDb, d: Details, parentOf: Ifindex -> Ifindex)
    requires AllReported(db, parentOf) && LookupRight(d, parentOf) && Deletes(d)
    ensures AllReported(After(db, d), parentOf) <==> !TakesSharedPair(db, d, parentOf)
  {
    var v := After(db, d);
    SharedIffStillWitnessed(db, d, parentOf);
    if !TakesSharedPair(db, d, parentOf) {
      forall port, vlan | Witnessed(v, port, vlan, parentOf) ensures vlan in Of(v.vlans, port) {
        assert Witnessed(db, port, vlan, parentOf);
      }
    }
  }

  /**
   Every member's port stays reported exactly when the step neither deletes a member that shares its
   port and bridge with another nor adds one whose name does not resolve.
   */
  lemma ReportedIffPairNotShared(db: BridgeDb, d: Details, parentOf: Ifindex -> Ifindex)
    requires AllReported(db, parentOf) && LookupRight(d, parentOf)
    ensures AllReported(After(db, d), parentOf) <==>
      !TakesSharedPair(db, d, parentOf) && !MissesPair(db, d, parentOf)
  {
    if Deletes(d) {
      DeletesKeepReported(db, d, parentOf);
    } else {
      AddsKeepReported(db, d, parentOf);
    }
  }

  /**
   A stranded pair on a concrete run: the sub-interface of a port joins a bridge and leaves it with a
   name that no longer resolves; the port is still reported and no member is left.
   */
  lemma UnresolvedDeleteStrands(port: Ifindex, sub: Ifindex, bridge: Ifindex, parentOf: Ifindex -> Ifindex)
    requires parentOf(sub) == port
    ensures var tagged := Details(sub, false, Some(bridge), false, true, false, true, false, true, Some(port));
            var db := Run([tagged, tagged.(deleting := true, parent := None)]);
            bridge in Of(db.vlans, port) && !Witnessed(db, port, bridge, parentOf)
  {
    var tagged := Details(sub, false, Some(bridge), false, true, false, true, false, true, Some(port));
    assert [tagged][..0] == [] && [tagged, tagged.(deleting := true, parent := None)][..1] == [tagged];
    assert Run([tagged]) == BridgeDb(map[bridge := {} + {sub}], map[], map[port := {} + {bridge}]);
  }

  // ---------------------------------------------------------------- the relation over runs

  /** The relation holds exactly the pairs that members justify. */
  ghost predicate Exact(db: BridgeDb, parentOf: Ifindex -> Ifindex) {
    AllWitnessed(db, parentOf) && AllReported(db, parentOf)
  }

  /** One of the three kinds of event that put relation and members apart. */
  ghost predicate Breaks(db: BridgeDb, d: Details, parentOf: Ifindex -> Ifindex) {
    Strands(db, d, parentOf) || TakesSharedPair(db, d, parentOf) || MissesPair(db, d, parentOf)
  }

  /** Before event i of a run the relation is exact. */
  ghost predicate ExactAt(events: seq<Details>, i: nat, parentOf: Ifindex -> Ifindex)
    requires i <= |events|
  {
    Exact(Run(events[..i]), parentOf)
  }

  ghost predicate BreaksAt(events: seq<Details>, i: nat, parentOf: Ifindex -> Ifindex)
    requires i < |events|
  {
    Breaks(Run(events[..i]), events[i], parentOf)
  }

  lemma ExactAtStart(events: seq<Details>, parentOf: Ifindex -> Ifindex)
    ensures ExactAt(events, 0, parentOf)
  {
    assert events[..0] == [];
  }

  lemma ExactStep(events: seq<Details>, i: nat, parentOf: Ifindex -> Ifindex)
    requires i < |events| && LookupRight(events[i], parentOf) && ExactAt(events, i, parentOf)
    ensures ExactAt(events, i + 1, parentOf) <==> !BreaksAt(events, i, parentOf)
  {
    assert events[..i + 1][..i] == events[..i];
    WitnessedIffNotStranded(Run(events[..i]), events[i], parentOf);
    ReportedIffPairNotShared(Run(events[..i]), events[i], parentOf);
  }

  /**
   Over runs whose lookups are right when they answer, the relation is exact at every moment up to
   n if and only if none of the first n events breaks it.
   */
  lemma RunsExactIffNothingBreaks(events: seq<Details>, n: nat, parentOf: Ifindex -> Ifindex)
    requires n <= |events| && forall i :: 0 <= i < n ==> LookupRight(events[i], parentOf)
    ensures (forall i :: 0 <= i <= n ==> ExactAt(events, i, parentOf))
       <==> (forall i :: 0 <= i < n ==> !BreaksAt(events, i, parentOf))
  {
    var exact := seq(n + 1, i requires 0 <= i <= n => ExactAt(events, i, parentOf));
    var breaks := seq(n, i requires 0 <= i < n => BreaksAt(events, i, parentOf));
    ExactAtStart(events, parentOf);
    forall i | 0 <= i < n && exact[i] ensures exact[i + 1] <==> !breaks[i] {
      ExactStep(events, i, parentOf);
    }
    HoldsUntilBroken(exact, breaks);
    assert forall i :: 0 <= i <= n ==> exact[i] == ExactAt(events, i, parentOf);
    assert forall i :: 0 <= i < n ==> breaks[i] == BreaksAt(events, i, parentOf);
  }

  /** On such a run nas_os_is_port_part_of_vlan answers true exactly when a member is there to show for it. */
  lemma QueryIsExact(bridges: Bridges, events: seq<Details>, parentOf: Ifindex -> Ifindex,
                     vlan: Ifindex, port: Ifindex)
    requires bridges.View() == Run(events)
    requires forall i :: 0 <= i < |events| ==> LookupRight(events[i], parentOf) && !BreaksAt(events, i, parentOf)
    ensures bridges.IsPortPartOfVlan(vlan, port) <==> Witnessed(bridges.View(), port, vlan, parentOf)
  {
    RunsExactIffNothingBreaks(events, |events|, parentOf);
    assert events[..|events|] == events && ExactAt(events, |events|, parentOf);
  }

  /**
   A shared pair on a concrete run: a port that is an untagged member and carries a tagged one in the same bridge
   is no longer reported once the tagged one leaves.
   */
  lemma SharedPairIsForgotten(port: Ifindex, sub: Ifindex, bridge: Ifindex)
    requires port != sub
    ensures var untagged := Details(port, false, Some(bridge), false, false, true, true, false, true, None);
            var tagged := Details(sub, false, Some(bridge), false, true, false, true, false, true, Some(port));
            var db := Run([untagged, tagged, tagged.(deleting := true)]);
            port in Of(db.untag, bridge) && bridge !in Of(db.vlans, port)
  {
    var untagged := Details(port, false, Some(bridge), false, false, true, true, false, true, None);
    var tagged := Details(sub, false, Some(bridge), false, true, false, true, false, true, Some(port));
    var db0 := BridgeDb(map[], map[], map[]);
    var db1 := BridgeDb(map[], map[bridge := {port}], map[port := {bridge}]);
    var db2 := BridgeDb(map[bridge := {sub}], map[bridge := {port}], map[port := {bridge}]);
    assert [untagged][..0] == [] && [untagged, tagged][..1] == [untagged];
    assert [untagged, tagged, tagged.(deleting := true)][..2] == [untagged, tagged];
    assert {} + {port} == {port} && {} + {sub} == {sub} && {} + {bridge} == {bridge};
    assert {bridge} + {bridge} == {bridge};
    assert After(db0, untagged) == db1;
    assert After(db1, tagged) == db2;
    assert Run([]) == db0;
    assert Run([untagged]) == db1;
    assert Run([untagged, tagged]) == db2;
  }
}
