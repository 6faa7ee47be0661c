/**
 Bond membership: if_bond of inc/opx/private/os_if_utils.h and the slave branches of
 os_interface_lag_attrs_handler (src/if/os_interface_lag.cpp).
 */
module BondMembers {
  import opened Wrappers
  import opened Members

  /** mbr_map_ and s_map_. */
  datatype BondDb = BondDb(members: MemberMap, masterOf: map<Ifindex, Ifindex>)

  /** bond_master_get: 0 stands for no master. */
  function MasterGet(db: BondDb, slave: Ifindex): Ifindex {
    if slave in db.masterOf then db.masterOf[slave] else 0
  }

  /** bond_mbr_add: insert into s_map_ keeps an entry that is already there. */
  function Joined(db: BondDb, master: Ifindex, slave: Ifindex): BondDb {
    BondDb(With(db.members, master, slave),
           if slave in db.masterOf then db.masterOf else db.masterOf[slave := master])
  }

  /** bond_mbr_del. */
  function Left(db: BondDb, master: Ifindex, slave: Ifindex): BondDb {
    BondDb(Without(db.members, master, slave), db.masterOf - {slave})
  }

  /**
   An interface event: type LAG, kind tun, IFLA_MASTER and IFF_SLAVE, and whether the names of the
   interface and of its master are found.
   */
  datatype Details = Details(
    ifindex: Ifindex,
    isLag: bool,
    tun: bool,
    master: Option<Ifindex>,
    slave: bool,
    named: bool,
    masterNamed: bool
  )

  /** What the handler turns the event into: nothing new, or a LAG that is created or deleted. */
  datatype Rewrite = Untouched | LagCreate | LagDelete

  /** The event adds its interface to a bond it is not yet a member of. */
  predicate Joins(db: BondDb, d: Details) {
    !d.isLag && d.tun && d.slave && d.master.Some? && d.ifindex !in Of(db.members, d.master.value)
  }

  /** The event removes its interface from the bond the slave map names. */
  predicate Leaves(db: BondDb, d: Details) {
    !d.isLag && d.tun && d.slave && d.master.None? && MasterGet(db, d.ifindex) != 0
  }

  function After(db: BondDb, d: Details): BondDb {
    if Joins(db, d) then Joined(db, d.master.value, d.ifindex)
    else if Leaves(db, d) then Left(db, MasterGet(db, d.ifindex), d.ifindex)
    else db
  }

  /** if_bond; `events` is the run that led to it. */
  class Bonds {
    const mbrData: MemberData
    var sMap: map<Ifindex, Ifindex>
    ghost var events: seq<Details>

    ghost predicate Valid()
      reads this, mbrData
    {
      View() == Run(events)
    }

    ghost function View(): BondDb
      reads this, mbrData
    {
      BondDb(mbrData.mbrMap, sMap)
    }

    constructor ()
      ensures fresh(mbrData) && Valid() && events == [] && View() == BondDb(map[], map[])
    {
      mbrData := new MemberData();
      sMap, events := map[], [];
    }

    /**
     os_interface_lag_attrs_handler.  A name that is not found fails the event after the maps have
     changed.  `emptied` is the bond whose last member has left, if any.
     */
    method Handle(d: Details) returns (ok: bool, rewrite: Rewrite, emptied: Option<Ifindex>)
      requires Valid()
      modifies this, mbrData
      ensures Valid() && events == old(events) + [d]
      ensures View() == After(old(View()), d)
      ensures emptied.Some? <==>
        Leaves(old(View()), d) && Of(View().members, MasterGet(old(View()), d.ifindex)) == {}
      ensures emptied.Some? ==> emptied.value == MasterGet(old(View()), d.ifindex)
      ensures rewrite.LagCreate? <==> Joins(old(View()), d) && d.named
      ensures rewrite.LagDelete? <==> Leaves(old(View()), d) && d.named
      ensures !ok <==> (Joins(old(View()), d) && !(d.named && d.masterNamed)) || (Leaves(old(View()), d) && !d.named)
    {
      ok, rewrite, emptied := true, Untouched, None;
      events := events + [d];
      assert events[..|events| - 1] == old(events);
      if d.isLag || !d.tun {
        return;
      }
      if d.master.Some? && d.slave {
        if mbrData.Present(d.master.value, d.ifindex) {
          return;
        }
        mbrData.Add(d.master.value, d.ifindex);
        if d.ifindex !in sMap {
          sMap := sMap[d.ifindex := d.master.value];
        }
        if !d.named {
          return false, Untouched, None;
        }
        return d.masterNamed, LagCreate, None;
      } else if d.slave {
        var master := if d.ifindex in sMap then sMap[d.ifindex] else 0;
        if master != 0 {
          sMap := sMap - {d.ifindex};
          var found := mbrData.Del(master, d.ifindex);
          if mbrData.CheckEmpty(master) {
            emptied := Some(master);
          }
          if !d.named {
            return false, Untouched, emptied;
          }
          return true, LagDelete, emptied;
        }
      }
    }
  }

  // ---------------------------------------------------------------- runs

  function Run(events: seq<Details>): BondDb {
    if events == [] then BondDb(map[], map[])
    else After(Run(events[..|events| - 1]), events[|events| - 1])
  }

  /** The slave map only names bonds that have the slave as a member. */
  ghost predicate Forward(db: BondDb) {
    forall s :: s in db.masterOf ==> s in Of(db.members, db.masterOf[s])
  }

  /** The maps are inverses: a slave is a member of exactly the bond the slave map names. */
  ghost predicate Exact(db: BondDb) {
    && Forward(db)
    && forall master, s :: s in Of(db.members, master) ==> s in db.masterOf && db.masterOf[s] == master
  }

  /** A slave joins a bond while the slave map still names another one. */
  predicate JoinsWhileElsewhere(db: BondDb, d: Details) {
    Joins(db, d) && d.ifindex in db.masterOf && db.masterOf[d.ifindex] != d.master.value
  }

  /**
   Who is in a bond afterwards, said by the event's own fields: only a tun interface that is a slave
   joins or leaves, it joins the master it names, and without one it leaves its recorded master.
   */
  lemma MembersAfter(db: BondDb, d: Details, bond: Ifindex, s: Ifindex)
    ensures s in Of(After(db, d).members, bond) <==>
      || (s == d.ifindex && !d.isLag && d.tun && d.slave && d.master == Some(bond))
      || (s in Of(db.members, bond)
          && !(s == d.ifindex && !d.isLag && d.tun && d.slave && d.master == None
               && bond != 0 && s in db.masterOf && db.masterOf[s] == bond))
  {
  }

  lemma StepKeepsForward(db: BondDb, d: Details)
    requires Forward(db)
    ensures Forward(After(db, d))
  {
  }

  /** Over every run of the handler a slave's recorded master has it as a member. */
  lemma {:induction false} RunsKeepForward(events: seq<Details>)
    ensures Forward(Run(events))
  {
    if events != [] {
      RunsKeepForward(events[..|events| - 1]);
      StepKeepsForward(Run(events[..|events| - 1]), events[|events| - 1]);
    }
  }

  lemma StepKeepsExact(db: BondDb, d: Details)
    requires Exact(db) && !JoinsWhileElsewhere(db, d)
    ensures Exact(After(db, d))
  {
    StepKeepsForward(db, d);
    var v := After(db, d);
    forall master, s | s in Of(v.members, master) ensures s in v.masterOf && v.masterOf[s] == master {
      assert s in Of(db.members, master) || (Joins(db, d) && s == d.ifindex && master == d.master.value);
    }
  }

  /** The maps stay inverse exactly as long as no slave joins a bond while recorded in another. */
  lemma ExactIffLeftFirst(db: BondDb, d: Details)
    requires Exact(db)
    ensures Exact(After(db, d)) <==> !JoinsWhileElsewhere(db, d)
  {
    if JoinsWhileElsewhere(db, d) {
      assert d.ifindex in Of(After(db, d).members, d.master.value);
    } else {
      StepKeepsExact(db, d);
    }
  }

  /** A slave that sits in a bond the slave map does not name for it. */
  ghost predicate Stranded(db: BondDb, master: Ifindex, s: Ifindex) {
    s in Of(db.members, master) && !(s in db.masterOf && db.masterOf[s] == master)
  }

  /** No event ever removes a stranded slave. */
  lemma StrandedStays(db: BondDb, d: Details, master: Ifindex, s: Ifindex)
    requires Stranded(db, master, s)
    ensures Stranded(After(db, d), master, s)
  {
  }

  lemma InexactStays(db: BondDb, d: Details)
    requires Forward(db) && !Exact(db)
    ensures !Exact(After(db, d))
  {
    var master, s :| s in Of(db.members, master) && !(s in db.masterOf && db.masterOf[s] == master);
    assert Stranded(db, master, s);
    StrandedStays(db, d, master, s);
  }

  /** Event i of the run moves a slave that has not left its bond. */
  predicate Moves(events: seq<Details>, i: nat)
    requires i < |events|
  {
    JoinsWhileElsewhere(Run(events[..i]), events[i])
  }

  lemma MovesOfFront(events: seq<Details>, i: nat)
    requires i < |events| - 1
    ensures Moves(events[..|events| - 1], i) <==> Moves(events, i)
  {
    assert events[..|events| - 1][..i] == events[..i];
  }

  /** Over all runs: the maps are inverses at the end exactly when every slave left before it joined elsewhere. */
  lemma {:induction false} RunsExactIffLeftFirst(events: seq<Details>)
    ensures Exact(Run(events)) <==> forall i :: 0 <= i < |events| ==> !Moves(events, i)
  {
    if events != [] {
      var n := |events| - 1;
      RunsExactIffLeftFirst(events[..n]);
      forall i | 0 <= i < n ensures Moves(events, i) <==> Moves(events[..n], i) { MovesOfFront(events, i); }
      assert Moves(events, n) <==> JoinsWhileElsewhere(Run(events[..n]), events[n]);
      if Exact(Run(events[..n])) {
        ExactIffLeftFirst(Run(events[..n]), events[n]);
      } else {
        RunsKeepForward(events[..n]);
        InexactStays(Run(events[..n]), events[n]);
      }
    }
  }

  /** Inverse maps give every slave at most one master, and bond_master_get returns it. */
  lemma AtMostOneMaster(db: BondDb, s: Ifindex, m1: Ifindex, m2: Ifindex)
    requires Exact(db) && s in Of(db.members, m1) && s in Of(db.members, m2)
    ensures m1 == m2 == MasterGet(db, s)
  {
    assert s in db.masterOf && db.masterOf[s] == m1;
    assert db.masterOf[s] == m2;
  }

  /** A slave that moved without leaving cannot be removed from its second bond again. */
  lemma MovedSlaveStays(slave: Ifindex, a: Ifindex, b: Ifindex)
    requires a != b && a != 0 && b != 0
    ensures var join := (m: Ifindex) => Details(slave, false, true, Some(m), true, true, true);
            var leave := Details(slave, false, true, None, true, true, true);
            var db := After(After(After(After(BondDb(map[], map[]), join(a)), join(b)), leave), leave);
            slave in Of(db.members, b) && MasterGet(db, slave) == 0
  {
  }
}
