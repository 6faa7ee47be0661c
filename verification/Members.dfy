/** The member sets of src/if/os_interface_cache.cpp and inc/opx/private/os_if_utils.h: if_mbr_data. */
module Members {

  type Ifindex = int

  /** mbr_map_: the members of each master; an emptied set stays in the map. */
  type MemberMap = map<Ifindex, set<Ifindex>>

  function Of(m: MemberMap, master: Ifindex): set<Ifindex> { if master in m then m[master] else {} }

  function With(m: MemberMap, master: Ifindex, mbr: Ifindex): MemberMap { m[master := Of(m, master) + {mbr}] }

  function Without(m: MemberMap, master: Ifindex, mbr: Ifindex): MemberMap {
    if master in m then m[master := m[master] - {mbr}] else m
  }

  class MemberData {
    var mbrMap: MemberMap

    constructor ()
      ensures mbrMap == map[]
    {
      mbrMap := map[];
    }

    /** member_add. */
    method Add(master: Ifindex, mbr: Ifindex)
      modifies this
      ensures mbrMap == With(old(mbrMap), master, mbr)
    {
      if master !in mbrMap {
        assert {} + {mbr} == {mbr};
        mbrMap := mbrMap[master := {mbr}];
      } else {
        mbrMap := mbrMap[master := mbrMap[master] + {mbr}];
      }
    }

    /** member_del. */
    method Del(master: Ifindex, mbr: Ifindex) returns (found: bool)
      modifies this
      ensures mbrMap == Without(old(mbrMap), master, mbr)
      ensures found <==> mbr in Of(old(mbrMap), master)
    {
      if master in mbrMap && mbr in mbrMap[master] {
        mbrMap := mbrMap[master := mbrMap[master] - {mbr}];
        return true;
      }
      if master in mbrMap {
        assert mbrMap[master] - {mbr} == mbrMap[master];
        assert mbrMap == Without(mbrMap, master, mbr);
      }
      return false;
    }

    /** member_present. */
    predicate Present(master: Ifindex, mbr: Ifindex)
      reads this
    {
      master in mbrMap && mbr in mbrMap[master]
    }

    /** member_list_check_empty. */
    predicate CheckEmpty(master: Ifindex)
      reads this
    {
      master !in mbrMap || mbrMap[master] == {}
    }
  }
}
