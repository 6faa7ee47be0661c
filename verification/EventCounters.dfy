/**
 The netlink event counters of src/netlink_stats.cpp as the dispatcher get_netlink_data of
 src/net_main.cpp drives them.
 */
module EventCounters {
  import opened Wrappers

  const U32 := 0x1_0000_0000

  type u32 = x: int | 0 <= x < U32

  /** ++ on a uint32_t. */
  function Inc(x: u32): (r: u32)
    ensures r == if x == 0xFFFF_FFFF then 0 else x + 1
  {
    (x + 1) % U32
  }

  const RTM_BASE := 16
  const RTM_GETNETCONF := 82
  const RTM_GETMDB := 86

  datatype Class = Add | Del | Get

  /** nas_nl_is_rt_add_event, ..._del_event and ..._get_event. */
  predicate IsAdd(ty: int) { ty in {16, 20, 24, 28, 80, 84} }
  predicate IsDel(ty: int) { ty in {17, 21, 25, 29, 85} }
  predicate IsGet(ty: int) { ty in {18, 22, 26, 30, 82, 86} }

  /** Types of no class are not counted. */
  function ClassOf(ty: int): Option<Class> {
    if IsAdd(ty) then Some(Add) else if IsDel(ty) then Some(Del) else if IsGet(ty) then Some(Get) else None
  }

  /** Multicast database messages are not published from here. */
  predicate IsMdb(ty: int) { RTM_GETNETCONF < ty <= RTM_GETMDB }

  predicate Handled(ty: int) { RTM_BASE <= ty <= RTM_GETMDB }

  /**
   The kernel numbers the messages of an object in fours, new, del, get and set: 16 for links, 20
   addresses, 24 routes, 28 neighbours, 80 network configuration and 84 multicast databases.  All but
   the sets and RTM_DELNETCONF, 81, are of a class.
   */
  lemma ClassMeaning(ty: int)
    ensures var counted := 16 <= ty < 32 || 80 <= ty < 88;
            && (ClassOf(ty) == Some(Add) <==> counted && ty % 4 == 0)
            && (ClassOf(ty) == Some(Del) <==> counted && ty % 4 == 1 && ty != 81)
            && (ClassOf(ty) == Some(Get) <==> counted && ty % 4 == 2)
    ensures Handled(ty) <==> 16 <= ty <= 86
    ensures IsMdb(ty) <==> 83 <= ty <= 86
  {
  }

  /** The counters of one class: received, found invalid, published, and failed to publish. */
  datatype Tally = Tally(total: u32, invalid: u32, published: u32, failed: u32)

  const ZERO := Tally(0, 0, 0, 0)

  /** nas_nl_stats_desc_t. */
  datatype Stats = Stats(received: u32, bulks: u32, maxBulk: u32, minBulk: u32, add: Tally, del: Tally, get: Tally) {
    function Of(c: Class): Tally {
      match c
      case Add => add
      case Del => del
      case Get => get
    }

    function With(c: Class, t: Tally): Stats {
      match c
      case Add => this.(add := t)
      case Del => this.(del := t)
      case Get => this.(get := t)
    }
  }

  const CLEARED := Stats(0, 0, 0, 0, ZERO, ZERO, ZERO)

  datatype Counter = CountTotal | CountInvalid | CountPublished | CountFailed

  function Bump(t: Tally, k: Counter): Tally {
    match k
    case CountTotal => t.(total := Inc(t.total))
    case CountInvalid => t.(invalid := Inc(t.invalid))
    case CountPublished => t.(published := Inc(t.published))
    case CountFailed => t.(failed := Inc(t.failed))
  }

  /** nas_nl_stats_update_tot_msg and its three siblings. */
  function Counted(s: Stats, ty: int, k: Counter): Stats {
    match ClassOf(ty)
    case None => s
    case Some(c) => s.With(c, Bump(s.Of(c), k))
  }

  /** nas_nl_stats_update. */
  function Batched(s: Stats, n: u32): Stats {
    var s1 := s.(received := (s.received + n) % U32);
    if n <= 1 then s1
    else
      s1.(bulks := Inc(s1.bulks),
          maxBulk := if n > s1.maxBulk then n else s1.maxBulk,
          minBulk := if n < s1.minBulk || s1.minBulk == 0 then n else s1.minBulk)
  }

  /** get_netlink_data; parsed says whether the type's parser wants the event published. */
  function Dispatched(s: Stats, ty: int, parsed: bool, sent: bool): Stats {
    if !Handled(ty) then s
    else
      var s1 := Counted(s, ty, CountTotal);
      if !parsed then Counted(s1, ty, CountInvalid)
      else if IsMdb(ty) then s1
      else
        var s2 := Counted(s1, ty, CountPublished);
        if sent then s2 else Counted(s2, ty, CountFailed)
  }

  class Counters {
    var table: map<int, Stats>

    constructor ()
      ensures table == map[]
    {
      table := map[];
    }

    /** nas_nl_stats_init. */
    method Init(sock: int) returns (ok: bool)
      modifies this
      ensures ok <==> sock !in old(table)
      ensures table == if ok then old(table)[sock := CLEARED] else old(table)
    {
      if sock in table {
        return false;
      }
      table := table[sock := CLEARED];
      return true;
    }

    /** nas_nl_stats_deinit. */
    method Deinit(sock: int) returns (ok: bool)
      modifies this
      ensures ok <==> sock in old(table)
      ensures table == old(table) - {sock}
    {
      ok := sock in table;
      table := table - {sock};
    }

    /** nas_nl_stats_reset. */
    method Reset(sock: int) returns (ok: bool)
      modifies this
      ensures ok <==> sock in old(table)
      ensures table == if ok then old(table)[sock := CLEARED] else old(table)
    {
      if sock !in table {
        return false;
      }
      table := table[sock := CLEARED];
      return true;
    }

    /** The four nas_nl_stats_update_*_msg functions. */
    method Count(sock: int, ty: int, k: Counter) returns (ok: bool)
      modifies this
      ensures ok <==> sock in old(table)
      ensures table == if ok then old(table)[sock := Counted(old(table)[sock], ty, k)] else old(table)
    {
      if sock !in table {
        return false;
      }
      var it := table[sock];
      if IsAdd(ty) {
        it := it.(add := Bump(it.add, k));
      } else if IsDel(ty) {
        it := it.(del := Bump(it.del, k));
      } else if IsGet(ty) {
        it := it.(get := Bump(it.get, k));
      }
      table := table[sock := it];
      return true;
    }

    /** nas_nl_stats_update. */
    method UpdateBatch(sock: int, n: u32) returns (ok: bool)
      modifies this
      ensures ok <==> sock in old(table)
      ensures table == if ok then old(table)[sock := Batched(old(table)[sock], n)] else old(table)
    {
      if sock !in table {
        return false;
      }
      var it := table[sock];
      it := it.(received := (it.received + n) % U32);
      if n > 1 {
        it := it.(bulks := Inc(it.bulks));
        if n > it.maxBulk {
          it := it.(maxBulk := n);
        }
        if n < it.minBulk {
          it := it.(minBulk := n);
        } else if it.minBulk == 0 {
          it := it.(minBulk := n);
        }
      }
      table := table[sock := it];
      return true;
    }

    /** get_netlink_data: the counter calls around one message. */
    method GetNetlinkData(sock: int, ty: int, parsed: bool, sent: bool) returns (handled: bool)
      modifies this
      ensures handled <==> Handled(ty)
      ensures table == if sock in old(table) then old(table)[sock := Dispatched(old(table)[sock], ty, parsed, sent)]
                       else old(table)
    {
      if ty < RTM_BASE {
        assert sock in table ==> table == table[sock := table[sock]];
        return false;
      }
      var ok;
      if ty <= RTM_GETNETCONF {
        ok := Count(sock, ty, CountTotal);
        if parsed {
          ok := Count(sock, ty, CountPublished);
          if !sent {
            ok := Count(sock, ty, CountFailed);
          }
        } else {
          ok := Count(sock, ty, CountInvalid);
        }
        return true;
      }
      if ty <= RTM_GETMDB {
        ok := Count(sock, ty, CountTotal);
        if !parsed {
          ok := Count(sock, ty, CountInvalid);
        }
        return true;
      }
      assert sock in table ==> table == table[sock := table[sock]];
      return false;
    }
  }

  // ---------------------------------------------------------------- runs of one socket

  /** What happens to one socket's counters after nas_nl_stats_init. */
  datatype Event = Message(ty: int, parsed: bool, sent: bool) | Batch(n: u32) | Reset

  function After(s: Stats, e: Event): Stats {
    match e
    case Message(ty, parsed, sent) => Dispatched(s, ty, parsed, sent)
    case Batch(n) => Batched(s, n)
    case Reset => CLEARED
  }

  function Run(events: seq<Event>): Stats {
    if events == [] then CLEARED else After(Run(events[..|events| - 1]), events[|events| - 1])
  }

  /** The number of messages of a class since the last reset that p selects. */
  function Since(events: seq<Event>, p: Event -> bool): nat {
    if events == [] then 0
    else
      var last := events[|events| - 1];
      if last.Reset? then 0 else Since(events[..|events| - 1], p) + if p(last) then 1 else 0
  }

  predicate InClass(e: Event, c: Class) { e.Message? && Handled(e.ty) && ClassOf(e.ty) == Some(c) }

  /** An accepted multicast database message: received, but neither published nor invalid. */
  function Quiet(c: Class): Event -> bool { (e: Event) => InClass(e, c) && e.parsed && IsMdb(e.ty) }

  function Received(c: Class): Event -> bool { (e: Event) => InClass(e, c) }

  function Refused(c: Class): Event -> bool { (e: Event) => InClass(e, c) && !e.parsed }

  function Published(c: Class): Event -> bool { (e: Event) => InClass(e, c) && e.parsed && !IsMdb(e.ty) }

  function Unsent(c: Class): Event -> bool { (e: Event) => Published(c)(e) && !e.sent }

  lemma IncMod(n: nat)
    ensures Inc(n % U32) == (n + 1) % U32
  {
  }

  /** A counter before and after one event that it counts or not. */
  predicate Stepped(before: u32, after: u32, counts: bool) { after == if counts then Inc(before) else before }

  /** One event changes a class's tally by exactly what it is. */
  lemma TallyStep(s: Stats, e: Event, c: Class)
    requires !e.Reset?
    ensures var t, u := s.Of(c), After(s, e).Of(c);
            && Stepped(t.total, u.total, Received(c)(e))
            && Stepped(t.invalid, u.invalid, Refused(c)(e))
            && Stepped(t.published, u.published, Published(c)(e))
            && Stepped(t.failed, u.failed, Unsent(c)(e))
  {
  }

  lemma SinceStep(events: seq<Event>, p: Event -> bool, counter: u32, next: u32)
    requires events != [] && !events[|events| - 1].Reset?
    requires counter == Since(events[..|events| - 1], p) % U32
    requires Stepped(counter, next, p(events[|events| - 1]))
    ensures next == Since(events, p) % U32
  {
    IncMod(Since(events[..|events| - 1], p));
  }

  /** Every counter is the number of the messages it stands for since the last reset, modulo 2^32. */
  lemma {:induction false} CountersCount(events: seq<Event>, c: Class)
    ensures var t := Run(events).Of(c);
            && t.total == Since(events, Received(c)) % U32
            && t.invalid == Since(events, Refused(c)) % U32
            && t.published == Since(events, Published(c)) % U32
            && t.failed == Since(events, Unsent(c)) % U32
  {
    if events != [] && !events[|events| - 1].Reset? {
      var front, e := events[..|events| - 1], events[|events| - 1];
      var t, u := Run(front).Of(c), Run(events).Of(c);
      CountersCount(front, c);
      TallyStep(Run(front), e, c);
      SinceStep(events, Received(c), t.total, u.total);
      SinceStep(events, Refused(c), t.invalid, u.invalid);
      SinceStep(events, Published(c), t.published, u.published);
      SinceStep(events, Unsent(c), t.failed, u.failed);
    }
  }

  lemma {:induction false} ReceivedSplits(events: seq<Event>, c: Class)
    ensures Since(events, Received(c))
         == Since(events, Published(c)) + Since(events, Refused(c)) + Since(events, Quiet(c))
  {
    if events != [] && !events[|events| - 1].Reset? {
      ReceivedSplits(events[..|events| - 1], c);
    }
  }

  lemma ModSum(p: nat, i: nat, q: nat)
    ensures (p + i + q) % U32 == (p % U32 + i % U32 + q) % U32
  {
    var x := p % U32 + i % U32 + q;
    var k := p / U32 + i / U32;
    assert p + i + q == x + U32 * k;
    AddMultiple(x, k);
  }

  lemma AddMultiple(x: nat, k: nat)
    ensures (x + U32 * k) % U32 == x % U32
  {
    var q, r := x / U32, x % U32;
    assert x + U32 * k == U32 * (q + k) + r;
  }

  /**
   Conservation, per class and modulo 2^32, over every run with resets: what was received is what was
   published, found invalid, or was an accepted multicast database message.
   */
  lemma Conservation(events: seq<Event>, c: Class)
    ensures var t := Run(events).Of(c);
            t.total == (t.published + t.invalid + Since(events, Quiet(c))) % U32
  {
    CountersCount(events, c);
    ReceivedSplits(events, c);
    ModSum(Since(events, Published(c)), Since(events, Refused(c)), Since(events, Quiet(c)));
  }

  lemma AddendVanishes(x: nat, q: nat)
    ensures (x + q) % U32 == x % U32 <==> q % U32 == 0
  {
  }

  /** So total equals published plus invalid exactly when the number of those messages is a multiple of 2^32. */
  lemma BalancedIffNoQuietMessages(events: seq<Event>, c: Class)
    ensures var t := Run(events).Of(c);
            t.total == (t.published + t.invalid) % U32 <==> Since(events, Quiet(c)) % U32 == 0
  {
    Conservation(events, c);
    AddendVanishes(Run(events).Of(c).published + Run(events).Of(c).invalid, Since(events, Quiet(c)));
  }

  /** One accepted RTM_NEWMDB is received as an addition and neither published nor invalid. */
  lemma QuietMessageUnbalances(sent: bool)
    ensures Run([Message(84, true, sent)]).add == Tally(1, 0, 0, 0)
  {
    assert [Message(84, true, sent)][..0] == [];
  }

  /** The batch sizes above 1 since the last reset. */
  function Bulks(events: seq<Event>): seq<u32> {
    if events == [] then []
    else
      var last := events[|events| - 1];
      if last.Reset? then []
      else Bulks(events[..|events| - 1]) + if last.Batch? && last.n > 1 then [last.n] else []
  }

  /** The messages in all batches since the last reset. */
  function Delivered(events: seq<Event>): nat {
    if events == [] then 0
    else
      var last := events[|events| - 1];
      if last.Reset? then 0 else Delivered(events[..|events| - 1]) + if last.Batch? then last.n else 0
  }

  lemma AddMod(a: nat, n: u32)
    ensures (a % U32 + n) % U32 == (a + n) % U32
  {
    AddMultiple(a % U32 + n, a / U32);
  }

  /** num_events_rcvd is the number of messages in all batches since the last reset, modulo 2^32. */
  lemma {:induction false} ReceivedIsDelivered(events: seq<Event>)
    ensures Run(events).received == Delivered(events) % U32
  {
    if events != [] {
      var front := events[..|events| - 1];
      ReceivedIsDelivered(front);
      match events[|events| - 1]
      case Message(ty, parsed, sent) => MessageKeepsBulk(Run(front), ty, parsed, sent);
      case Batch(n) => AddMod(Delivered(front), n);
      case Reset =>
    }
  }

  /** The two extremes of some sizes, 0 when there are none. */
  ghost predicate Extremes(lo: u32, hi: u32, sizes: seq<u32>) {
    if sizes == [] then lo == hi == 0
    else lo in sizes && hi in sizes && forall v :: v in sizes ==> 1 < lo <= v <= hi
  }

  lemma ExtremesStep(s: Stats, sizes: seq<u32>, n: u32)
    requires Extremes(s.minBulk, s.maxBulk, sizes)
    ensures n > 1 ==> Extremes(Batched(s, n).minBulk, Batched(s, n).maxBulk, sizes + [n])
  {
  }

  lemma MessageKeepsBulk(s: Stats, ty: int, parsed: bool, sent: bool)
    ensures var v := Dispatched(s, ty, parsed, sent);
            v.minBulk == s.minBulk && v.maxBulk == s.maxBulk && v.bulks == s.bulks && v.received == s.received
  {
  }

  /** The bulk minimum and maximum are those of the batch sizes above 1 since the last reset. */
  lemma {:induction false} BulkExtremes(events: seq<Event>)
    ensures Extremes(Run(events).minBulk, Run(events).maxBulk, Bulks(events))
    ensures Run(events).bulks == |Bulks(events)| % U32
  {
    if events != [] {
      var front := events[..|events| - 1];
      BulkExtremes(front);
      match events[|events| - 1]
      case Message(ty, parsed, sent) =>
        MessageKeepsBulk(Run(front), ty, parsed, sent);
        assert Bulks(events) == Bulks(front);
      case Batch(n) =>
        ExtremesStep(Run(front), Bulks(front), n);
        IncMod(|Bulks(front)|);
        assert n <= 1 ==> Bulks(events) == Bulks(front);
      case Reset =>
    }
  }
}
