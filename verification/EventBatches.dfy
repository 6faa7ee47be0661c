/**
 How the counters of one socket come about: netlink_tools_receive_event (src/netlink_tools.c) hands
 the messages of a datagram to get_netlink_data and counts the batch only at its end.
 */
module EventBatches {
  import opened EventCounters

  const EINTR := 4

  /** NLMSG_NOOP, NLMSG_DONE, NLMSG_ERROR with its code, or a message and what became of it. */
  datatype Kind = Noop | Done | Error(code: int) | Data(ty: int, parsed: bool, sent: bool)

  /** One message of a datagram with its NLM_F_DUMP_INTR flag. */
  datatype Nlmsg = Nlmsg(interrupted: bool, kind: Kind)

  /** The loop returns at this message: interrupted dump, error, or refused by the dispatcher. */
  predicate Stops(m: Nlmsg) {
    || m.interrupted
    || (m.kind.Error? && m.kind.code != 0)
    || (m.kind.Data? && !Handled(m.kind.ty))
  }

  /** What the loop leaves in the error code when it returns at m. */
  function StopCode(m: Nlmsg): int {
    if m.interrupted then EINTR else if m.kind.Error? then -m.kind.code else 0
  }

  /** The messages the dispatcher accepts: those before the first that stops the loop. */
  function Dispatches(msgs: seq<Nlmsg>): (es: seq<Event>)
    ensures forall e :: e in es ==> e.Message? && Handled(e.ty)
  {
    if msgs == [] || Stops(msgs[0]) then []
    else
      match msgs[0].kind
      case Data(ty, parsed, sent) => [Message(ty, parsed, sent)] + Dispatches(msgs[1..])
      case _ => Dispatches(msgs[1..])
  }

  /** No message stops the loop. */
  predicate Completes(msgs: seq<Nlmsg>) { forall m :: m in msgs ==> !Stops(m) }

  /** What a datagram does to the counters; the batch is counted only when the loop gets to its end. */
  function Effect(msgs: seq<Nlmsg>): seq<Event> {
    Dispatches(msgs) + if Completes(msgs) then [Batch(|Dispatches(msgs)| % U32)] else []
  }

  /** The counters s after some more events. */
  function Then(s: Stats, events: seq<Event>): Stats {
    if events == [] then s else After(Then(s, events[..|events| - 1]), events[|events| - 1])
  }

  lemma ThenSnoc(s: Stats, events: seq<Event>, e: Event)
    ensures Then(s, events + [e]) == After(Then(s, events), e)
  {
    assert (events + [e])[..|events|] == events;
  }

  /** The table of counters after some events of one socket; an unknown socket counts nothing. */
  function TableAfter(table: map<int, Stats>, sock: int, events: seq<Event>): map<int, Stats> {
    if sock in table then table[sock := Then(table[sock], events)] else table
  }

  lemma TableSnoc(table: map<int, Stats>, sock: int, events: seq<Event>, e: Event)
    ensures var t := TableAfter(table, sock, events);
            TableAfter(table, sock, events + [e]) == if sock in t then t[sock := After(t[sock], e)] else t
  {
    if sock in table {
      ThenSnoc(table[sock], events, e);
    }
  }

  /** The dispatcher's call for one message, after the events done. */
  method Dispatch(counters: Counters, sock: int, nh: Nlmsg, ghost before: map<int, Stats>, ghost done: seq<Event>)
    returns (handled: bool)
    requires nh.kind.Data? && counters.table == TableAfter(before, sock, done)
    modifies counters
    ensures handled <==> Handled(nh.kind.ty)
    ensures var e := Message(nh.kind.ty, nh.kind.parsed, nh.kind.sent);
            counters.table == TableAfter(before, sock, if handled then done + [e] else done)
  {
    TableSnoc(before, sock, done, Message(nh.kind.ty, nh.kind.parsed, nh.kind.sent));
    handled := counters.GetNetlinkData(sock, nh.kind.ty, nh.kind.parsed, nh.kind.sent);
  }

  /** Why the loop returned: at the message that stops it, all before it having been passed. */
  ghost predicate StoppedWith(msgs: seq<Nlmsg>, errorCode: int) {
    exists k :: 0 <= k < |msgs| && Stops(msgs[k]) && Completes(msgs[..k]) && errorCode == StopCode(msgs[k])
  }

  /** The events done are those of the first i messages, which all passed. */
  ghost predicate DoneUpTo(msgs: seq<Nlmsg>, i: nat, done: seq<Event>) {
    i <= |msgs| && Dispatches(msgs) == done + Dispatches(msgs[i..]) && Completes(msgs[..i])
  }

  lemma StopsHere(msgs: seq<Nlmsg>, i: nat, done: seq<Event>)
    requires i < |msgs| && DoneUpTo(msgs, i, done) && Stops(msgs[i])
    ensures Effect(msgs) == done && !Completes(msgs) && StoppedWith(msgs, StopCode(msgs[i]))
  {
    assert msgs[i..][0] == msgs[i] && Dispatches(msgs[i..]) == [];
  }

  lemma GoesOnHere(msgs: seq<Nlmsg>, i: nat, done: seq<Event>)
    requires i < |msgs| && DoneUpTo(msgs, i, done) && !Stops(msgs[i])
    ensures var nh := msgs[i];
            var e := if nh.kind.Data? then [Message(nh.kind.ty, nh.kind.parsed, nh.kind.sent)] else [];
            DoneUpTo(msgs, i + 1, done + e)
  {
    assert msgs[i..][0] == msgs[i] && msgs[i..][1..] == msgs[i + 1..];
    assert msgs[..i + 1] == msgs[..i] + [msgs[i]];
  }

  /** netlink_tools_receive_event once a datagram has been read. */
  method ReceiveEvent(counters: Counters, sock: int, msgs: seq<Nlmsg>) returns (errorCode: int)
    modifies counters
    ensures counters.table == TableAfter(old(counters.table), sock, Effect(msgs))
    ensures Completes(msgs) ==> errorCode == 0
    ensures !Completes(msgs) ==> StoppedWith(msgs, errorCode)
  {
    errorCode := 0;
    var msgCount := 0;
    ghost var before := counters.table;
    ghost var done: seq<Event> := [];
    assert sock in before ==> before == before[sock := before[sock]];
    for i := 0 to |msgs|
      invariant errorCode == 0 && msgCount == |done| && DoneUpTo(msgs, i, done)
      invariant counters.table == TableAfter(before, sock, done)
    {
      var nh := msgs[i];
      if nh.interrupted || (nh.kind.Error? && nh.kind.code != 0) {
        StopsHere(msgs, i, done);
        return StopCode(nh);
      }
      if nh.kind.Data? {
        msgCount := msgCount + 1;
        var handled := Dispatch(counters, sock, nh, before, done);
        if !handled {
          StopsHere(msgs, i, done);
          return 0;
        }
      }
      GoesOnHere(msgs, i, done);
      assert done + [] == done;
      done := done + if nh.kind.Data? then [Message(nh.kind.ty, nh.kind.parsed, nh.kind.sent)] else [];
    }
    assert msgs[..|msgs|] == msgs && done == Dispatches(msgs);
    TableSnoc(before, sock, done, Batch(|done| % U32));
    var ok := counters.UpdateBatch(sock, msgCount % U32);
  }

  /** The loop goes on after this message: no interrupted dump, no error but 0, no type outside 16 to 86. */
  predicate Passes(m: Nlmsg) {
    && !m.interrupted
    && (m.kind.Error? ==> m.kind.code == 0)
    && (m.kind.Data? ==> 16 <= m.kind.ty <= 86)
  }

  /** The plain messages among these. */
  function Plain(msgs: seq<Nlmsg>): seq<Event> {
    if msgs == [] then []
    else if msgs[0].kind.Data? then
      [Message(msgs[0].kind.ty, msgs[0].kind.parsed, msgs[0].kind.sent)] + Plain(msgs[1..])
    else Plain(msgs[1..])
  }

  /**
   Where the loop stops: with n messages passed and the next one, if any, not passing, the plain ones
   among the first n are dispatched, the batch is counted exactly when none is left, and otherwise the
   error code is that of message n.
   */
  lemma {:induction false} DispatchesUpToTheStop(msgs: seq<Nlmsg>, n: nat, errorCode: int)
    requires n <= |msgs| && (forall k :: 0 <= k < n ==> Passes(msgs[k])) && (n < |msgs| ==> !Passes(msgs[n]))
    ensures Dispatches(msgs) == Plain(msgs[..n])
    ensures Completes(msgs) <==> n == |msgs|
    ensures n < |msgs| && StoppedWith(msgs, errorCode) ==>
      errorCode == if msgs[n].interrupted then 4 else if msgs[n].kind.Error? then -msgs[n].kind.code else 0
  {
    PlainUpToTheStop(msgs, n);
    assert forall k :: 0 <= k < |msgs| ==> (Passes(msgs[k]) <==> !Stops(msgs[k]));
    if n < |msgs| {
      assert msgs[n] in msgs && Stops(msgs[n]);
      if StoppedWith(msgs, errorCode) {
        var k :| 0 <= k < |msgs| && Stops(msgs[k]) && Completes(msgs[..k]) && errorCode == StopCode(msgs[k]);
        assert n < k ==> msgs[n] in msgs[..k];
      }
    }
  }

  lemma {:induction false} PlainUpToTheStop(msgs: seq<Nlmsg>, n: nat)
    requires n <= |msgs| && (forall k :: 0 <= k < n ==> Passes(msgs[k])) && (n < |msgs| ==> !Passes(msgs[n]))
    ensures Dispatches(msgs) == Plain(msgs[..n])
    decreases n
  {
    if n > 0 {
      assert msgs[1..][..n - 1] == msgs[..n][1..] && Passes(msgs[0]);
      assert forall k :: 0 <= k < n - 1 ==> msgs[1..][k] == msgs[k + 1];
      PlainUpToTheStop(msgs[1..], n - 1);
    }
  }

  // ---------------------------------------------------------------- runs of one socket

  /**
   What reaches a socket's counters: a datagram of events, one message that
   netlink_tools_process_socket hands to the dispatcher without counting a batch, or a reset.
   */
  datatype Input = Datagram(msgs: seq<Nlmsg>) | Response(ty: int, parsed: bool, sent: bool) | Cleared

  function Events(inputs: seq<Input>): seq<Event> {
    if inputs == [] then []
    else
      Events(inputs[..|inputs| - 1]) +
      match inputs[|inputs| - 1]
      case Datagram(msgs) => Effect(msgs)
      case Response(ty, parsed, sent) => [Message(ty, parsed, sent)]
      case Cleared => [Reset]
  }

  /** The messages dispatched since the last reset outside a batch that was counted. */
  function Unbatched(inputs: seq<Input>): nat {
    if inputs == [] then 0
    else
      var front := Unbatched(inputs[..|inputs| - 1]);
      match inputs[|inputs| - 1]
      case Datagram(msgs) => front + if Completes(msgs) then 0 else |Dispatches(msgs)|
      case Response(ty, _, _) => front + if Handled(ty) then 1 else 0
      case Cleared => 0
  }

  /** How often batch sizes since the last reset exceeded 32 bits, added up. */
  ghost function Wraps(inputs: seq<Input>): nat {
    if inputs == [] then 0
    else
      var front := Wraps(inputs[..|inputs| - 1]);
      match inputs[|inputs| - 1]
      case Datagram(msgs) => front + if Completes(msgs) then |Dispatches(msgs)| / U32 else 0
      case Response(_, _, _) => front
      case Cleared => 0
  }

  /** Every message the dispatcher takes. */
  function Taken(): Event -> bool { (e: Event) => e.Message? && Handled(e.ty) }

  /** Those that no class counts. */
  function Unclassified(): Event -> bool { (e: Event) => e.Message? && Handled(e.ty) && ClassOf(e.ty).None? }

  lemma {:induction false} TakenSplits(events: seq<Event>)
    ensures Since(events, Taken())
         == Since(events, Received(Add)) + Since(events, Received(Del)) + Since(events, Received(Get))
            + Since(events, Unclassified())
  {
    if events != [] && !events[|events| - 1].Reset? {
      TakenSplits(events[..|events| - 1]);
    }
  }

  /** Messages of a datagram are taken and deliver no batch. */
  lemma {:induction false} MessagesAdd(events: seq<Event>, more: seq<Event>)
    requires forall e :: e in more ==> e.Message? && Handled(e.ty)
    ensures Since(events + more, Taken()) == Since(events, Taken()) + |more|
    ensures Delivered(events + more) == Delivered(events)
  {
    if more == [] {
      assert events + more == events;
    } else {
      var n := |more| - 1;
      assert (events + more)[..|events + more| - 1] == events + more[..n];
      MessagesAdd(events, more[..n]);
    }
  }

  lemma OneMore(events: seq<Event>, e: Event)
    ensures e.Reset? ==> Since(events + [e], Taken()) == 0 && Delivered(events + [e]) == 0
    ensures !e.Reset? ==> Since(events + [e], Taken()) == Since(events, Taken()) + if Taken()(e) then 1 else 0
    ensures !e.Reset? ==> Delivered(events + [e]) == Delivered(events) + if e.Batch? then e.n else 0
  {
    assert (events + [e])[..|events|] == events;
  }

  lemma DatagramAdds(events: seq<Event>, msgs: seq<Nlmsg>)
    ensures var n := |Dispatches(msgs)|;
            && Since(events + Effect(msgs), Taken()) == Since(events, Taken()) + n
            && Delivered(events + Effect(msgs)) == Delivered(events) + if Completes(msgs) then n % U32 else 0
  {
    var es := Dispatches(msgs);
    MessagesAdd(events, es);
    if Completes(msgs) {
      assert events + Effect(msgs) == (events + es) + [Batch(|es| % U32)];
      OneMore(events + es, Batch(|es| % U32));
    } else {
      assert Effect(msgs) == es;
    }
  }

  /** Every message taken since the last reset was delivered in a counted batch or is unbatched. */
  lemma {:induction false} TakenAreDeliveredOrUnbatched(inputs: seq<Input>)
    ensures Since(Events(inputs), Taken())
         == Delivered(Events(inputs)) + Unbatched(inputs) + U32 * Wraps(inputs)
  {
    if inputs != [] {
      var front := inputs[..|inputs| - 1];
      TakenAreDeliveredOrUnbatched(front);
      match inputs[|inputs| - 1]
      case Datagram(msgs) => DatagramAdds(Events(front), msgs);
      case Response(ty, parsed, sent) => OneMore(Events(front), Message(ty, parsed, sent));
      case Cleared => OneMore(Events(front), Reset);
    }
  }

  lemma SumOfRemainders(a: nat, b: nat, c: nat, d: nat)
    ensures (a % U32 + b % U32 + c % U32 + d) % U32 == (a + b + c + d) % U32
  {
    ModSum(a, b, c % U32 + d);
    ModSum(c, 0, a + b + d);
    assert a + b + (c % U32 + d) == c % U32 + 0 % U32 + (a + b + d);
    assert a % U32 + b % U32 + c % U32 + d == a % U32 + b % U32 + (c % U32 + d);
  }

  /** A 32-bit counter that has counted n. */
  predicate Counts(counter: u32, n: nat) { counter == n % U32 }

  /**
   The received count and the messages outside a counted batch are together the class totals and the
   rest, modulo 2^32, and so the counts agree exactly when the messages outside are a multiple of it.
   */
  predicate Balances(s: Stats, rest: nat, unbatched: nat) {
    var totals := s.add.total + s.del.total + s.get.total + rest;
    && (s.received + unbatched) % U32 == totals % U32
    && (Counts(s.received, totals) <==> unbatched % U32 == 0)
  }

  /** The arithmetic of the balance: three totals and a rest that add up to what was delivered and not, in turns. */
  lemma Balance(s: Stats, a: nat, b: nat, c: nat, d: nat, delivered: nat, unbatched: nat, wraps: nat)
    requires Counts(s.received, delivered)
    requires Counts(s.add.total, a) && Counts(s.del.total, b) && Counts(s.get.total, c)
    requires a + b + c + d == delivered + unbatched + U32 * wraps
    ensures Balances(s, d, unbatched)
  {
    SumOfRemainders(a, b, c, d);
    AddMultiple(delivered + unbatched, wraps);
    SumOfRemainders(delivered, 0, 0, unbatched);
    AddendVanishes(s.received, unbatched);
  }

  lemma CountersStand(es: seq<Event>)
    ensures var s := Run(es);
            && Counts(s.received, Delivered(es))
            && Counts(s.add.total, Since(es, Received(Add)))
            && Counts(s.del.total, Since(es, Received(Del)))
            && Counts(s.get.total, Since(es, Received(Get)))
  {
    ReceivedIsDelivered(es);
    CountersCount(es, Add);
    CountersCount(es, Del);
    CountersCount(es, Get);
  }

  /**
   Conservation across the counters, over every run and modulo 2^32: num_events_rcvd and the
   messages dispatched outside a counted batch are together what the classes count and the messages
   of no class.
   */
  lemma ReceivedIffNothingUnbatched(inputs: seq<Input>)
    ensures Balances(Run(Events(inputs)), Since(Events(inputs), Unclassified()), Unbatched(inputs))
  {
    var es := Events(inputs);
    CountersStand(es);
    TakenSplits(es);
    TakenAreDeliveredOrUnbatched(inputs);
    Balance(Run(es), Since(es, Received(Add)), Since(es, Received(Del)), Since(es, Received(Get)),
            Since(es, Unclassified()), Delivered(es), Unbatched(inputs), Wraps(inputs));
  }

  /** A datagram cut off by an interrupted dump: its first message is published and never received. */
  lemma CutDatagramIsNotReceived()
    ensures var s := Run(Events([Datagram([Nlmsg(false, Data(16, true, true)), Nlmsg(true, Noop)])]));
            s.received == 0 && s.add.total == 1 && s.add.published == 1
  {
    var msgs := [Nlmsg(false, Data(16, true, true)), Nlmsg(true, Noop)];
    assert msgs[1..][0] == Nlmsg(true, Noop) && Stops(msgs[1]);
    assert Effect(msgs) == [Message(16, true, true)];
    assert [Datagram(msgs)][..0] == [];
    assert Events([Datagram(msgs)]) == [Message(16, true, true)];
    assert [Message(16, true, true)][..0] == [];
  }
}
