/**
 The response loop netlink_tools_process_socket (src/netlink_tools.c) over everything a socket can
 deliver, as a filter: which messages reach the handler, and what the result says about them.
 */
module ProcessSocket {
  import opened Wrappers

  const EINTR := 4

  /** NLMSG_NOOP, NLMSG_DONE, NLMSG_ERROR with its code (0 acknowledges), or anything else with its content. */
  datatype Kind = Noop | Done | Error(code: int) | Data(content: nat)

  /** One netlink message: sequence number, NLM_F_MULTI, NLM_F_DUMP_INTR and kind. */
  datatype Msg = Msg(seqNo: nat, multi: bool, interrupted: bool, kind: Kind)

  /**
   One turn of the receive loop: peeking or reading is interrupted or fails, or a datagram
   arrives, cut short or not, and the select that may follow finds more data or times out.
   */
  datatype Receive =
    | Interrupted
    | PeekFails
    | ReadFails(errno: int)
    | Datagram(msgs: seq<Msg>, truncated: bool, moreReady: bool)

  /** Waiting means that everything scripted was received and the loop waits for more. */
  datatype Result = Waiting | Finished(rc: bool)

  datatype Outcome = Outcome(result: Result, errorCode: int, calls: seq<Msg>)

  predicate Matches(m: Msg, want: Option<nat>) { want == None || want.value == m.seqNo }

  /** The messages with the wanted sequence number. */
  function Matching(msgs: seq<Msg>, want: Option<nat>): seq<Msg> {
    if msgs == [] then []
    else
      var front := Matching(msgs[..|msgs| - 1], want);
      if Matches(msgs[|msgs| - 1], want) then front + [msgs[|msgs| - 1]] else front
  }

  /** The wanted messages of a whole list of turns, in order. */
  function Delivered(script: seq<Receive>, want: Option<nat>): seq<Msg> {
    if script == [] then []
    else
      var front := Delivered(script[..|script| - 1], want);
      match script[|script| - 1]
      case Datagram(msgs, _, _) => front + Matching(msgs, want)
      case _ => front
  }

  /** The messages handed to the handler: the non-control ones not flagged as interrupted. */
  function DataOf(msgs: seq<Msg>): seq<Msg> {
    if msgs == [] then []
    else
      var last := msgs[|msgs| - 1];
      DataOf(msgs[..|msgs| - 1]) + if last.kind.Data? && !last.interrupted then [last] else []
  }

  /** Message k makes the loop give up: interrupted dump, error report, or refused by the handler. */
  predicate Stops(msgs: seq<Msg>, k: nat, answers: nat -> bool)
    requires k < |msgs|
  {
    var m := msgs[k];
    || m.interrupted
    || (m.kind.Error? && m.kind.code != 0)
    || (m.kind.Data? && !answers(|DataOf(msgs[..k])|))
  }

  /** The error code left behind when message m makes the loop give up. */
  function StopCode(m: Msg): int {
    if m.interrupted then EINTR else if m.kind.Error? then -m.kind.code else 0
  }

  /** cont: more messages are expected after these. */
  predicate ExpectsMore(msgs: seq<Msg>) {
    msgs == [] || (msgs[|msgs| - 1].multi && !msgs[|msgs| - 1].kind.Done?)
  }

  /** rc: among these there was a DONE, an acknowledgement or a handled message. */
  predicate SawAnswer(msgs: seq<Msg>) {
    exists k :: 0 <= k < |msgs| && !msgs[k].kind.Noop?
  }

  /** The loop goes on to another turn after turn i, provided no message stopped it. */
  predicate GoesOn(script: seq<Receive>, want: Option<nat>, i: nat)
    requires i < |script|
  {
    match script[i]
    case Interrupted => true
    case Datagram(_, truncated, moreReady) =>
      !truncated && moreReady && ExpectsMore(Delivered(script[..i + 1], want))
    case _ => false
  }

  /** What the loop returns when turn r ended it after the messages taken, none of which stopped it. */
  function TurnResult(r: Receive, taken: seq<Msg>): (Result, int) {
    match r
    case ReadFails(errno) => (Finished(false), errno)
    case Datagram(_, truncated, _) => (Finished(!truncated && !ExpectsMore(taken) && SawAnswer(taken)), 0)
    case _ => (Finished(false), 0)
  }

  /** No message of these, in its place, stops the loop. */
  ghost predicate NoneStops(msgs: seq<Msg>, answers: nat -> bool) {
    forall k :: 0 <= k < |msgs| ==> !Stops(msgs, k, answers)
  }

  /** The last of these messages stops the loop and none before it does. */
  ghost predicate LastStops(msgs: seq<Msg>, answers: nat -> bool) {
    |msgs| > 0 && Stops(msgs, |msgs| - 1, answers) && forall k :: 0 <= k < |msgs| - 1 ==> !Stops(msgs, k, answers)
  }

  /**
   The filter.  The loop used the first `used` turns and took the wanted messages `taken`, a prefix
   of those delivered; the handler saw exactly the non-control ones among them, in order; and only
   the last one taken, or the last turn used, ended the run.
   */
  ghost predicate IsRun(script: seq<Receive>, want: Option<nat>, answers: nat -> bool,
                        used: nat, taken: seq<Msg>, o: Outcome)
  {
    && used <= |script|
    && (forall i :: 0 <= i < used - 1 ==> GoesOn(script, want, i))
    && taken <= Delivered(script[..used], want)
    && o.calls == DataOf(taken)
    && (forall k :: 0 <= k < |taken| - 1 ==> !Stops(taken, k, answers))
    && if |taken| > 0 && Stops(taken, |taken| - 1, answers) then
         && used > 0 && |Delivered(script[..used - 1], want)| < |taken|
         && o.result == Finished(false) && o.errorCode == StopCode(taken[|taken| - 1])
       else
         && taken == Delivered(script[..used], want)
         && if used == |script| && (used == 0 || GoesOn(script, want, used - 1)) then
              o.result == Waiting && o.errorCode == 0
            else
              && used > 0 && !GoesOn(script, want, used - 1)
              && (o.result, o.errorCode) == TurnResult(script[used - 1], taken)
  }

  /** The outcome is that of a run over the first `used` turns. */
  ghost predicate RunEnds(script: seq<Receive>, want: Option<nat>, answers: nat -> bool, used: nat, o: Outcome) {
    exists taken :: IsRun(script, want, answers, used, taken, o)
  }

  // ---------------------------------------------------------------- the loop

  lemma DataOfSnoc(msgs: seq<Msg>, m: Msg)
    ensures DataOf(msgs + [m]) == DataOf(msgs) + if m.kind.Data? && !m.interrupted then [m] else []
  {
  }

  lemma MatchingSnoc(msgs: seq<Msg>, i: nat, want: Option<nat>)
    requires i < |msgs|
    ensures Matching(msgs[..i + 1], want)
         == Matching(msgs[..i], want) + if Matches(msgs[i], want) then [msgs[i]] else []
  {
    assert msgs[..i + 1][..i] == msgs[..i];
  }

  /** Whether message k stops the loop depends on the messages up to k only. */
  lemma StopsPrefix(a: seq<Msg>, b: seq<Msg>, k: nat, answers: nat -> bool)
    requires a <= b && k < |a|
    ensures Stops(a, k, answers) == Stops(b, k, answers)
  {
    assert a[..k] == b[..k];
  }

  lemma NoneStopsSnoc(msgs: seq<Msg>, m: Msg, answers: nat -> bool)
    requires NoneStops(msgs, answers)
    ensures forall k :: 0 <= k < |msgs| ==> !Stops(msgs + [m], k, answers)
  {
    forall k | 0 <= k < |msgs| ensures !Stops(msgs + [m], k, answers) {
      StopsPrefix(msgs, msgs + [m], k, answers);
    }
  }

  /** The loop's variables agree with the messages taken so far, none of which stopped it. */
  ghost predicate Tracks(taken: seq<Msg>, answers: nat -> bool, calls: seq<Msg>, cont: bool, rc: bool) {
    NoneStops(taken, answers) && calls == DataOf(taken) && cont == ExpectsMore(taken) && rc == SawAnswer(taken)
  }

  lemma SawAnswerSnoc(msgs: seq<Msg>, m: Msg)
    ensures SawAnswer(msgs + [m]) <==> SawAnswer(msgs) || !m.kind.Noop?
  {
    if SawAnswer(msgs) {
      var k :| 0 <= k < |msgs| && !msgs[k].kind.Noop?;
      assert !(msgs + [m])[k].kind.Noop?;
    }
    assert (msgs + [m])[|msgs|] == m;
  }

  /** The body of the inner loop, for a message with the wanted sequence number. */
  method ProcessMessage(nh: Msg, answers: nat -> bool, calls0: seq<Msg>, cont0: bool, rc0: bool,
                        ghost before: seq<Msg>)
    returns (failed: bool, errorCode: int, calls: seq<Msg>, cont: bool, rc: bool)
    requires Tracks(before, answers, calls0, cont0, rc0)
    ensures calls == DataOf(before + [nh])
    ensures failed <==> LastStops(before + [nh], answers)
    ensures errorCode == if failed then StopCode(nh) else 0
    ensures !failed ==> Tracks(before + [nh], answers, calls, cont, rc)
  {
    assert (before + [nh])[..|before|] == before;
    NoneStopsSnoc(before, nh, answers);
    DataOfSnoc(before, nh);
    SawAnswerSnoc(before, nh);
    failed, errorCode, calls, cont, rc := false, 0, calls0, nh.multi, rc0;
    if nh.interrupted {
      failed, errorCode := true, EINTR;
      return;
    }
    if nh.kind.Done? {
      cont := false;
      rc := true;
      return;
    }
    if nh.kind.Noop? {
      return;
    }
    if nh.kind.Error? {
      if nh.kind.code == 0 {
        rc := true;
        return;
      }
      failed, errorCode := true, -nh.kind.code;
      return;
    }
    calls := calls + [nh];
    if answers(|calls0|) {
      rc := true;
    } else {
      failed := true;
    }
  }

  /**
   The inner loop over one datagram: n of its matching messages are taken, all of them unless one stops
   the loop.  `before` is what earlier datagrams delivered.
   */
  method ProcessDatagram(msgs: seq<Msg>, want: Option<nat>, answers: nat -> bool,
                         calls0: seq<Msg>, cont0: bool, rc0: bool, ghost before: seq<Msg>)
    returns (failed: bool, errorCode: int, calls: seq<Msg>, cont: bool, rc: bool, n: nat)
    requires Tracks(before, answers, calls0, cont0, rc0)
    ensures n <= |Matching(msgs, want)| && calls == DataOf(before + Matching(msgs, want)[..n])
    ensures failed ==> && n > 0 && LastStops(before + Matching(msgs, want)[..n], answers)
                       && errorCode == StopCode(Matching(msgs, want)[n - 1])
    ensures !failed ==> && n == |Matching(msgs, want)| && errorCode == 0
                        && Tracks(before + Matching(msgs, want), answers, calls, cont, rc)
  {
    failed, errorCode, calls, cont, rc, n := false, 0, calls0, cont0, rc0, 0;
    ghost var taken := before;
    for i := 0 to |msgs|
      invariant !failed && errorCode == 0 && n == |Matching(msgs[..i], want)|
      invariant taken == before + Matching(msgs[..i], want) && Tracks(taken, answers, calls, cont, rc)
    {
      var nh := msgs[i];
      MatchingSnoc(msgs, i, want);
      if want.Some? && want.value != nh.seqNo {
        continue;
      }
      TakenPrefix(msgs, i, want);
      failed, errorCode, calls, cont, rc := ProcessMessage(nh, answers, calls, cont, rc, taken);
      taken := taken + [nh];
      n := n + 1;
      if failed {
        assert taken == before + Matching(msgs, want)[..n];
        return;
      }
    }
    assert msgs[..|msgs|] == msgs && Matching(msgs, want)[..n] == Matching(msgs, want);
  }

  /** The messages taken when message i has been are a prefix of all the matching ones. */
  lemma TakenPrefix(msgs: seq<Msg>, i: nat, want: Option<nat>)
    requires i < |msgs| && Matches(msgs[i], want)
    ensures var n := |Matching(msgs[..i], want)|;
            n < |Matching(msgs, want)| && Matching(msgs, want)[..n + 1] == Matching(msgs[..i], want) + [msgs[i]]
  {
    MatchingSnoc(msgs, i, want);
    MatchingPrefix(msgs, i + 1, want);
  }

  lemma {:induction false} MatchingPrefix(msgs: seq<Msg>, i: nat, want: Option<nat>)
    requires i <= |msgs|
    ensures Matching(msgs[..i], want) <= Matching(msgs, want)
    decreases |msgs|
  {
    if i == |msgs| {
      assert msgs[..i] == msgs;
    } else {
      var front := msgs[..|msgs| - 1];
      MatchingPrefix(front, i, want);
      assert front[..i] == msgs[..i];
    }
  }

  lemma DeliveredSnoc(script: seq<Receive>, i: nat, want: Option<nat>)
    requires i < |script|
    ensures Delivered(script[..i + 1], want) == Delivered(script[..i], want)
              + if script[i].Datagram? then Matching(script[i].msgs, want) else []
  {
    assert script[..i + 1][..i] == script[..i];
  }

  /** All turns before turn i go on. */
  ghost predicate Reaches(script: seq<Receive>, want: Option<nat>, i: nat) {
    i <= |script| && forall j :: 0 <= j < i ==> GoesOn(script, want, j)
  }

  /** The outcome when turn i ends the loop after the messages taken. */
  function EndedBy(r: Receive, taken: seq<Msg>): Outcome {
    Outcome(TurnResult(r, taken).0, TurnResult(r, taken).1, DataOf(taken))
  }

  lemma EndedRun(script: seq<Receive>, want: Option<nat>, answers: nat -> bool, i: nat, taken: seq<Msg>)
    requires i < |script| && Reaches(script, want, i) && !GoesOn(script, want, i)
    requires NoneStops(taken, answers) && taken == Delivered(script[..i + 1], want)
    ensures RunEnds(script, want, answers, i + 1, EndedBy(script[i], taken))
  {
    assert IsRun(script, want, answers, i + 1, taken, EndedBy(script[i], taken));
  }

  /** A turn without a datagram that is not an interruption ends the run. */
  lemma FailedTurn(script: seq<Receive>, want: Option<nat>, answers: nat -> bool, i: nat, taken: seq<Msg>)
    requires i < |script| && Reaches(script, want, i) && !script[i].Datagram? && !script[i].Interrupted?
    requires NoneStops(taken, answers) && taken == Delivered(script[..i], want)
    ensures RunEnds(script, want, answers, i + 1,
                    Outcome(Finished(false), if script[i].ReadFails? then script[i].errno else 0, DataOf(taken)))
  {
    DeliveredSnoc(script, i, want);
    assert taken + [] == taken;
    EndedRun(script, want, answers, i, taken);
  }

  /** Once every turn is used and none ended the run, the loop waits. */
  lemma WaitingRun(script: seq<Receive>, want: Option<nat>, answers: nat -> bool, taken: seq<Msg>)
    requires Reaches(script, want, |script|) && NoneStops(taken, answers)
    requires taken == Delivered(script[..|script|], want)
    ensures RunEnds(script, want, answers, |script|, Outcome(Waiting, 0, DataOf(taken)))
  {
    assert IsRun(script, want, answers, |script|, taken, Outcome(Waiting, 0, DataOf(taken)));
  }

  lemma StoppedRun(script: seq<Receive>, want: Option<nat>, answers: nat -> bool, i: nat, n: nat, taken: seq<Msg>)
    requires i < |script| && script[i].Datagram? && Reaches(script, want, i)
    requires 0 < n <= |Matching(script[i].msgs, want)|
    requires taken == Delivered(script[..i], want) + Matching(script[i].msgs, want)[..n]
    requires LastStops(taken, answers)
    ensures RunEnds(script, want, answers, i + 1,
                    Outcome(Finished(false), StopCode(taken[|taken| - 1]), DataOf(taken)))
  {
    DeliveredSnoc(script, i, want);
    assert IsRun(script, want, answers, i + 1, taken,
                 Outcome(Finished(false), StopCode(taken[|taken| - 1]), DataOf(taken)));
  }

  /** A turn that delivers a datagram: the run ends here, or the loop goes on with the next turn. */
  method TakeDatagram(script: seq<Receive>, turn: nat, want: Option<nat>, answers: nat -> bool,
                      calls0: seq<Msg>, cont0: bool, rc0: bool)
    returns (ended: bool, o: Outcome, calls: seq<Msg>, cont: bool, rc: bool)
    requires turn < |script| && script[turn].Datagram? && Reaches(script, want, turn)
    requires Tracks(Delivered(script[..turn], want), answers, calls0, cont0, rc0)
    ensures ended ==> RunEnds(script, want, answers, turn + 1, o)
    ensures !ended ==> && GoesOn(script, want, turn)
                       && Tracks(Delivered(script[..turn + 1], want), answers, calls, cont, rc)
  {
    var Datagram(msgs, truncated, moreReady) := script[turn];
    ghost var before := Delivered(script[..turn], want);
    var failed, errorCode, n;
    failed, errorCode, calls, cont, rc, n := ProcessDatagram(msgs, want, answers, calls0, cont0, rc0, before);
    if failed {
      StoppedRun(script, want, answers, turn, n, before + Matching(msgs, want)[..n]);
      return true, Outcome(Finished(false), errorCode, calls), calls, cont, rc;
    }
    DeliveredSnoc(script, turn, want);
    assert Matching(msgs, want)[..n] == Matching(msgs, want);
    ended := truncated || !cont || !moreReady;
    o := Outcome(Finished(!truncated && !cont && rc), 0, calls);
    if ended {
      EndedRun(script, want, answers, turn, before + Matching(msgs, want));
    }
  }

  /** netlink_tools_process_socket; answers(k) is what the handler returns on its k-th call. */
  method ProcessSocket(script: seq<Receive>, want: Option<nat>, answers: nat -> bool) returns (o: Outcome)
    ensures exists used :: RunEnds(script, want, answers, used, o)
  {
    var calls, cont, rc := [], true, false;
    var turn := 0;
    ghost var before: seq<Msg> := [];
    while turn < |script|
      invariant Reaches(script, want, turn) && before == Delivered(script[..turn], want)
      invariant Tracks(before, answers, calls, cont, rc)
    {
      DeliveredSnoc(script, turn, want);
      if script[turn].Datagram? {
        var ended;
        ended, o, calls, cont, rc := TakeDatagram(script, turn, want, answers, calls, cont, rc);
        if ended {
          return;
        }
      } else {
        if !script[turn].Interrupted? {
          FailedTurn(script, want, answers, turn, before);
          o := Outcome(Finished(false), if script[turn].ReadFails? then script[turn].errno else 0, calls);
          return;
        }
      }
      assert before + [] == before;
      turn := turn + 1;
      before := Delivered(script[..turn], want);
    }
    o := Outcome(Waiting, 0, calls);
    WaitingRun(script, want, answers, before);
  }

  // ---------------------------------------------------------------- what a result means

  lemma {:induction false} DataOfInside(msgs: seq<Msg>)
    ensures forall m :: m in DataOf(msgs) ==> m in msgs && m.kind.Data? && !m.interrupted
  {
    if msgs != [] {
      DataOfInside(msgs[..|msgs| - 1]);
    }
  }

  /**
   A true result: nothing taken carried a non-zero error or an interrupted-dump flag, the handler
   accepted every call, every wanted message of the turns used was taken, and the last of them
   ended the exchange.
   */
  lemma TrueResultIsClean(script: seq<Receive>, want: Option<nat>, answers: nat -> bool,
                          used: nat, taken: seq<Msg>, o: Outcome)
    requires IsRun(script, want, answers, used, taken, o) && o.result == Finished(true)
    ensures taken == Delivered(script[..used], want) && o.errorCode == 0
    ensures forall k :: 0 <= k < |taken| ==>
      !taken[k].interrupted && (taken[k].kind.Error? ==> taken[k].kind.code == 0)
    ensures forall k :: 0 <= k < |taken| && taken[k].kind.Data? ==> answers(|DataOf(taken[..k])|)
    ensures SawAnswer(taken) && !ExpectsMore(taken)
  {
    forall k | 0 <= k < |taken|
      ensures !taken[k].interrupted && (taken[k].kind.Error? ==> taken[k].kind.code == 0)
      ensures taken[k].kind.Data? ==> answers(|DataOf(taken[..k])|)
    {
      assert !Stops(taken, k, answers);
    }
  }

  /** Message k is no reason to give up, said by its flags and kind. */
  predicate FineAt(msgs: seq<Msg>, k: nat, answers: nat -> bool)
    requires k < |msgs|
  {
    && !msgs[k].interrupted
    && (msgs[k].kind.Error? ==> msgs[k].kind.code == 0)
    && (msgs[k].kind.Data? ==> answers(|DataOf(msgs[..k])|))
  }

  ghost predicate AllFine(msgs: seq<Msg>, answers: nat -> bool) {
    forall k :: 0 <= k < |msgs| ==> FineAt(msgs, k, answers)
  }

  lemma NoneStopsMeaning(msgs: seq<Msg>, answers: nat -> bool)
    ensures NoneStops(msgs, answers) <==> AllFine(msgs, answers)
  {
    assert forall k :: 0 <= k < |msgs| ==> (FineAt(msgs, k, answers) <==> !Stops(msgs, k, answers));
  }

  /**
   When a run succeeds, in terms of flags and kinds alone: its last turn is a whole datagram, every
   wanted message of its turns was taken and none was bad, the last one ends the exchange, being a
   DONE or no part of a multipart message, and some message was an answer.
   */
  lemma TrueIffComplete(script: seq<Receive>, want: Option<nat>, answers: nat -> bool,
                        used: nat, taken: seq<Msg>, o: Outcome)
    requires IsRun(script, want, answers, used, taken, o)
    ensures o.result == Finished(true) <==>
      && used > 0 && script[used - 1].Datagram? && !script[used - 1].truncated
      && taken == Delivered(script[..used], want) && AllFine(taken, answers)
      && taken != [] && (taken[|taken| - 1].kind.Done? || !taken[|taken| - 1].multi)
      && (exists k :: 0 <= k < |taken| && taken[k].kind != Noop)
  {
    NoneStopsMeaning(taken, answers);
    assert |taken| > 0 && !Stops(taken, |taken| - 1, answers) ==> NoneStops(taken, answers);
  }

  /** What the error code of a failed run says, and which kind of end it was. */
  lemma ErrorCodeMeaning(script: seq<Receive>, want: Option<nat>, answers: nat -> bool,
                         used: nat, taken: seq<Msg>, o: Outcome)
    requires IsRun(script, want, answers, used, taken, o)
    ensures !AllFine(taken, answers) ==>
      var last := taken[|taken| - 1];
      o.errorCode == if last.interrupted then 4 else if last.kind.Error? then -last.kind.code else 0
    ensures AllFine(taken, answers) ==>
      o.errorCode == if o.result != Waiting && script[used - 1].ReadFails? then script[used - 1].errno else 0
  {
    NoneStopsMeaning(taken, answers);
    assert |taken| > 0 && !Stops(taken, |taken| - 1, answers) ==> NoneStops(taken, answers);
  }

  /** After turn i the loop wants another: an interruption, or a whole datagram that leaves more to come. */
  predicate Continues(script: seq<Receive>, want: Option<nat>, i: nat)
    requires i < |script|
  {
    var seen := Delivered(script[..i + 1], want);
    || script[i] == Interrupted
    || (&& script[i].Datagram? && !script[i].truncated && script[i].moreReady
        && (seen == [] || (seen[|seen| - 1].multi && seen[|seen| - 1].kind != Done)))
  }

  /**
   When a run ends: every turn before its last one continues; without a bad message the last one does
   not, unless every turn is used up and the loop waits.
   */
  lemma EndsWhenNothingContinues(script: seq<Receive>, want: Option<nat>, answers: nat -> bool,
                                 used: nat, taken: seq<Msg>, o: Outcome)
    requires IsRun(script, want, answers, used, taken, o)
    ensures used <= |script| && forall i :: 0 <= i < used - 1 ==> Continues(script, want, i)
    ensures o.result == Waiting <==>
      && used == |script| && taken == Delivered(script, want) && AllFine(taken, answers)
      && forall i :: 0 <= i < used ==> Continues(script, want, i)
    ensures AllFine(taken, answers) && o.result != Waiting ==> used > 0 && !Continues(script, want, used - 1)
  {
    NoneStopsMeaning(taken, answers);
    assert |taken| > 0 && !Stops(taken, |taken| - 1, answers) ==> NoneStops(taken, answers);
    assert forall i :: 0 <= i < |script| ==> (Continues(script, want, i) <==> GoesOn(script, want, i));
    assert script[..|script|] == script;
  }

  /** The handler sees the plain messages of what was taken: each as often as it is there, and no other. */
  lemma {:induction false} CallsAreTheData(msgs: seq<Msg>, m: Msg)
    ensures multiset(DataOf(msgs))[m] == if m.kind.Data? && !m.interrupted then multiset(msgs)[m] else 0
  {
    if msgs != [] {
      var front, last := msgs[..|msgs| - 1], msgs[|msgs| - 1];
      assert msgs == front + [last];
      CallsAreTheData(front, m);
    }
  }

  /** And in the order they came: what was handed over for a part is a prefix of what is for the whole. */
  lemma {:induction false} CallsKeepOrder(msgs: seq<Msg>, i: nat)
    requires i <= |msgs|
    ensures DataOf(msgs[..i]) <= DataOf(msgs)
  {
    if i == |msgs| {
      assert msgs[..i] == msgs;
    } else {
      assert msgs[..|msgs| - 1][..i] == msgs[..i];
      CallsKeepOrder(msgs[..|msgs| - 1], i);
    }
  }

  /** The wanted messages are those with the sequence number, all of them when none is given. */
  lemma {:induction false} MatchingAreTheWanted(msgs: seq<Msg>, want: Option<nat>, m: Msg)
    ensures multiset(Matching(msgs, want))[m]
         == if want == None || want == Some(m.seqNo) then multiset(msgs)[m] else 0
  {
    if msgs != [] {
      var front, last := msgs[..|msgs| - 1], msgs[|msgs| - 1];
      assert msgs == front + [last];
      MatchingAreTheWanted(front, want, m);
    }
  }

  lemma {:induction false} DeliveredGrows(script: seq<Receive>, i: nat, j: nat, want: Option<nat>)
    requires i <= j <= |script|
    ensures Delivered(script[..i], want) <= Delivered(script[..j], want)
    decreases j - i
  {
    if i < j {
      DeliveredGrows(script, i, j - 1, want);
      DeliveredSnoc(script, j - 1, want);
    }
  }

  /** Two runs cannot take different messages: the shorter one would have had to go on. */
  lemma RunsTakeTheSame(script: seq<Receive>, want: Option<nat>, answers: nat -> bool,
                        u1: nat, t1: seq<Msg>, o1: Outcome, u2: nat, t2: seq<Msg>, o2: Outcome)
    requires IsRun(script, want, answers, u1, t1, o1) && IsRun(script, want, answers, u2, t2, o2)
    requires u1 <= u2 && (u1 == u2 ==> |t1| <= |t2|)
    ensures u1 == u2 && t1 == t2
  {
    var d1, d2 := Delivered(script[..u1], want), Delivered(script[..u2], want);
    DeliveredGrows(script, u1, u2, want);
    if u1 < u2 {
      DeliveredGrows(script, u1, u2 - 1, want);
    }
    var last := |t1| - 1;
    if |t1| > 0 && Stops(t1, last, answers) {
      if |t1| <= |t2| {
        assert t1 <= t2;
        StopsPrefix(t1, t2, last, answers);
      }
    }
  }

  /** The filter determines the run: script, sequence number and handler fix result, error and calls. */
  lemma RunIsDetermined(script: seq<Receive>, want: Option<nat>, answers: nat -> bool,
                        u1: nat, t1: seq<Msg>, o1: Outcome, u2: nat, t2: seq<Msg>, o2: Outcome)
    requires IsRun(script, want, answers, u1, t1, o1) && IsRun(script, want, answers, u2, t2, o2)
    ensures u1 == u2 && t1 == t2 && o1 == o2
  {
    if u1 < u2 || (u1 == u2 && |t1| <= |t2|) {
      RunsTakeTheSame(script, want, answers, u1, t1, o1, u2, t2, o2);
    } else {
      RunsTakeTheSame(script, want, answers, u2, t2, o2, u1, t1, o1);
    }
  }
}
