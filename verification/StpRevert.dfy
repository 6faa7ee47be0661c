/**
 The spanning-tree state cache of src/nas_os_stg.cpp and the revert of kernel drift in
 src/if/os_interface_stg.cpp, as interleaved atomic steps: application updates and the two locked
 halves of the netlink thread's revert, against a kernel that drifts and refuses as it likes.
 */
module StpRevert {
  import opened Wrappers
  import PendingMac

  type Port = int

  /** uint8_t. */
  type State = s: nat | s < 0x100

  /** os_stp_state_frwd. */
  const FORWARDING: State := 3

  /** Where an update is aimed: attributes missing, a port that is not a VLAN member, or an interface. */
  datatype Target = Missing | NotMember | Interface(port: Port)

  /** An update request; fromKernel marks the netlink thread's reverts. */
  datatype Request = Request(target: Target, state: nat, fromKernel: bool)

  datatype Status = Ok | Failed

  /** A successful kernel write and who made it. */
  datatype Write = Write(port: Port, state: State, revert: bool)

  /** A netlink notification: the kernel reports a port in a state. */
  datatype Event = Event(port: Port, state: State)

  /**
   The shared state: the cache, the kernel's states, the notifications not yet handled, the revert
   the netlink thread has decided on but not yet made, and the history of successful writes.
   */
  datatype World = World(
    cache: map<Port, State>,
    kernel: map<Port, State>,
    events: seq<Event>,
    pending: Option<Event>,
    history: seq<Write>
  )

  /** uint8_t state: the requested value is cut to one byte. */
  function StateByte(s: nat): State { s % 0x100 }

  /** The guard under the lock: this request goes to the kernel. */
  predicate Writes(cache: map<Port, State>, r: Request) {
    && r.target.Interface?
    && (r.target.port in cache ==>
          if r.fromKernel then StateByte(r.state) == cache[r.target.port]
          else StateByte(r.state) != cache[r.target.port])
  }

  /** nl_int_update_stp_state, all of it under the lock; accepted is the kernel's answer. */
  function Updated(w: World, r: Request, accepted: bool): (World, Status) {
    if r.target.Missing? then (w, Failed)
    else if !Writes(w.cache, r) then (w, Ok)
    else if !accepted then (w, Failed)
    else
      var p, s := r.target.port, StateByte(r.state);
      var history := w.history + [Write(p, s, r.fromKernel)];
      (w.(kernel := w.kernel[p := s], cache := w.cache[p := s], history := history), Ok)
  }

  /** The request the netlink handler builds for a cached state. */
  function RevertRequest(e: Event): Request { Request(Interface(e.port), e.state, true) }

  /** The cache and the kernel as the C++ code holds them. */
  class StpTable {
    var cache: map<Port, State>
    var kernel: map<Port, State>
    var history: seq<Write>

    constructor (kernel: map<Port, State>)
      ensures cache == map[] && this.kernel == kernel && history == []
    {
      this.cache, this.kernel, this.history := map[], kernel, [];
    }

    /** The table seen as a world in which nothing is under way. */
    ghost function View(): World
      reads this
    {
      World(cache, kernel, [], None, history)
    }

    /** get_if_stp_state. */
    method GetState(port: Port) returns (s: Option<State>)
      ensures s == if port in cache then Some(cache[port]) else None
    {
      if port in cache {
        return Some(cache[port]);
      }
      return None;
    }

    /** nl_int_update_stp_state. */
    method Update(r: Request, accepted: bool) returns (rc: Status)
      modifies this
      ensures (View(), rc) == Updated(old(View()), r, accepted)
    {
      if r.target.Missing? {
        return Failed;
      }
      if r.target.NotMember? {
        return Ok;
      }
      var port, state := r.target.port, r.state % 0x100;
      if port in cache {
        if r.fromKernel {
          if state != cache[port] {
            return Ok;
          }
        } else if state == cache[port] {
          return Ok;
        }
      }
      if !accepted {
        return Failed;
      }
      kernel := kernel[port := state];
      history := history + [Write(port, state, r.fromKernel)];
      cache := cache[port := state];
      return Ok;
    }

    /**
     The handler of one notification with nobody in between: the cache never changes, nothing but
     the port itself is touched, and a drifted port ends in its cached state when the kernel
     accepts the write.  It is the two steps Observe and Revert run one after the other.  A port that
     is forwarding is queued for its pending MACs when there are any.
     */
    method HandleNotification(port: Port, state: State, accepted: bool, macs: PendingMac.PendingMacs)
      modifies this, macs`queue
      ensures View() == Handled(old(View()), Event(port, state), accepted)
      ensures cache == old(cache)
      ensures forall q :: q != port && q in old(kernel) ==> q in kernel && kernel[q] == old(kernel[q])
      ensures port in cache && state != cache[port] && accepted ==> port in kernel && kernel[port] == cache[port]
      ensures port !in cache || state == cache[port] || !accepted ==> kernel == old(kernel)
      ensures macs.queue == old(macs.queue) + if state == 3 && port in macs.byPort then [port] else []
    {
      var cached := GetState(port);
      if cached.Some? && state != cached.value {
        var rc := Update(RevertRequest(Event(port, cached.value)), accepted);
      }
      if state == FORWARDING {
        macs.AddPendingPort(port);
      }
    }
  }

  // ---------------------------------------------------------------- interleavings

  /**
   One atomic step.  The kernel may report a write it accepted (`notified`), and it may drift by
   itself, which it always reports.  Observe is the netlink thread reading the cache for the oldest
   notification; Revert is its later attempt to write what it read.
   */
  datatype Step =
    | App(target: Target, state: nat, accepted: bool, notified: bool)
    | Drift(port: Port, to: State)
    | Observe
    | Revert(accepted: bool, notified: bool)

  predicate Enabled(w: World, step: Step) {
    match step
    case Observe => w.pending == None && w.events != []
    case Revert(_, _) => w.pending != None
    case _ => true
  }

  /** The notification, if any, of a write the kernel accepted. */
  function Notify(before: World, after: World, notified: bool): seq<Event> {
    if notified && |after.history| > |before.history| then
      var last := after.history[|after.history| - 1];
      [Event(last.port, last.state)]
    else []
  }

  function Next(w: World, step: Step): World
    requires Enabled(w, step)
  {
    match step
    case App(target, state, accepted, notified) =>
      var v := Updated(w, Request(target, state, false), accepted).0;
      v.(events := v.events + Notify(w, v, notified))
    case Drift(port, to) =>
      w.(kernel := w.kernel[port := to], events := w.events + [Event(port, to)])
    case Observe =>
      var e := w.events[0];
      var drifted := e.port in w.cache && e.state != w.cache[e.port];
      w.(events := w.events[1..], pending := if drifted then Some(Event(e.port, w.cache[e.port])) else None)
    case Revert(accepted, notified) =>
      var v := Updated(w, RevertRequest(w.pending.value), accepted).0;
      v.(pending := None, events := v.events + Notify(w, v, notified))
  }

  /** One notification handled with no other step in between. */
  function Handled(w: World, e: Event, accepted: bool): World
    requires w.pending == None
  {
    var v := Next(w.(events := [e]), Observe);
    if v.pending == None then v else Next(v, Revert(accepted, false))
  }

  /** The state after a whole run, when every step of it was possible. */
  function Run(w: World, steps: seq<Step>): Option<World> {
    if steps == [] then Some(w)
    else
      match Run(w, steps[..|steps| - 1])
      case None => None
      case Some(v) => if Enabled(v, steps[|steps| - 1]) then Some(Next(v, steps[|steps| - 1])) else None
  }

  predicate Initial(w: World) {
    w.cache == map[] && w.events == [] && w.pending == None && w.history == []
  }

  /** The state the application last wrote to a port, read off the history alone. */
  function LastApp(history: seq<Write>, port: Port): Option<State> {
    if history == [] then None
    else
      var last := history[|history| - 1];
      if last.port == port && !last.revert then Some(last.state)
      else LastApp(history[..|history| - 1], port)
  }

  /** Every revert in the history wrote exactly what the application had last written to the port. */
  ghost predicate RevertsFollowTheApplication(history: seq<Write>) {
    forall k :: 0 <= k < |history| && history[k].revert ==>
      LastApp(history[..k], history[k].port) == Some(history[k].state)
  }

  /**
   What every step keeps: the cache holds what the application last wrote, a decided revert is
   about a cached port, and reverts follow the application.
   */
  ghost predicate Inv(w: World) {
    && (forall p :: LastApp(w.history, p) == if p in w.cache then Some(w.cache[p]) else None)
    && (forall p :: p in w.cache ==> p in w.kernel)
    && (w.pending.Some? ==> w.pending.value.port in w.cache)
    && RevertsFollowTheApplication(w.history)
  }

  lemma LastAppSnoc(history: seq<Write>, x: Write, port: Port)
    ensures LastApp(history + [x], port)
         == if x.port == port && !x.revert then Some(x.state) else LastApp(history, port)
  {
  }

  lemma RevertsFollowSnoc(history: seq<Write>, x: Write)
    requires RevertsFollowTheApplication(history)
    requires x.revert ==> LastApp(history, x.port) == Some(x.state)
    ensures RevertsFollowTheApplication(history + [x])
  {
    var all := history + [x];
    forall k | 0 <= k < |all| && all[k].revert
      ensures LastApp(all[..k], all[k].port) == Some(all[k].state)
    {
      assert all[..k] == if k == |history| then history else history[..k];
    }
  }

  lemma UpdateKeepsInv(w: World, r: Request, accepted: bool)
    requires Inv(w) && (r.fromKernel && r.target.Interface? ==> r.target.port in w.cache)
    ensures Inv(Updated(w, r, accepted).0)
    ensures r.fromKernel ==> Updated(w, r, accepted).0.cache == w.cache
  {
    var v := Updated(w, r, accepted).0;
    if v != w {
      var x := Write(r.target.port, StateByte(r.state), r.fromKernel);
      forall p { LastAppSnoc(w.history, x, p); }
      RevertsFollowSnoc(w.history, x);
    }
  }

  lemma StepKeepsInv(w: World, step: Step)
    requires Inv(w) && Enabled(w, step)
    ensures Inv(Next(w, step))
    ensures !step.App? ==> Next(w, step).cache == w.cache
    ensures step.Revert? ==>
      var p := w.pending.value.port; Next(w, step).kernel in {w.kernel, w.kernel[p := w.cache[p]]}
  {
    match step
    case App(target, state, accepted, _) => UpdateKeepsInv(w, Request(target, state, false), accepted);
    case Revert(accepted, _) => UpdateKeepsInv(w, RevertRequest(w.pending.value), accepted);
    case _ =>
  }

  /**
   Race safety over all interleavings: in every run the cache is what the application last wrote,
   only application steps change it, and every revert wrote the state that was then cached.  A
   revert decided before a newer application update therefore never overwrites it.
   */
  lemma {:induction false} RunsAreSafe(w: World, steps: seq<Step>)
    requires Initial(w) && Run(w, steps).Some?
    ensures Inv(Run(w, steps).value)
    ensures RevertsFollowTheApplication(Run(w, steps).value.history)
  {
    if steps != [] {
      RunsAreSafe(w, steps[..|steps| - 1]);
      StepKeepsInv(Run(w, steps[..|steps| - 1]).value, steps[|steps| - 1]);
    }
  }

  /** The state the application last asked for on a port with the kernel agreeing, read off the steps alone. */
  function LastAsked(steps: seq<Step>, p: Port): Option<nat> {
    if steps == [] then None
    else
      match steps[|steps| - 1]
      case App(Interface(port), state, true, _) =>
        if port == p then Some(state % 256) else LastAsked(steps[..|steps| - 1], p)
      case _ => LastAsked(steps[..|steps| - 1], p)
  }

  /** No accepted request is dropped: over every run the cache holds what was last asked for, on every port. */
  lemma {:induction false} CacheIsLastAsked(w: World, steps: seq<Step>, p: Port)
    requires Initial(w) && Run(w, steps).Some?
    ensures var v := Run(w, steps).value;
            LastAsked(steps, p) == if p in v.cache then Some(v.cache[p]) else None
  {
    if steps != [] {
      CacheIsLastAsked(w, steps[..|steps| - 1], p);
      RunsAreSafe(w, steps[..|steps| - 1]);
      StepKeepsInv(Run(w, steps[..|steps| - 1]).value, steps[|steps| - 1]);
    }
  }

  /**
   An update fails exactly when attributes are missing or the kernel is asked and refuses.  It is asked
   about an interface that is not cached, for a new state, or to restore the cached one.
   */
  lemma StatusMeaning(w: World, r: Request, accepted: bool)
    ensures var status := Updated(w, r, accepted).1;
            status == Failed <==>
              || r.target == Missing
              || (r.target.Interface? && !accepted
                  && (r.target.port !in w.cache || (r.fromKernel <==> w.cache[r.target.port] == r.state % 256)))
  {
  }

  /** A write the kernel accepts and notifies is the newest news; without a notification there is none. */
  lemma NotifiedWritesAreNews(w: World, target: Target, state: nat, accepted: bool, notified: bool)
    ensures var v := Next(w, App(target, state, accepted, notified));
            v.events == w.events +
              if notified && accepted && target.Interface?
                 && (target.port in w.cache ==> w.cache[target.port] != state % 256)
              then [Event(target.port, state % 256)] else []
  {
  }

  // ---------------------------------------------------------------- convergence

  /** A cached port whose kernel state differs still has the news of it in the system. */
  predicate DriftIsKnown(w: World, p: Port) {
    p in w.cache && p in w.kernel && w.kernel[p] != w.cache[p] ==>
      Event(p, w.kernel[p]) in w.events || w.pending == Some(Event(p, w.cache[p]))
  }

  /** The kernel refuses the revert that is the last trace of the port's drift. */
  predicate Forgets(w: World, step: Step, p: Port) {
    && step.Revert? && !step.accepted
    && p in w.cache && p in w.kernel && w.kernel[p] != w.cache[p]
    && w.pending == Some(Event(p, w.cache[p])) && Event(p, w.kernel[p]) !in w.events
  }

  /** The step brings the port back into view: the kernel drifts on it or accepts a write to it. */
  predicate Renews(w: World, step: Step, p: Port)
    requires Enabled(w, step)
  {
    match step
    case App(target, state, accepted, _) =>
      target == Interface(p) && accepted && Writes(w.cache, Request(target, state, false))
    case Drift(port, _) => port == p
    case Observe => false
    case Revert(accepted, _) =>
      w.pending.value.port == p && accepted && Writes(w.cache, RevertRequest(w.pending.value))
  }

  /** Along the run the port's drift was forgotten and nothing has renewed it since. */
  predicate Forgotten(w: World, steps: seq<Step>, p: Port)
    requires Run(w, steps).Some?
  {
    steps != [] &&
    var front, last := steps[..|steps| - 1], steps[|steps| - 1];
    var v := Run(w, front).value;
    Forgets(v, last, p) || (Forgotten(w, front, p) && !Renews(v, last, p))
  }

  /** With the drift of a port known before a step, it is known after it unless the step forgets it. */
  lemma StepForgetsExactly(w: World, step: Step, p: Port)
    requires Inv(w) && Enabled(w, step) && DriftIsKnown(w, p)
    ensures DriftIsKnown(Next(w, step), p) <==> !Forgets(w, step, p)
  {
  }

  /** The state that the newest unhandled notification of a port reports. */
  function LastNews(events: seq<Event>, p: Port): Option<State> {
    if events == [] then None
    else
      var last := events[|events| - 1];
      if last.port == p then Some(last.state) else LastNews(events[..|events| - 1], p)
  }

  /** Notifications are handled in order, so old news of a drifted port never outlives the newest. */
  predicate NewsInOrder(w: World, p: Port) {
    p in w.cache && p in w.kernel && w.kernel[p] != w.cache[p] ==>
      LastNews(w.events, p) in {None, Some(w.kernel[p])}
  }

  lemma LastNewsSnoc(events: seq<Event>, e: Event, p: Port)
    ensures LastNews(events + [e], p) == if e.port == p then Some(e.state) else LastNews(events, p)
  {
  }

  lemma {:induction false} LastNewsTail(events: seq<Event>, p: Port)
    requires events != []
    ensures LastNews(events[1..], p) == LastNews(events, p)
         || (LastNews(events[1..], p) == None && events[0].port == p)
  {
    var last := events[|events| - 1];
    if |events| > 1 && last.port != p {
      LastNewsTail(events[..|events| - 1], p);
      assert events[1..][..|events| - 2] == events[..|events| - 1][1..];
    }
  }

  lemma {:induction false} LastNewsMeaning(events: seq<Event>, p: Port)
    ensures match LastNews(events, p)
            case None => forall e :: e in events ==> e.port != p
            case Some(s) => Event(p, s) in events
  {
    if events != [] {
      var last := events[|events| - 1];
      assert events == events[..|events| - 1] + [last];
      LastNewsMeaning(events[..|events| - 1], p);
    }
  }

  lemma StepKeepsNewsInOrder(w: World, step: Step, p: Port)
    requires Enabled(w, step) && NewsInOrder(w, p)
    ensures NewsInOrder(Next(w, step), p)
  {
    match step
    case Observe => LastNewsTail(w.events, p);
    case Drift(port, to) => LastNewsSnoc(w.events, Event(port, to), p);
    case _ =>
      var v := Next(w, step);
      if v.history != w.history {
        var x := v.history[|w.history|];
        LastNewsSnoc(w.events, Event(x.port, x.state), p);
      }
      assert w.events + [] == w.events;
  }

  /** A forgotten drift stays forgotten until the step that renews it, which makes it known. */
  lemma UnknownUntilRenewed(w: World, step: Step, p: Port)
    requires Enabled(w, step) && NewsInOrder(w, p) && !DriftIsKnown(w, p)
    ensures DriftIsKnown(Next(w, step), p) <==> Renews(w, step, p)
  {
    LastNewsMeaning(w.events, p);
  }

  /** Over all interleavings, the drift of a port is out of sight exactly when the run forgot it. */
  lemma {:induction false} RunsForgetExactly(w: World, steps: seq<Step>, p: Port)
    requires Initial(w) && Run(w, steps).Some?
    ensures NewsInOrder(Run(w, steps).value, p)
    ensures DriftIsKnown(Run(w, steps).value, p) <==> !Forgotten(w, steps, p)
  {
    if steps != [] {
      var front, last := steps[..|steps| - 1], steps[|steps| - 1];
      var v := Run(w, front).value;
      RunsAreSafe(w, front);
      RunsForgetExactly(w, front, p);
      StepKeepsNewsInOrder(v, last, p);
      if DriftIsKnown(v, p) {
        StepForgetsExactly(v, last, p);
      } else {
        UnknownUntilRenewed(v, last, p);
      }
    }
  }

  /**
   Convergence, port by port: whatever the interleaving of updates, drift and reverts, accepted or
   refused, once every notification is handled and no revert is under way, the kernel has the
   application's state on a cached port exactly when the run did not forget a drift of it.
   */
  lemma QuiescentAgreeIffNotForgotten(w: World, steps: seq<Step>, p: Port)
    requires Initial(w) && Run(w, steps).Some?
    requires var v := Run(w, steps).value; v.events == [] && v.pending == None && p in v.cache
    ensures var v := Run(w, steps).value;
            && p in v.kernel && LastApp(v.history, p) == Some(v.cache[p])
            && (v.kernel[p] == v.cache[p] <==> !Forgotten(w, steps, p))
  {
    RunsForgetExactly(w, steps, p);
    RunsAreSafe(w, steps);
  }

  /** A run on which this happens: after it nothing is under way and the kernel stays drifted. */
  lemma RefusedRevertLeavesDrift(w: World)
    requires Initial(w)
    ensures var end := Run(w, [App(Interface(1), 3, true, false), Drift(1, 2), Observe, Revert(false, false)]);
            && end.Some? && end.value.events == [] && end.value.pending == None
            && end.value.cache == map[1 := 3] && 1 in end.value.kernel && end.value.kernel[1] == 2
  {
    var s0, s1, s2, s3 := App(Interface(1), 3, true, false), Drift(1, 2), Observe, Revert(false, false);
    var w1 := w.(cache := map[1 := 3], kernel := w.kernel[1 := 3], history := [Write(1, 3, false)]);
    var w2 := w1.(kernel := w.kernel[1 := 3][1 := 2], events := [Event(1, 2)]);
    var w3 := w2.(events := [], pending := Some(Event(1, 3)));
    assert Next(w, s0) == w1;
    assert Next(w1, s1) == w2;
    assert Next(w2, s2) == w3;
    RunOfFour(w, w1, w2, w3, s0, s1, s2, s3);
  }

  lemma RunOfFour(w: World, w1: World, w2: World, w3: World, s0: Step, s1: Step, s2: Step, s3: Step)
    requires Enabled(w, s0) && Next(w, s0) == w1 && Enabled(w1, s1) && Next(w1, s1) == w2
    requires Enabled(w2, s2) && Next(w2, s2) == w3 && Enabled(w3, s3)
    ensures Run(w, [s0, s1, s2, s3]) == Some(Next(w3, s3))
  {
    assert [s0][..0] == [] && [s0, s1][..1] == [s0];
    assert [s0, s1, s2][..2] == [s0, s1] && [s0, s1, s2, s3][..3] == [s0, s1, s2];
    assert Run(w, [s0]) == Some(w1);
    assert Run(w, [s0, s1]) == Some(w2);
    assert Run(w, [s0, s1, s2]) == Some(w3);
  }
}
