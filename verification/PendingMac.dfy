/**
 The pending dynamic MACs of src/nas_os_mac.cpp: programming requests the kernel refused, kept in a
 map by key and a map by port, and the worker that retries a port's requests.
 */
module PendingMac {
  import opened Wrappers
  import opened MacKeys
  import opened Runs

  type Port = int

  datatype Operation = Create | Set | Delete

  /** _dynamic_mac_list and _port_to_dynamic_mac_list. */
  datatype Cache = Cache(byKey: map<string, Port>, byPort: map<Port, set<string>>) {

    /** The keys waiting for a port; operator[] on an absent port makes an empty set. */
    function At(port: Port): set<string> { if port in byPort then byPort[port] else {} }
  }

  /** The kernel's verdict on one retry, which sees the two parts of the key and the port. */
  type Verdict = (string, string) -> bool

  predicate AcceptedNow(key: string, verdict: Verdict) {
    var t := Tokens(key);
    |t| == 2 && verdict(t[0], t[1])
  }

  /** A refused DELETE or SET first drops the key from where it waits. */
  function Forget(c: Cache, key: string): Cache {
    if key in c.byKey then
      var port := c.byKey[key];
      Cache(c.byKey - {key}, c.byPort[port := c.At(port) - {key}])
    else c
  }

  /** A refused CREATE or SET then waits at the requested port. */
  function Remember(c: Cache, key: string, port: Port): Cache {
    Cache(c.byKey[key := port], c.byPort[port := c.At(port) + {key}])
  }

  /** What a refused request leaves, under the write lock. */
  function AfterRefusal(c: Cache, op: Operation, key: string, port: Port): Cache {
    var c1 := if op.Create? then c else Forget(c, key);
    if op.Delete? then c1 else Remember(c1, key, port)
  }

  /** The keys waiting for a port that the kernel accepts now. */
  function Accepts(c: Cache, port: Port, verdict: Verdict): set<string> {
    set key | key in c.At(port) && AcceptedNow(key, verdict)
  }

  /** What one worker pass over a port leaves, under the write lock. */
  function AfterPass(c: Cache, port: Port, verdict: Verdict): Cache {
    if port !in c.byPort then c
    else
      var gone := Accepts(c, port, verdict);
      Cache(c.byKey - gone,
            if c.byPort[port] == gone then c.byPort - {port} else c.byPort[port := c.byPort[port] - gone])
  }

  lemma NoneLeft(a: set<string>, b: set<string>)
    requires b <= a
    ensures a - b == {} <==> a == b
  {
    assert forall x :: x in a ==> x in b || x in a - b;
  }

  /** Every waiting key was built from a scope and a MAC. */
  ghost predicate KeysBuilt(c: Cache) {
    forall port, key :: port in c.byPort && key in c.byPort[port] ==> IsKey(key)
  }

  ghost predicate IsKey(key: string) { exists scope: Scope, mac: MacText :: key == Key(scope, mac) }

  lemma KeyHasTwoParts(key: string)
    requires IsKey(key)
    ensures |Tokens(key)| == 2 && key == Tokens(key)[0] + "." + Tokens(key)[1]
  {
    var scope: Scope, mac: MacText :| key == Key(scope, mac);
    KeySplits(scope, mac);
  }

  /** The two maps and the queue of ports to retry, as the C++ code holds them. */
  class PendingMacs {
    var byKey: map<string, Port>
    var byPort: map<Port, set<string>>
    var queue: seq<Port>

    constructor ()
      ensures View() == Cache(map[], map[]) && queue == []
    {
      byKey, byPort, queue := map[], map[], [];
    }

    ghost function View(): Cache
      reads this
    {
      Cache(byKey, byPort)
    }

    /**
     The end of nas_os_mac_update_entry: a request the kernel refused changes the cache when the MAC
     is dynamic, may age out and is not the bridge's own; success is reported either way.
     */
    method UpdateEntry(op: Operation, scope: Scope, mac: MacText, port: Port,
                       accepted: bool, isStatic: bool, ageOutDisabled: bool, self: bool)
      modifies this`byKey, this`byPort
      ensures View() == if accepted || isStatic || ageOutDisabled || self then old(View())
                        else AfterRefusal(old(View()), op, Key(scope, mac), port)
      ensures !isStatic && !ageOutDisabled && !self ==>
        var step := if accepted then Accepted(op, scope, mac, port) else Refused(op, scope, mac, port);
        World(View(), queue) == Next(World(old(View()), queue), step)
    {
      var key := Key(scope, mac);
      if !accepted && !isStatic && !ageOutDisabled && !self {
        if op.Delete? || op.Set? {
          if key in byKey {
            var at := byKey[key];
            byPort := byPort[at := (if at in byPort then byPort[at] else {}) - {key}];
            byKey := byKey - {key};
          }
        }
        if !op.Delete? {
          byKey := byKey[key := port];
          byPort := byPort[port := (if port in byPort then byPort[port] else {}) + {key}];
        }
      }
    }

    /** nas_os_mac_add_pending_mac_if_event: a port with an entry is queued for the worker. */
    method AddPendingPort(port: Port)
      modifies this`queue
      ensures queue == old(queue) + if port in byPort then [port] else []
      ensures World(View(), queue) == Next(World(View(), old(queue)), Forwarding(port))
    {
      if port in byPort {
        queue := queue + [port];
      }
    }

    /**
     One turn of nas_os_mac_main for a port taken off the queue.  The iteration order over the port's
     set is not specified; `tried` lists the keys in the order visited.
     */
    method RetryPort(port: Port, verdict: Verdict) returns (tried: seq<string>)
      requires KeysBuilt(View())
      modifies this`byKey, this`byPort
      ensures View() == AfterPass(old(View()), port, verdict)
      ensures forall i, j :: 0 <= i < j < |tried| ==> tried[i] != tried[j]
      ensures forall key :: key in tried <==> key in old(View()).At(port)
    {
      tried := [];
      if port !in byPort {
        return;
      }
      ghost var gone := Accepts(View(), port, verdict);
      assert gone <= byPort[port];
      NoneLeft(byPort[port], gone);
      tried := RetryKeys(port, verdict);
      if byPort[port] == {} {
        byPort := byPort - {port};
      }
    }

    /** One key of the port is retried, and erased from both maps when the kernel accepts it. */
    method RetryKey(port: Port, key: string, verdict: Verdict) returns (ok: bool)
      requires port in byPort && IsKey(key)
      modifies this`byKey, this`byPort
      ensures ok <==> AcceptedNow(key, verdict)
      ensures byKey == if ok then old(byKey) - {key} else old(byKey)
      ensures byPort == if ok then old(byPort)[port := old(byPort[port]) - {key}] else old(byPort)
    {
      KeyHasTwoParts(key);
      var parts := SplitString(key);
      if |parts| != 2 {
        assert false;  // `continue` without advancing: never taken
      }
      ok := verdict(parts[0], parts[1]);
      if ok {
        byPort := byPort[port := byPort[port] - {key}];
        byKey := byKey - {key};
      }
    }

    /** The loop over the keys of one port, which erases as it goes. */
    method RetryKeys(port: Port, verdict: Verdict) returns (tried: seq<string>)
      requires KeysBuilt(View()) && port in byPort
      modifies this`byKey, this`byPort
      ensures var gone := Accepts(old(View()), port, verdict);
              byKey == old(byKey) - gone && byPort == old(byPort)[port := old(byPort[port]) - gone]
      ensures forall i, j :: 0 <= i < j < |tried| ==> tried[i] != tried[j]
      ensures forall key :: key in tried <==> key in old(byPort[port])
    {
      tried := [];
      ghost var before := byPort[port];
      ghost var gone: set<string> := {};
      var todo := byPort[port];
      ghost var byPort0 := byPort;
      while todo != {}
        invariant port in byPort && todo <= before && gone <= before - todo
        invariant forall key :: key in before - todo ==> (key in gone <==> AcceptedNow(key, verdict))
        invariant byKey == old(byKey) - gone && byPort[port] == before - gone
        invariant byPort.Keys == byPort0.Keys && forall q :: q in byPort0 && q != port ==> byPort[q] == byPort0[q]
        invariant forall key :: key in tried <==> key in before - todo
        invariant forall i, j :: 0 <= i < j < |tried| ==> tried[i] != tried[j]
        decreases todo
      {
        var key :| key in todo;
        assert IsKey(key);
        tried := tried + [key];
        todo := todo - {key};
        var ok := RetryKey(port, key, verdict);
        if ok {
          gone := gone + {key};
        }
      }
      assert gone == Accepts(old(View()), port, verdict);
      assert byPort == byPort0[port := before - gone] by {
        assert forall q :: q in byPort ==> byPort[q] == byPort0[port := before - gone][q];
      }
    }
  }

  // ---------------------------------------------------------------- interleavings

  datatype World = World(cache: Cache, queue: seq<Port>)

  /**
   One atomic step: the kernel refuses a request for a dynamic MAC, or accepts one, which leaves the
   cache as it is; a port is reported forwarding; or the worker takes the oldest queued port and
   retries it, against a kernel that accepts what it likes.
   */
  datatype Step =
    | Refused(op: Operation, scope: Scope, mac: MacText, port: Port)
    | Accepted(op: Operation, scope: Scope, mac: MacText, port: Port)
    | Forwarding(port: Port)
    | Work(verdict: Verdict)

  predicate Enabled(w: World, step: Step) { step.Work? ==> w.queue != [] }

  function Next(w: World, step: Step): World
    requires Enabled(w, step)
  {
    match step
    case Refused(op, scope, mac, port) => w.(cache := AfterRefusal(w.cache, op, Key(scope, mac), port))
    case Accepted(_, _, _, _) => w
    case Forwarding(port) => w.(queue := w.queue + if port in w.cache.byPort then [port] else [])
    case Work(verdict) => World(AfterPass(w.cache, w.queue[0], verdict), w.queue[1..])
  }

  /** The worlds along a run: one before the first step and one after each step. */
  predicate IsTrace(ws: seq<World>, steps: seq<Step>) {
    && |ws| == |steps| + 1
    && ws[0] == World(Cache(map[], map[]), [])
    && forall i :: 0 <= i < |steps| ==> Enabled(ws[i], steps[i]) && ws[i + 1] == Next(ws[i], steps[i])
  }

  /** A key mapped to a port waits at that port. */
  ghost predicate Forward(c: Cache) {
    forall key :: key in c.byKey ==> c.byKey[key] in c.byPort && key in c.byPort[c.byKey[key]]
  }

  /** The two maps are inverses of each other. */
  ghost predicate Exact(c: Cache) {
    Forward(c) &&
    forall port, key :: port in c.byPort && key in c.byPort[port] ==> key in c.byKey && c.byKey[key] == port
  }

  /** A refused CREATE of a key that already waits at another port: the old entry is left behind. */
  predicate MovesByCreate(c: Cache, step: Step) {
    step.Refused? && step.op.Create? && Key(step.scope, step.mac) in c.byKey
    && c.byKey[Key(step.scope, step.mac)] != step.port
  }

  lemma RefusalKeepsForward(c: Cache, op: Operation, key: string, port: Port)
    requires Forward(c)
    ensures Forward(AfterRefusal(c, op, key, port))
  {
  }

  lemma PassKeepsForward(c: Cache, port: Port, verdict: Verdict)
    requires Forward(c)
    ensures Forward(AfterPass(c, port, verdict))
  {
  }

  lemma StepKeepsInv(w: World, step: Step)
    requires KeysBuilt(w.cache) && Forward(w.cache) && Enabled(w, step)
    ensures KeysBuilt(Next(w, step).cache) && Forward(Next(w, step).cache)
  {
    match step
    case Refused(op, scope, mac, port) =>
      RefusalKeepsForward(w.cache, op, Key(scope, mac), port);
      assert IsKey(Key(scope, mac));
    case Work(verdict) => PassKeepsForward(w.cache, w.queue[0], verdict);
    case _ =>
  }

  /** In every reachable state every waiting key splits into two parts and is found from its port. */
  lemma {:induction false} RunsKeepInv(ws: seq<World>, steps: seq<Step>, i: nat)
    requires IsTrace(ws, steps) && i < |ws|
    ensures KeysBuilt(ws[i].cache) && Forward(ws[i].cache)
  {
    if i > 0 {
      RunsKeepInv(ws, steps, i - 1);
      StepKeepsInv(ws[i - 1], steps[i - 1]);
    }
  }

  lemma RefusalKeepsExact(c: Cache, op: Operation, key: string, port: Port)
    requires Exact(c)
    ensures Exact(AfterRefusal(c, op, key, port)) <==> !(op.Create? && key in c.byKey && c.byKey[key] != port)
  {
    var v := AfterRefusal(c, op, key, port);
    if op.Create? && key in c.byKey && c.byKey[key] != port {
      var stale := c.byKey[key];
      assert stale in v.byPort && key in v.byPort[stale] && v.byKey[key] != stale;
    } else {
      RefusalKeepsForward(c, op, key, port);
      forall p, k | p in v.byPort && k in v.byPort[p] ensures k in v.byKey && v.byKey[k] == p {
        assert k in c.At(p) || (k == key && p == port);
      }
    }
  }

  lemma PassKeepsExact(c: Cache, port: Port, verdict: Verdict)
    requires Exact(c)
    ensures Exact(AfterPass(c, port, verdict))
  {
  }

  /** The maps stay inverse exactly as long as no refused CREATE moves a waiting key to another port. */
  lemma ExactIffNoCreateMoves(w: World, step: Step)
    requires Exact(w.cache) && Enabled(w, step)
    ensures Exact(Next(w, step).cache) <==> !MovesByCreate(w.cache, step)
  {
    match step
    case Refused(op, scope, mac, port) => RefusalKeepsExact(w.cache, op, Key(scope, mac), port);
    case Work(verdict) => PassKeepsExact(w.cache, w.queue[0], verdict);
    case _ =>
  }

  /** A request for one scope and MAC leaves the entries of every other one as they are. */
  lemma OthersUntouched(c: Cache, op: Operation, s: Scope, m: MacText, port: Port, t: Scope, n: MacText)
    requires s != t || m != n
    ensures var v, key := AfterRefusal(c, op, Key(s, m), port), Key(t, n);
            && (key in v.byKey <==> key in c.byKey) && (key in c.byKey ==> v.byKey[key] == c.byKey[key])
            && forall p :: key in v.At(p) <==> key in c.At(p)
  {
    KeysDiffer(s, m, t, n);
  }

  // ---------------------------------------------------------------- the single-map view

  /**
   The cache as one map from waiting key to port: a refused DELETE removes a key, a refused CREATE or
   SET sets it, and a worker turn removes exactly the keys of its port that the kernel accepts.
   */
  function Waiting(m: map<string, Port>, queue: seq<Port>, step: Step): map<string, Port>
    requires step.Work? ==> queue != []
  {
    match step
    case Refused(op, scope, mac, port) =>
      if op.Delete? then m - {Key(scope, mac)} else m[Key(scope, mac) := port]
    case Accepted(_, _, _, _) => m
    case Forwarding(_) => m
    case Work(verdict) => map key | key in m && !(m[key] == queue[0] && AcceptedNow(key, verdict)) :: m[key]
  }

  lemma ExactStepIsOneMap(w: World, step: Step)
    requires Exact(w.cache) && Enabled(w, step)
    ensures Next(w, step).cache.byKey == Waiting(w.cache.byKey, w.queue, step)
  {
  }

  /** What waits after i steps of a run, computed without the map by port. */
  function WaitingAfter(ws: seq<World>, steps: seq<Step>, i: nat): map<string, Port>
    requires IsTrace(ws, steps) && i < |ws|
  {
    if i == 0 then map[] else Waiting(WaitingAfter(ws, steps, i - 1), ws[i - 1].queue, steps[i - 1])
  }

  /**
   No pending MAC is lost.  On every run without a create-move the two maps are inverses at all
   times and together are the single map of what waits: a key leaves it only by a kernel accept
   on retry or by a refused DELETE.
   */
  lemma {:induction false} RunsRefineOneMap(ws: seq<World>, steps: seq<Step>, i: nat)
    requires IsTrace(ws, steps) && i < |ws|
    requires forall j :: 0 <= j < i ==> !MovesByCreate(ws[j].cache, steps[j])
    ensures Exact(ws[i].cache) && ws[i].cache.byKey == WaitingAfter(ws, steps, i)
  {
    if i > 0 {
      RunsRefineOneMap(ws, steps, i - 1);
      ExactIffNoCreateMoves(ws[i - 1], steps[i - 1]);
      ExactStepIsOneMap(ws[i - 1], steps[i - 1]);
    }
  }

  // ---------------------------------------------------------------- what ought to wait

  /** The latest request for a key along a run, refused or accepted. */
  function LatestRequest(steps: seq<Step>, key: string): Option<Step> {
    if steps == [] then None
    else
      var last := steps[|steps| - 1];
      if (last.Refused? || last.Accepted?) && Key(last.scope, last.mac) == key then Some(last)
      else LatestRequest(steps[..|steps| - 1], key)
  }

  /** The latest request for the key asked for it at this port and was refused. */
  predicate Owed(steps: seq<Step>, key: string, port: Port) {
    var latest := LatestRequest(steps, key);
    latest.Some? && latest.value.Refused? && !latest.value.op.Delete? && latest.value.port == port
  }

  /** The worker would only program what the application still wants. */
  ghost predicate OnlyOwedWait(c: Cache, steps: seq<Step>) {
    forall port, key :: port in c.byPort && key in c.byPort[port] ==> Owed(steps, key, port)
  }

  /** An accepted request names a key that waits; the entry stays. */
  predicate OvertakesWaiting(c: Cache, step: Step) {
    step.Accepted? && Key(step.scope, step.mac) in c.byKey
  }

  lemma LatestRequestSnoc(steps: seq<Step>, step: Step, key: string)
    ensures LatestRequest(steps + [step], key) ==
            if (step.Refused? || step.Accepted?) && Key(step.scope, step.mac) == key then Some(step)
            else LatestRequest(steps, key)
  {
  }

  lemma StepKeepsOwed(w: World, steps: seq<Step>, step: Step)
    requires Exact(w.cache) && OnlyOwedWait(w.cache, steps) && Enabled(w, step)
    requires !MovesByCreate(w.cache, step) && !OvertakesWaiting(w.cache, step)
    ensures OnlyOwedWait(Next(w, step).cache, steps + [step])
  {
    var v := Next(w, step).cache;
    forall port, key | port in v.byPort && key in v.byPort[port] ensures Owed(steps + [step], key, port) {
      LatestRequestSnoc(steps, step, key);
      assert key in w.cache.At(port) || (step.Refused? && key == Key(step.scope, step.mac) && port == step.port);
    }
  }

  lemma OvertakenIsNotOwed(w: World, steps: seq<Step>, step: Step)
    requires Exact(w.cache) && OvertakesWaiting(w.cache, step)
    ensures !OnlyOwedWait(Next(w, step).cache, steps + [step])
  {
    var key := Key(step.scope, step.mac);
    LatestRequestSnoc(steps, step, key);
    assert key in w.cache.byPort[w.cache.byKey[key]] && !Owed(steps + [step], key, w.cache.byKey[key]);
  }

  /** After i steps of a run the maps are inverses and hold only what is owed. */
  ghost predicate InOrderAt(ws: seq<World>, steps: seq<Step>, i: nat)
    requires i < |ws| && i <= |steps|
  {
    Exact(ws[i].cache) && OnlyOwedWait(ws[i].cache, steps[..i])
  }

  predicate DisturbsAt(ws: seq<World>, steps: seq<Step>, i: nat)
    requires i < |ws| && i < |steps|
  {
    MovesByCreate(ws[i].cache, steps[i]) || OvertakesWaiting(ws[i].cache, steps[i])
  }

  lemma InOrderStep(ws: seq<World>, steps: seq<Step>, i: nat)
    requires IsTrace(ws, steps) && i < |steps| && InOrderAt(ws, steps, i)
    ensures InOrderAt(ws, steps, i + 1) <==> !DisturbsAt(ws, steps, i)
  {
    assert steps[..i + 1] == steps[..i] + [steps[i]];
    ExactIffNoCreateMoves(ws[i], steps[i]);
    if OvertakesWaiting(ws[i].cache, steps[i]) {
      OvertakenIsNotOwed(ws[i], steps[..i], steps[i]);
    } else if !MovesByCreate(ws[i].cache, steps[i]) {
      StepKeepsOwed(ws[i], steps[..i], steps[i]);
    }
  }

  /**
   Over every run: at all times the maps are inverses and every key waiting at a port is one whose
   latest request was refused there, if and only if no refused CREATE moves a waiting key and no
   accepted request names one.
   */
  lemma InOrderIffUndisturbed(ws: seq<World>, steps: seq<Step>)
    requires IsTrace(ws, steps)
    ensures (forall i :: 0 <= i <= |steps| ==> InOrderAt(ws, steps, i))
       <==> (forall i :: 0 <= i < |steps| ==> !DisturbsAt(ws, steps, i))
  {
    var n := |steps|;
    var inOrder := seq(n + 1, i requires 0 <= i <= n => InOrderAt(ws, steps, i));
    var disturbs := seq(n, i requires 0 <= i < n => DisturbsAt(ws, steps, i));
    forall i | 0 <= i < n && inOrder[i] ensures inOrder[i + 1] <==> !disturbs[i] {
      InOrderStep(ws, steps, i);
    }
    HoldsUntilBroken(inOrder, disturbs);
    assert forall i :: 0 <= i <= n ==> inOrder[i] == InOrderAt(ws, steps, i);
    assert forall i :: 0 <= i < n ==> disturbs[i] == DisturbsAt(ws, steps, i);
  }

  /** A stale retry: after an accepted DELETE of a waiting key the worker still programs the MAC. */
  lemma DeletedKeyIsRetried(scope: Scope, mac: MacText, p: Port, verdict: Verdict)
    requires verdict(ScopeText(scope), mac)
    ensures var w := Next(World(Cache(map[], map[]), []), Refused(Create, scope, mac, p));
            var v := Next(w, Accepted(Delete, scope, mac, p));
            Key(scope, mac) in Accepts(v.cache, p, verdict)
  {
    KeySplits(scope, mac);
  }

  /** The kernel is asked about the scope and the MAC that the key was built from. */
  lemma AcceptedMeaning(scope: Scope, mac: MacText, verdict: Verdict)
    ensures AcceptedNow(Key(scope, mac), verdict) <==> verdict(ScopeText(scope), mac)
  {
    KeySplits(scope, mac);
  }

  /** A worker turn leaves exactly the refused keys of its port and touches no other port or key. */
  lemma PassLeavesTheRefused(c: Cache, port: Port, verdict: Verdict)
    requires Exact(c)
    ensures var v := AfterPass(c, port, verdict);
            && v.At(port) == (set key | key in c.At(port) && !AcceptedNow(key, verdict))
            && (forall q :: q != port ==> v.At(q) == c.At(q))
            && (forall key :: key in c.byKey && c.byKey[key] != port ==> key in v.byKey && v.byKey[key] == c.byKey[key])
            && (v.At(port) == {} ==> port !in v.byPort)
            && (forall scope: Scope, mac: MacText ::
                  Key(scope, mac) in v.At(port) <==>
                  Key(scope, mac) in c.At(port) && !verdict(ScopeText(scope), mac))
  {
    var gone := Accepts(c, port, verdict);
    forall scope: Scope, mac: MacText
      ensures AcceptedNow(Key(scope, mac), verdict) <==> verdict(ScopeText(scope), mac)
    {
      AcceptedMeaning(scope, mac, verdict);
    }
    assert gone <= c.At(port);
    NoneLeft(c.At(port), gone);
  }

  // ---------------------------------------------------------------- the queue

  /** How many of the steps from i on and before j are worker turns. */
  function Turns(steps: seq<Step>, i: nat, j: nat): nat
    requires i <= j <= |steps|
    decreases j
  {
    if i == j then 0 else Turns(steps, i, j - 1) + if steps[j - 1].Work? then 1 else 0
  }

  /** A queued port moves up by one with every worker turn and is overtaken by none. */
  lemma {:induction false} QueueMovesUp(ws: seq<World>, steps: seq<Step>, i: nat, j: nat, k: nat)
    requires IsTrace(ws, steps) && i <= j <= |steps|
    requires k < |ws[i].queue| && Turns(steps, i, j) <= k
    ensures k - Turns(steps, i, j) < |ws[j].queue| && ws[j].queue[k - Turns(steps, i, j)] == ws[i].queue[k]
    decreases j
  {
    if i < j {
      QueueMovesUp(ws, steps, i, j - 1, k);
      assert Enabled(ws[j - 1], steps[j - 1]) && ws[j] == Next(ws[j - 1], steps[j - 1]);
    }
  }

  /**
   Every port reported forwarding while keys wait for it is served: with k ports queued before it, the
   worker turn after k others is its own, whatever happens in between, and leaves exactly the keys
   then refused.
   */
  lemma QueuedPortIsServed(ws: seq<World>, steps: seq<Step>, i: nat, j: nat)
    requires IsTrace(ws, steps) && i < j < |steps|
    requires steps[i].Forwarding? && steps[i].port in ws[i].cache.byPort
    requires steps[j].Work? && Turns(steps, i + 1, j) == |ws[i].queue|
    ensures ws[j].queue != [] && ws[j].queue[0] == steps[i].port
    ensures ws[j + 1].cache == AfterPass(ws[j].cache, steps[i].port, steps[j].verdict)
  {
    assert ws[i + 1] == Next(ws[i], steps[i]) && ws[j + 1] == Next(ws[j], steps[j]);
    QueueMovesUp(ws, steps, i + 1, j, |ws[i].queue|);
  }

  /**
   The create-move is a real loss.  After refused CREATEs of one key at two ports a refused DELETE
   finds only the second, so the first port still waits to program a MAC that was deleted.
   */
  lemma MovedKeyOutlivesDelete(scope: Scope, mac: MacText, p: Port, q: Port, verdict: Verdict)
    requires p != q && verdict(ScopeText(scope), mac)
    ensures var key := Key(scope, mac);
            var c1 := AfterRefusal(Cache(map[], map[]), Create, key, p);
            var c2 := AfterRefusal(c1, Create, key, q);
            var c3 := AfterRefusal(c2, Delete, key, q);
            key !in c3.byKey && key in c3.At(p) && key in Accepts(c3, p, verdict)
  {
    KeySplits(scope, mac);
  }
}
