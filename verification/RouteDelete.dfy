/**
 The send loop at the end of nas_os_update_route (src/nas_os_l3.c): one request, or up to 256
 deletes of an IPv6 route, against a kernel that answers as it likes.
 */
module RouteDelete {

  /** MAX_NL_NH_ECMP_COUNT. */
  const MAX_REQUESTS := 256

  /** The error code of one request: none, ESRCH, EEXIST, ENOENT or any other. */
  datatype Reply = Accepted | Esrch | Eexist | Enoent | Refused {
    /** The replies that end a repeated delete. */
    predicate EndsRepeat() { Esrch? || Eexist? || Enoent? }
  }

  /** A local publish towards the route's consumers. */
  datatype Publish = RouteDeleted | RouteAdded

  /** The publish, if any, that a reply causes. */
  function PublishFor(r: Reply): seq<Publish> {
    if r.Esrch? then [RouteDeleted] else if r.Eexist? then [RouteAdded] else []
  }

  /**
   What a finished loop has done.  A repeated delete stopped at the first ESRCH, EEXIST or ENOENT,
   or after 256 requests; any other request was sent once, and an IPv4 route that existed was then
   replaced with one more request.
   */
  ghost predicate Completed(replies: nat -> Reply, ipv4: bool, repeat: bool,
                            success: bool, sent: nat, published: seq<Publish>)
  {
    if repeat then
      && 1 <= sent <= MAX_REQUESTS
      && (forall k: nat :: k < sent - 1 ==> !replies(k).EndsRepeat())
      && (sent == MAX_REQUESTS || replies(sent - 1).EndsRepeat())
      && (success <==> !replies(sent - 1).Refused?)
      && published == PublishFor(replies(sent - 1))
    else
      && sent == (if replies(0).Eexist? && ipv4 then 2 else 1)
      && (success <==> replies(0).Accepted? || replies(0).Esrch? || replies(0).Eexist?)
      && published == PublishFor(replies(0))
  }

  /** The do-while loop; replies(k) is the kernel's answer to the k-th request. */
  method SendRequests(replies: nat -> Reply, ipv4: bool, repeat: bool)
    returns (success: bool, sent: nat, published: seq<Publish>)
    requires repeat ==> !ipv4
    ensures Completed(replies, ipv4, repeat, success, sent, published)
  {
    var again := repeat;
    var count: int := if repeat then MAX_REQUESTS else 0;
    success, sent, published := false, 0, [];
    var more := true;
    while more
      invariant !more ==> Completed(replies, ipv4, repeat, success, sent, published)
      invariant more ==>
        && again == repeat && published == []
        && count == (if repeat then MAX_REQUESTS else 0) - sent
        && (if repeat then sent < MAX_REQUESTS else sent == 0)
        && (forall k: nat :: k < sent ==> !replies(k).EndsRepeat())
      decreases more, MAX_REQUESTS - sent
    {
      var reply := replies(sent);
      sent := sent + 1;
      count := count - 1;
      success := reply.Accepted?;
      if reply.Esrch? || reply.Eexist? {
        published := published + PublishFor(reply);
        if reply.Eexist? && ipv4 {
          sent := sent + 1;  // the replace request; its result is overwritten below
        }
        success := true;
        again := false;
      } else if again && reply.Enoent? {
        success := true;
        again := false;
      }
      more := again && count > 0;
    }
  }

  /** The next hops left in a kernel that started with n and removed one per accepted delete. */
  function HopsLeft(n: nat, requests: nat): nat { if requests < n then n - requests else 0 }

  /** The reply of that kernel to the k-th delete: it removes a next hop, or answers that there is none. */
  function OneHopPerDelete(n: nat, none: Reply, k: nat): Reply { if HopsLeft(n, k) > 0 then Accepted else none }

  /**
   Deleting an IPv6 route with n next hops from a kernel that removes one per request and answers
   ESRCH or ENOENT when none is left: success is always reported; the route is gone exactly when
   n <= 256; and the deletion is published locally exactly when n < 256 and the answer was ESRCH.
   */
  method DeleteV6Route(n: nat, none: Reply) returns (success: bool, sent: nat, published: seq<Publish>)
    requires none == Esrch || none == Enoent
    ensures sent == if n < MAX_REQUESTS then n + 1 else MAX_REQUESTS
    ensures HopsLeft(n, sent) == if n <= MAX_REQUESTS then 0 else n - MAX_REQUESTS
    ensures success
    ensures published == if n < MAX_REQUESTS && none == Esrch then [RouteDeleted] else []
  {
    var replies := (k: nat) => OneHopPerDelete(n, none, k);
    success, sent, published := SendRequests(replies, false, true);
    assert replies(n).EndsRepeat();
  }

  /**
   A request that is sent once.  Success is reported for a route that is already there or already
   gone, and published; an IPv4 route that is there is replaced by a second request, whose answer
   does not matter.
   */
  method SendOnce(first: Reply, second: Reply, ipv4: bool)
    returns (success: bool, sent: nat, published: seq<Publish>)
    ensures success <==> first !in {Enoent, Refused}
    ensures sent == if first == Eexist && ipv4 then 2 else 1
    ensures published == if first == Esrch then [RouteDeleted] else if first == Eexist then [RouteAdded] else []
  {
    var replies := (k: nat) => if k == 0 then first else second;
    success, sent, published := SendRequests(replies, ipv4, false);
  }

  /** A kernel that refuses every delete is asked 256 times before the failure is reported. */
  method DeleteRefused() returns (success: bool, sent: nat, published: seq<Publish>)
    ensures !success && sent == 256 && published == []
  {
    var replies := (k: nat) => Refused;
    success, sent, published := SendRequests(replies, false, true);
    assert !replies(sent - 1).EndsRepeat();
  }
}
