# A verified model of opx-nas-linux

This project models the parts of opx-nas-linux that keep state or speak a binary format, and proves
what they promise over all inputs, runs and interleavings. `dafny verify dfyconfig.toml` checks it.

- **Netlink codec.** `Wire`, `Attributes`, `AttributeTree` and `MessageBuffer`: the attribute walk on
  arbitrary bytes, nla_parse's table, and the builder with its back-patched nests in one fixed buffer.
  The layout is that of section 2.2 of RFC 3549. A tree written by the builder reads back exactly
  when every attribute length fits its 16-bit field, which in a buffer below 65536 bytes is always.
- **Multipath routes.** `Multipath` encodes a next-hop list as nas_os_update_route does, ignored
  return codes included; `RouteDecoder` reads it back as nl_to_route_info does. The round trip holds
  exactly up to the number of next hops whose gateways fit the 8192-byte buffer. `RouteDelete` is
  the request loop behind it.
- **Response loop.** `ProcessSocket` shows that netlink_tools_process_socket is a filter over what a
  socket delivers, and that the filter determines result, error code and handler calls.
- **Cache against kernel.** `StpRevert` interleaves application updates, kernel drift and the two
  locked halves of a revert; `MacKeys` and `PendingMac` model the pending dynamic MACs, their
  worker and its queue.
- **Identifiers.** `IdGenerator` refines a set of live ids with least-free allocation; `IdRanges` is
  its range printer.
- **Membership, cache, counters.** `Members`, `BridgeMembers`, `BondMembers`, `InterfaceCache`,
  `EventCounters` and the receive loop in `EventBatches` that drives them. `Runs` holds the one lemma
  about runs they share.

Where the C, C++ or Python code updates something in place, a class with the same fields does too,
and each method is proved against a function of the old state; runs and interleavings are then
lemmas over those functions.

## Properties that fail, and when they hold

- Attribute lengths over 65535 are truncated, and such a tree never reads back
  (`RoundTripIffLengthsFit`); a payload of 65532 bytes is the shortest that is lost
  (`TruncatedLeafIsLost`). No buffer that the builder writes into is that large, they have at most
  10000 bytes: there every tree reads back (`SmallBufferRoundTrip`).
- The result of adding a next hop's gateway is not looked at. A multipath message silently loses the
  gateways behind the 509th IPv4 or 290th IPv6 next hop (`RoundTripIffGatewaysFit`,
  `LastGatewayIsLost`), and behind the 510th or 292nd the failed reservation is written through
  (`EncodeRoute`, outcome `NullWrite`).
- Deleting an IPv6 route with more than 256 next hops reports success with next hops left
  (`DeleteV6Route`). When the kernel refuses to replace an IPv4 route that is already there, success is
  reported all the same (`SendOnce`).
- A revert the kernel refuses is forgotten when it was the last trace of the port's drift. A cached
  port then stays apart from the kernel until it drifts or is written again, and in no other case
  (`QuiescentAgreeIffNotForgotten`, `RefusedRevertLeavesDrift`).
- A refused CREATE of a MAC already pending at another port leaves the old entry behind
  (`ExactIffNoCreateMoves`, `MovedKeyOutlivesDelete`), and an accepted request leaves the entry of a
  MAC that still waits, so that the worker programs it again, even after a DELETE
  (`InOrderIffUndisturbed`, `DeletedKeyIsRetried`).
- After exhaustion a release does not make an id available again: in Python 2 no number is smaller
  than None (`FailsIffEverFull`, `FreeIdRefused`).
- A generator with only a maximum, and that below the default minimum 1, hands out an id above it. A
  handed-out id is in range exactly when the range is not empty (`GetNewId`, `EmptyRangeIssues`).
- Two bridge members with the same port share one VLAN pair, which the first deletion removes
  (`ReportedIffPairNotShared`, `SharedPairIsForgotten`); a deletion whose name does not resolve
  leaves its pair behind (`WitnessedIffNotStranded`, `UnresolvedDeleteStrands`).
- A slave that joins a second bond without leaving the first stays in a member set that the slave
  map does not name, for good (`RunsExactIffLeftFirst`, `MovedSlaveStays`).
- OS_IF_MASTER_CHANGE is the admin bit and the MAC bit together, so the mask alone does not tell them
  apart (`MaskMeaning`, `MasksCollide`).
- The name index is never told of a new name. An interface deleted under another name than the one it
  was first seen with is still found under that one, and a name that two interfaces are first seen
  under finds only the second (`IndexExactIffNothingBreaks`, `RenamedInterfaceStays`).
- An update that changes a MAC to zero and nothing else goes unreported, and the observer keeps the
  old one (`MacDiffersIffHidden`).
- RTM_DELNETCONF is dispatched and counted in no class (`ClassMeaning`).
- Accepted multicast database messages are received without being published or invalid
  (`BalancedIffNoQuietMessages`, `QuietMessageUnbalances`).
- A datagram cut short by an interrupted dump, an error or a refused message leaves its dispatched
  messages out of num_events_rcvd, and so does a dump response (`ReceivedIffNothingUnbatched`,
  `CutDatagramIsNotReceived`).

## Model

| member | source | states |
|---|---|---|
| Attributes.NlaParse | src/netlink_tools.c:48-63 | nla_parse over any bytes fills each slot below max_type with the result of walking to the end: `Slot` |
| Attributes.TypeIsLowBits | inc/opx/private/nas_nlmsg.h:166-186 | the type of an attribute is the low 14 bits of its type field, whatever the two flag bits are |
| Attributes.SlotIsLastVisited | src/netlink_tools.c:48-63 | a slot holds the last attribute of its masked type that the walk visits, or nothing |
| Attributes.LastOfTypeMeaning | src/netlink_tools.c:48-54 | what that last attribute is, by quantifiers: it is visited, has the type, and no later one has it |
| Attributes.VisitsLieInside | inc/opx/private/nas_nlmsg.h:108-149 | on arbitrary bytes every visited attribute, header and payload, lies inside the given length |
| Attributes.VisitsTileTheInput | inc/opx/private/nas_nlmsg.h:108-149 | each visited attribute starts where the one before, rounded up, ends; the walk stops only where nla_ok refuses |
| AttributeTree.RoundTripIffLengthsFit | inc/opx/private/nas_nlmsg.h:108-222 | a written attribute tree of any depth reads back (types masked, payloads exact, order kept) if and only if every attribute length fits 16 bits |
| AttributeTree.ReadableReadsBack | inc/opx/private/nas_nlmsg.h:142-222 | the forward half: nested walks return the tree that was written |
| AttributeTree.ReadBackTreeFits | inc/opx/private/nas_nlmsg.h:120-186 | the backward half: a tree whose truncated lengths still read back had no length over 65535 |
| AttributeTree.SmallBufferRoundTrip | src/netlink_tools.c:374-398 | in a buffer below 65536 bytes every written tree reads back, with no condition on it |
| AttributeTree.PlainTreeReadsBack | inc/opx/private/nas_nlmsg.h:166-222 | and a tree whose types have no flag bits reads back as itself |
| AttributeTree.TruncatedLeafIsLost | src/netlink_tools.c:391-398 | a concrete input: a payload of 65532 bytes is written with length 0 and the walk returns nothing |
| AttributeTree.DecodedTreeIsNoLarger | inc/opx/private/nas_nlmsg.h:108-149 | whatever the bytes, the tree read from a range takes no more words than the range |
| AttributeTree.TopLevelIsVisited | inc/opx/private/nas_nlmsg.h:142-222 | on any bytes, the types of the tree's top level are those nla_for_each_attr visits, in order |
| AttributeTree.SlotFindsLastNode | src/netlink_tools.c:48-63 | nla_parse on a written tree: a slot is empty exactly when the top level lacks the type, and else points at the last such attribute, with the payload or the inner attributes that were written |
| AttributeTree.WrittenFrame | src/netlink_tools.c:374-398 | a written tree survives every later write outside its own bytes, so back-patching and appending are safe |
| MessageBuffer.Message.Reserve | src/netlink_tools.c:374-381 | nlmsg_reserve: the old length rounded up is the address and both lengths rounded up the new length, or NULL and no change exactly when that does not fit |
| MessageBuffer.Message.AddAttr | src/netlink_tools.c:391-398 | nlmsg_add_attr: header and payload at the old tail and not one other byte changed, or -1 and no change |
| MessageBuffer.Message.NestedStart | src/netlink_tools.c:383-385 | nlmsg_nested_start reserves exactly one header |
| MessageBuffer.Message.NestedEnd | src/netlink_tools.c:387-389 | nlmsg_nested_end changes only the two length bytes, to the 16-bit truncation of the distance to the tail |
| MessageBuffer.Message.BuildForest | src/netlink_tools.c:374-398 | any tree built through these calls succeeds exactly when it fits, keeps the bytes before it and ends up written, whatever the buffer held |
| MessageBuffer.NestClosed | src/netlink_tools.c:387-389 | the back-patch completes the nest's header without touching its type or its inner attributes |
| Multipath.EncodeRoute | src/nas_os_l3.c:791-878 | the multipath encoder: built, refused or NULL write exactly by hop count and hop contents; with at most 256 next hops it is built and 40+16n or 52+28n bytes long |
| Multipath.EncodeHop | src/nas_os_l3.c:797-877 | one next hop: reserve, clear, gateway, interface, weight and exact rtnh_len; outcome by position and contents; everything before it unchanged |
| Multipath.EncodePreamble | src/nas_os_l3.c:615-668 | both headers and RTA_DST always fit and the nest is opened behind them |
| Multipath.HopBuilt | src/nas_os_l3.c:797-877 | the writes of one iteration leave a complete next hop with its exact 16-bit length |
| Multipath.HopLayout | src/nas_os_l3.c:797-877 | the bytes of a written next hop one by one: length, flags, hops, interface and the gateway attribute, from the request and numbers alone |
| Multipath.PreambleLayout | src/nas_os_l3.c:615-668 | the bytes before the next hops: RTA_DST with the prefix and the RTA_MULTIPATH header |
| Multipath.RouteClosed | src/nas_os_l3.c:878 | closing the nest stores its exact length and keeps every next hop |
| RouteDecoder.DecodeHops | src/db_linux_route.c:375-438 | the decoder's loop on any bytes returns `HopsRead` and a hop count equal to its length |
| RouteDecoder.DecodeRoute | src/db_linux_route.c:181-445 | length guard, nla_parse and the multipath walk give `RouteHops` on any bytes |
| RouteDecoder.RouteHopsMeaning | src/db_linux_route.c:181-238 | on any bytes: too short below 28 bytes, single path without an attribute of type 9, else the next hops of the last one |
| RouteDecoder.HopReadMeaning | src/db_linux_route.c:375-438 | on any bytes: interface, weight and on-link flag of a next hop by their offsets |
| RouteDecoder.GatewayMeaning | src/db_linux_route.c:405-418 | on any bytes: the gateway is the payload of the next hop's last attribute of type 5 |
| RouteDecoder.SlotInside | src/db_linux_route.c:411-418 | an attribute found through a table lies inside the walked bytes, so its payload can be read |
| RouteDecoder.HopReadsBack | inc/opx/private/nas_nlmsg.h:224-240 | a written next hop passes RTNH_OK, is read back field by field and stepped over exactly |
| RouteDecoder.MultipathFound | src/db_linux_route.c:229-238 | in a built message nla_parse finds RTA_DST and RTA_MULTIPATH where the encoder put them |
| RouteDecoder.RouteReadsBack | src/db_linux_route.c:375-445 | every built message decodes, count and order included, to the requested interfaces, weights mod 256, on-link flags and gateways, less the gateways there was no room for |
| RouteDecoder.RequestReadsBack | src/db_linux_route.c:375-445 | the same field by field in terms of the request alone: each decoded interface, weight mod 256, on-link flag and gateway |
| RouteDecoder.RoundTripIffGatewaysFit | src/nas_os_l3.c:791-878 | the decoded list is the requested list if and only if there are at most 509 (IPv4) or 290 (IPv6) next hops |
| RouteDecoder.LastGatewayIsLost | src/nas_os_l3.c:791-878 | in any built message of 510 equal IPv4 next hops the last gateway is not read back |
| RouteDelete.SendRequests | src/nas_os_l3.c:879-956 | the do-while loop against any kernel: how many requests, where it stops, its result and its publishes |
| RouteDelete.DeleteV6Route | src/nas_os_l3.c:879-956 | against a kernel that drops one next hop per delete: min(n+1,256) requests, max(0,n-256) next hops left, success, one local delete exactly when n < 256 and the last answer was ESRCH, not ENOENT |
| RouteDelete.SendOnce | src/nas_os_l3.c:892-956 | any other request: one or, for an IPv4 route that exists, two requests; success and publish by the first answer alone |
| RouteDelete.DeleteRefused | src/nas_os_l3.c:892-956 | a kernel that refuses is asked 256 times before the failure is reported |
| ProcessSocket.ProcessSocket | src/netlink_tools.c:184-327 | every run over any received turns is a run of the filter `IsRun`: handler calls, result and error code |
| ProcessSocket.ProcessDatagram | src/netlink_tools.c:254-308 | the inner loop takes a datagram's matching messages in order up to the first that stops it |
| ProcessSocket.ProcessMessage | src/netlink_tools.c:265-307 | one message: stop, error code, handler call, and the loop's cont and rc as functions of all messages so far |
| ProcessSocket.TrueResultIsClean | src/netlink_tools.c:270-326 | a true result: no taken message carried an error or an interrupted-dump flag, every handler call succeeded, nothing of the turns used was skipped |
| ProcessSocket.TrueIffComplete | src/netlink_tools.c:265-326 | the result is true if and only if the last turn was a whole datagram, every wanted message was taken and good, the last is a DONE or not multipart, and one was an answer; in flags and kinds alone |
| ProcessSocket.ErrorCodeMeaning | src/netlink_tools.c:270-308 | the error code of each kind of end |
| ProcessSocket.EndsWhenNothingContinues | src/netlink_tools.c:202-326 | when the loop takes another turn, waits or ends |
| ProcessSocket.CallsAreTheData | src/netlink_tools.c:265-307 | the handler sees each plain message taken as often as it was delivered, and no other |
| ProcessSocket.CallsKeepOrder | src/netlink_tools.c:265-307 | and in the order of delivery |
| ProcessSocket.MatchingAreTheWanted | src/netlink_tools.c:257-264 | wanted are the messages with the sequence number, all when none is given |
| ProcessSocket.RunIsDetermined | src/netlink_tools.c:202-326 | the filter fixes turns used, messages taken, handler calls, result and error code uniquely |
| StpRevert.StpTable.Update | src/nas_os_stg.cpp:75-185 | nl_int_update_stp_state: guards, kernel write, cache write and status are `Updated` |
| StpRevert.CacheIsLastAsked | src/nas_os_stg.cpp:113-169 | over all interleavings the cache holds the state last asked for with the kernel agreeing, read off the steps alone: no request is dropped |
| StpRevert.StatusMeaning | src/nas_os_stg.cpp:87-161 | when an update reports failure |
| StpRevert.StpTable.GetState | src/nas_os_stg.cpp:49-57 | get_if_stp_state |
| StpRevert.StpTable.HandleNotification | src/if/os_interface_stg.cpp:74-121 | a drifted cached port ends in its cached state when the write is accepted; the cache and all other ports are untouched; it is the steps Observe and Revert in a row; a forwarding port with pending MACs is queued for them |
| StpRevert.StepKeepsInv | src/nas_os_stg.cpp:113-169 | every atomic step keeps the invariant; only the application changes the cache; a revert writes the cached state or nothing |
| StpRevert.RunsAreSafe | src/nas_os_stg.cpp:117-135 | over all interleavings every revert wrote what the application had last written: a stale revert never overwrites a newer update |
| StpRevert.StepForgetsExactly | src/nas_os_stg.cpp:113-169 | a known drift of a port is known after a step unless and only unless the kernel refuses the revert that is its last trace |
| StpRevert.UnknownUntilRenewed | src/nas_os_stg.cpp:113-169 | a forgotten drift stays forgotten until the port drifts again or is written |
| StpRevert.RunsForgetExactly | src/if/os_interface_stg.cpp:87-113 | over all interleavings a port's drift is out of sight exactly when the run forgot it, and notifications never overtake each other |
| StpRevert.QuiescentAgreeIffNotForgotten | src/if/os_interface_stg.cpp:83-113 | when all notifications are handled and no revert is pending, the kernel has the application's state on a cached port if and only if the run did not forget a drift of it, whatever was refused elsewhere |
| StpRevert.RefusedRevertLeavesDrift | src/if/os_interface_stg.cpp:105-109 | a concrete run on which a refused revert leaves kernel and cache apart with nothing left to do |
| MacKeys.SplitString | src/nas_os_mac.cpp:106-113 | nas_mac_split_string returns the getline tokens |
| MacKeys.TokensMeaning | src/nas_os_mac.cpp:106-113 | no token has a dot, and joining the tokens of any text with dots gives it back up to one dot at its end |
| MacKeys.SplitJoined | src/nas_os_mac.cpp:106-113 | joining two dot-free parts and splitting gives the two parts back if and only if the second is not empty |
| MacKeys.KeySplits | src/nas_os_mac.cpp:383-415 | every key the cache builds splits into its scope and its MAC, so the worker's skip branch is never taken |
| MacKeys.KeysDiffer | src/nas_os_mac.cpp:383-415 | two keys are equal if and only if scope and MAC are |
| MacKeys.DecimalMeaning | src/nas_os_mac.cpp:383 | the printed number, read as decimal digits, is the number |
| MacKeys.KeyTexts | src/nas_os_mac.cpp:383-415 | the key texts of a VLAN and of an interface |
| PendingMac.PendingMacs.UpdateEntry | src/nas_os_mac.cpp:462-496 | what a refused or accepted request leaves in the two maps |
| PendingMac.OthersUntouched | src/nas_os_mac.cpp:462-496 | a request for one scope and MAC leaves the entries of every other one as they are |
| PendingMac.AcceptedMeaning | src/nas_os_mac.cpp:213-224 | a retry asks the kernel about the scope and MAC the key was built from |
| PendingMac.PendingMacs.RetryPort | src/nas_os_mac.cpp:207-234 | one worker turn visits every pending key of the port exactly once and leaves `AfterPass` |
| PendingMac.PendingMacs.AddPendingPort | src/nas_os_mac.cpp:238-249 | a forwarding port is queued exactly when it has an entry |
| PendingMac.RunsKeepInv | src/nas_os_mac.cpp:207-234 | in every reachable state a key mapped to a port waits at that port, and every waiting key splits in two |
| PendingMac.ExactIffNoCreateMoves | src/nas_os_mac.cpp:478-489 | the two maps stay inverse if and only if the step is not a refused CREATE of a key waiting at another port |
| PendingMac.RunsRefineOneMap | src/nas_os_mac.cpp:200-236 | on every run, accepted requests included, without such a step the two maps are one map of what waits: a key leaves it only by an accept on retry or a refused DELETE |
| PendingMac.InOrderIffUndisturbed | src/nas_os_mac.cpp:462-496 | over every run, at all times the maps are inverse and every waiting key's latest request was refused at its port, if and only if no refused CREATE moves a waiting key and no accepted request names one |
| PendingMac.DeletedKeyIsRetried | src/nas_os_mac.cpp:462-496 | after an accepted DELETE of a waiting key the worker still programs the MAC |
| PendingMac.QueuedPortIsServed | src/nas_os_mac.cpp:200-249 | a forwarding port queued behind k others gets the worker turn after k turns, whatever happens in between, and is left with the keys then refused |
| PendingMac.PassLeavesTheRefused | src/nas_os_mac.cpp:213-233 | a worker turn leaves exactly the refused keys of its port and touches no other port or key |
| PendingMac.MovedKeyOutlivesDelete | src/nas_os_mac.cpp:478-489 | after a create-move a refused DELETE leaves the key waiting at the first port, where it is still programmed |
| IdGenerator.IdGenerator.GetNewId | scripts/lib/python/dn_base_id_tool.py:83-95 | get_new_id refines least-free allocation over the set of live ids; the id is in range exactly when the range is not empty |
| IdGenerator.IdGenerator.ReleaseId | scripts/lib/python/dn_base_id_tool.py:97-116 | release_id refines removal; next id and cached maximum are re-established |
| IdGenerator.IdGenerator.ReserveId | scripts/lib/python/dn_base_id_tool.py:121-137 | reserve_id succeeds exactly on a free id in range |
| IdGenerator.IdGenerator.GetNextAvailId | scripts/lib/python/dn_base_id_tool.py:72-81 | get_next_avail_id finds the least free id, or None exactly when the range is full |
| IdGenerator.IdGenerator.Create | scripts/lib/python/dn_base_id_tool.py:25-37 | __init__: ValueError exactly when both bounds are given and not in order |
| IdGenerator.NoIdIssuedTwice | scripts/lib/python/dn_base_id_tool.py:83-137 | on every run no id is issued or reserved twice without a release in between |
| IdGenerator.IssuesLeastFree | scripts/lib/python/dn_base_id_tool.py:83-95 | every issued id is the least one that no client holds, counted from the results alone |
| IdGenerator.LiveIsHeld | scripts/lib/python/dn_base_id_tool.py:83-137 | the reserved set is what the clients hold according to the results |
| IdGenerator.FailsIffEverFull | scripts/lib/python/dn_base_id_tool.py:72-104 | allocation fails if and only if at some earlier moment the whole range was held |
| IdGenerator.FreeIdRefused | scripts/lib/python/dn_base_id_tool.py:97-105 | a concrete run on which a released id is refused after exhaustion |
| IdGenerator.EmptyRangeIssues | scripts/lib/python/dn_base_id_tool.py:25-37 | a concrete run on which the first id is above the maximum |
| IdGenerator.AnswersAreRight | scripts/lib/python/dn_base_id_tool.py:118-119 | on every run is_id_used answers what the clients hold according to the results |
| IdGenerator.ResultsAreRight | scripts/lib/python/dn_base_id_tool.py:97-137 | on every run release_id succeeds exactly on a held id, reserve_id on a free one in range |
| IdRanges.WriteRanges | scripts/lib/python/dn_base_id_tool.py:47-67 | the ranges printed for the reserved ids cover exactly those ids, in ascending order, each range maximal |
| IdRanges.RangesDeterminedByIds | scripts/lib/python/dn_base_id_tool.py:47-67 | two maximal range lists covering the same ids are equal: the printed form is canonical |
| Members.MemberData.Add | src/if/os_interface_cache.cpp:224-235 | member_add |
| Members.MemberData.Del | src/if/os_interface_cache.cpp:237-248 | member_del, and whether the member was there |
| BridgeMembers.Bridges.Handle | src/if/os_interface_bridge.cpp:138-227 | the bridge handler leaves `After`: which set and which VLAN pair each event changes; false exactly for a tagged member that is a duplicate or denied; when the event becomes a created or deleted port |
| BridgeMembers.MembersAfter | src/if/os_interface_bridge.cpp:138-227 | who is a tagged or untagged member after an event, by the event's own fields |
| BridgeMembers.Bridges.AddMember | src/if/os_interface_bridge.cpp:105-136 | a duplicate or a membership the kernel denies changes nothing; otherwise set and relation both grow |
| BridgeMembers.Bridges.UpdateVlanInfo | src/if/os_interface_bridge.cpp:56-103 | the relation after an add or delete, an unresolved name included |
| BridgeMembers.RunsKeepDisjoint | src/if/os_interface_bridge.cpp:105-174 | over every run no interface is both tagged and untagged in a bridge and no empty VLAN set is stored |
| BridgeMembers.RunsKeepWitnesses | src/if/os_interface_bridge.cpp:47-136 | over every run with working lookups each reported (port, VLAN) pair has a member to show for it |
| BridgeMembers.WitnessedIffNotStranded | src/if/os_interface_bridge.cpp:60-70 | each pair keeps a member to show for it if and only if the event does not delete the pair's last tagged member with a name that does not resolve |
| BridgeMembers.UnresolvedDeleteStrands | src/if/os_interface_bridge.cpp:60-70 | a concrete run after which a port without members is reported |
| BridgeMembers.ReportedIffPairNotShared | src/if/os_interface_bridge.cpp:91-101 | every member stays reported if and only if the event deletes no member that shares port and bridge with another and adds none whose name does not resolve; all conditions on the state before |
| BridgeMembers.RunsExactIffNothingBreaks | src/if/os_interface_bridge.cpp:47-136 | over every run the relation is exact at all times if and only if none of these events occurs |
| BridgeMembers.QueryIsExact | src/if/os_interface_bridge.cpp:47-55 | on such a run nas_os_is_port_part_of_vlan is true exactly when a member is there to show for it |
| BridgeMembers.SharedPairIsForgotten | src/if/os_interface_bridge.cpp:91-101 | a concrete run on which an untagged member is no longer reported |
| BondMembers.Bonds.Handle | src/if/os_interface_lag.cpp:73-162 | the slave branches leave `After` and so, after any calls, `Run`; which bond lost its last member; when the event becomes a LAG create or delete and when it fails |
| BondMembers.MembersAfter | src/if/os_interface_lag.cpp:93-121 | who is in a bond after an event, by the event's own fields |
| BondMembers.RunsKeepForward | inc/opx/private/os_if_utils.h:110-138 | over every run a slave's recorded master has it as a member |
| BondMembers.ExactIffLeftFirst | inc/opx/private/os_if_utils.h:116-124 | the two maps stay inverse if and only if no slave joins a bond while recorded in another |
| BondMembers.RunsExactIffLeftFirst | src/if/os_interface_lag.cpp:93-121 | over every run the maps are inverses at the end if and only if each slave left before it joined elsewhere |
| BondMembers.AtMostOneMaster | inc/opx/private/os_if_utils.h:130-138 | inverse maps give a slave at most one master and bond_master_get returns it |
| BondMembers.MovedSlaveStays | src/if/os_interface_lag.cpp:112-121 | a slave that moved without leaving cannot be removed from its second bond |
| InterfaceCache.InterfaceTable.Update | src/if/os_interface_cache.cpp:24-73 | if_info_update stores the update field by field, returns the change mask and leaves cache and name index as the run so far determines them |
| InterfaceCache.InterfaceTable.Delete | src/if/os_interface_cache.cpp:186-200 | if_info_delete |
| InterfaceCache.InterfaceTable.IndexFromName | src/if/os_interface_cache.cpp:202-214 | get_ifindex_from_name: after any run in which no event spoiled the index, it returns the cached interface first seen under the name, and for a non-empty name fails exactly when none is cached |
| InterfaceCache.MaskMeaning | src/if/os_interface_cache.cpp:42-69 | when the mask is zero and what each of its four bits means, the admin and MAC bits being shared with the master bit pattern |
| InterfaceCache.FirstSightMeaning | src/if/os_interface_cache.cpp:30-37 | the first sight of an interface raises every bit |
| InterfaceCache.MasksCollide | src/if/os_interface_cache.cpp:42-69 | two different updates of one entry with the same mask |
| InterfaceCache.ObserverAgrees | src/if/os_interface_cache.cpp:24-73 | over every run an observer of non-zero updates agrees with the cache, the MAC excepted while the cached one is zero |
| InterfaceCache.MacDiffersIffHidden | src/if/os_interface_cache.cpp:61-69 | over every run the observer's MAC of a cached interface differs if and only if an unreported zero MAC is the latest news of it |
| InterfaceCache.IndexExactIffNothingBreaks | src/if/os_interface_cache.cpp:24-37 | over every run the name index is exact at all times if and only if no interface is first seen under a taken name and none is deleted under a name that is not its stored one |
| InterfaceCache.DeleteSpoils | src/if/os_interface_cache.cpp:186-200 | which deletions keep an exact index exact, in terms of the index and the stored names before |
| InterfaceCache.UpdateSpoils | src/if/os_interface_cache.cpp:32-37 | which updates do |
| InterfaceCache.FixedNamesSpoilNothing | src/if/os_interface_cache.cpp:24-37 | runs where each interface keeps one name of its own are among these |
| InterfaceCache.RenamedInterfaceStays | src/if/os_interface_cache.cpp:186-200 | a concrete run after which a name finds an interface that is no longer cached |
| EventCounters.Counters.GetNetlinkData | src/net_main.cpp:200-305 | the counter calls of the dispatcher around one message are `Dispatched`, for known and unknown sockets |
| EventCounters.Counters.Count | src/netlink_stats.cpp:163-249 | the four per-class counter functions |
| EventCounters.ClassMeaning | src/netlink_stats.cpp:31-47 | which message types each class counts, by the kernel's numbering |
| EventCounters.Counters.UpdateBatch | src/netlink_stats.cpp:255-280 | nas_nl_stats_update |
| EventCounters.Counters.Reset | src/netlink_stats.cpp:85-113 | nas_nl_stats_reset |
| EventCounters.Counters.Init | src/netlink_stats.cpp:287-302 | nas_nl_stats_init refuses a known socket |
| EventCounters.Counters.Deinit | src/netlink_stats.cpp:309-321 | nas_nl_stats_deinit |
| EventCounters.CountersCount | src/net_main.cpp:218-302 | every counter is the number of messages it stands for since the last reset, modulo 2^32 |
| EventCounters.Conservation | src/net_main.cpp:218-302 | received = published + invalid + accepted multicast database messages, per class, modulo 2^32, over every run |
| EventCounters.BalancedIffNoQuietMessages | src/net_main.cpp:293-302 | received = published + invalid if and only if the number of those messages is a multiple of 2^32 |
| EventCounters.QuietMessageUnbalances | src/net_main.cpp:293-302 | a concrete run: one accepted RTM_NEWMDB is received and neither published nor invalid |
| EventCounters.BulkExtremes | src/netlink_stats.cpp:264-277 | bulk minimum and maximum are those of the batch sizes above 1 since the last reset, 0 when there were none |
| EventCounters.ReceivedIsDelivered | src/netlink_stats.cpp:255-264 | over every run the events received are the sizes of all batches since the last reset added up modulo 2^32 |
| EventBatches.ReceiveEvent | src/netlink_tools.c:135-181 | the receive loop over any datagram: which messages are dispatched, where it stops, its error code, and that the batch is counted only at the end |
| EventBatches.DispatchesUpToTheStop | src/netlink_tools.c:135-181 | which message stops the loop, by flags and types: what is dispatched before it, whether the batch is counted, and the error code |
| EventBatches.ReceivedIffNothingUnbatched | src/netlink_tools.c:135-181 | over every run, events received and the messages dispatched outside a counted batch are together all class totals and the unclassified, modulo 2^32; the counts agree if and only if the latter are a multiple of 2^32 |
| EventBatches.CutDatagramIsNotReceived | src/netlink_tools.c:146-149 | a concrete datagram whose message is published and not received |

## Left out

- Sockets, select, ioctl, sysfs, namespaces, locks and logging: inputs, verdicts and atomic steps stand for them.
- CPS objects, HAL lookups and text conversion of addresses: datatypes and lookup results; std_mac_to_string is taken to give non-empty text without a dot.
- Multipath.EncodePreamble: reserves the message header and the fixed part of rtmsg and does not fill their fields; nlmsg_len is a field of the class.
- RouteDecoder.DecodeRoute: does not filter by address family, table and route type, takes the destination as it is, and adds no hop count for a single next hop.
- ProcessSocket.ProcessSocket: splitting a datagram into messages (NLMSG_OK, NLMSG_NEXT) and sizing its buffer are inputs; a datagram is a list of messages.
- StpRevert.StpTable.Update: the name lookup that turns a VLAN port into its sub-interface is the request's target, and the querier refresh is not modelled.
- StpRevert.StpTable.HandleNotification: the event published for a bridge that runs spanning tree is not modelled.
- BondMembers.Bonds.Handle: the attributes of the published object and the unmasking of its events are not modelled.
- BridgeMembers.Bridges.Handle: the attributes of the published object are not modelled.
- Other byte orders: the 16- and 32-bit fields are little-endian host order.
- Unsigned wrap-around in nlmsg_reserve's size test: lengths in these buffers are far below 2^31.
- Routes with no or one next hop, special next hops and leaked routes in nas_os_update_route, and the family, table, type and address filters of nl_to_route_info.
- The declared C sizes of attribute tables: each table has the max_type slots it is parsed with.
- Reading a datagram and its control messages in netlink_tools_receive_event, the NFLOG loop and the multicast-snooping parser.
- RTNH_OK reads the length field only when 8 bytes remain; the system macro itself is not part of this model.
- A spanning-tree state is one byte, in a notification too.
- Lost netlink notifications: the kernel reports every drift in `StpRevert`.
- Static MACs and the learning-state map of src/nas_os_mac.cpp; the runs of `PendingMac` are those of requests that may wait, neither static nor exempt from ageing nor the bridge's own.
- The text format of printed ranges and sorted(): `WriteRanges` starts from the sorted list.
- Running the handlers without a bridge or bond database.
- Interface fields that if_info_update does not track, event masks, and for_each_mbr.
- VRF maps, VLAN sub-interface names, IP addresses, and the scripts under scripts/bin.
