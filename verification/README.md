# A verified model of the user-space IPv4 router

The router learns hardware addresses with ARP, holds frames back while it waits for an answer, gives up on
addresses that never answer, forwards IPv4 datagrams by longest prefix, and reports what it cannot deliver with
ICMP. This project models that machinery in Dafny and proves what it keeps, over single calls and over whole runs.

## How it is laid out

Two levels. On the heap, methods work on what the C code works on: the 32-slot table as an array, the request list
and its packet queues as nested rings of links with `next` and `prev`, the routing table as a ring, frames as byte
arrays. Each such method is proved equal to a function on values. The theorems are about those functions.

| file | what is in it |
|---|---|
| Types.dfy, Packets.dfy | scalars, interfaces, byte layout of a frame |
| Ring.dfy, PendingList.dfy | the intrusive list; the two-level list of requests and queued packets |
| ArpTable.dfy, TableArray.dfy | the table as a value, an account of it without slots; the table as an array |
| Resolver.dfy | the resolver as a state machine: append, submit, learn, report, drain |
| Drain.dfy, Sweep.dfy, Foresight.dfy | when the walk over an exhausted queue ends and what it leaves; the whole pass; which passes come back, decided before they start |
| Invariant.dfy, Conservation.dfy, Delivery.dfy | what every operation keeps |
| Progress.dfy, Opening.dfy, Runs.dfy, BoundedWait.dfy | what a pass does to a request; how a request is opened; runs; how long a request waits |
| Sources.dfy, LoneRequest.dfy | where waiting packets come from; one request through its rounds, worked out |
| Hang.dfy, Reporting.dfy, Loss.dfy | how a run can hang; what giving up a packet amounts to; how a run can drop one untold |
| Checksum.dfy, IpHeader.dfy, Icmp.dfy, Arp.dfy | checksum, IPv4 headers, ICMP and ARP frames |
| Routing.dfy, Forwarding.dfy | routing table and longest-prefix match; the TTL rewrite and chains of routers |
| RouterEnv.dfy, Wire.dfy | the resolver's environment as this router provides it; the frames that leave |
| Node.dfy, System.dfy | the router as a class over all of the above; its runs over received packets and rounds, on values and as a method that drives the class |
| Handling.dfy, Limits.dfy | what the router does with one packet, byte for byte; what it does not always do |

A state of the resolver holds a log. `Submit`, `GiveUp` and `Lost` note what happens to a frame, `Transmit` and
`Ask` stand for frames handed to `iface_send_packet`: a queued frame with its destination address set, and an ARP
request. `Nodes.Node.wire` holds those frames as bytes, and every method keeps it equal to what the log says
(`Wires.Wire`); `Wires.WireExactly` says which bytes those are. `Env` is what the sweep needs from the rest of the router. The theorems hold for every `Env` whose reports
are sent from the address of the interface they leave by; `RouterEnvs.RouterEnvOK` shows that this router's is one,
built from its routing table and its byte-level ICMP builder.

A packet is called given up, or reported, when `icmp_send_packet` was called for it. `Reporting.RunInforms` says what
that amounts to: the next event is the report, submitted, exactly when the packet's source has a route.

## Where the code does not do what one would expect

* **A sweep round may never come back.** A report for an address that is being drained is appended to the very
  queue being walked. The walk ends unless the address is unresolved, is one of the router's own, and two queued
  packets have it as their source; then each turn that removes one packet appends one. `DrainWalk.WalkEndsExactly`
  states this as an equivalence, and `Foresight.RoundComesBackExactly` decides a whole round from the state it starts
  in. A router comes back from every round, whatever it receives, if and only if no address is routed out of the
  interface that has it (`Limits.RouterNeverHangsExactly`). Otherwise two received packets and six rounds are enough:
  IP packets from the interface's own address to itself, which the router answers as it answers any local packet
  (`Limits.SelfAddressedHang`, `Limits.HangExample`). Without such forged packets: two echo requests from a host that
  answers no ARP request and twelve rounds are enough (`Limits.SilentHostHang`, `Limits.SilentHostExample`), and a
  router comes back from every round, whatever it receives from addresses other than these of its own, if and only if
  no other address is routed out of an interface whose own address is routed out of it
  (`Limits.UnforgedNeverHangsExactly`).
* **The sender of a packet that is given up is not always told.** There are two ways.
  * The successor is fetched before the turn, so a report appended while the last packet is being handled is unlinked
    with its request. `DrainWalk.LossExactly` says exactly when. The log records it as `Lost`, so the conservation law
    holds in every run. A router unlinks nothing this way, whatever it receives, if and only if every route in use goes
    over a gateway that has no route itself, and no address is routed out of the interface that has it
    (`Limits.RouterLosesNothingExactly`). Otherwise one received packet and six rounds are enough
    (`Limits.OnePacketLost`, `Limits.LossExample`).
  * Nothing is sent for a packet whose source has no route (`Reporting.RunInforms`, `Limits.SilentDropExample`).

  Together: a router tells the sender of everything it gives up, whatever it receives, if and only if it has no route
  to anywhere; for any address with a route, one received packet and six rounds are enough
  (`Limits.RouterTellsAllExactly`, `Limits.OnePacketUntold`). `Loss.RoutedRunTellsAll` gives the runs in which
  everyone is told.
* **The 32-bit checksum accumulator wraps** beyond 131074 bytes; the result is right if and only if the sum fits
  (`Checksums.ChecksumExactly`). No caller gets there: frames have at most 1514 bytes (main.c:226, include/ether.h:7).
* A comment in include/arp.h says a waiting packet is dropped after 15 seconds. The code drops it after five
  retries, which is what is modelled: six rounds that count, at most seven rounds in all. The comment at
  arpcache.c:183-187 speaks of five requests; the code sends one and then up to five more.
* The comment at arpcache.c:76-80 says requests are found by address and interface. The code compares the address.
* A reply for an address that is not the interface's own carries the hardware address zero (arp.c:84-91); see
  `Arp.ReplyTo`.

## Model

| member | source | states |
|---|---|---|
| Rings.Link.constructor | include/list.h:56-59 | a new link points at itself both ways and is on no ring |
| Rings.ListInsert | include/list.h:61-69 | the four pointers around a new link |
| Rings.ListDeleteEntry | include/list.h:81-85 | the two neighbours bypass the entry, whose own pointers stay |
| Rings.Ring.AddTail | include/list.h:76-79 | the ring stays circular with mutually inverse next and prev, its contents gain exactly the new item at the end |
| Rings.Ring.Delete | include/list.h:81-85 | the ring stays circular, its contents lose exactly the item at that place, the others keep their order |
| Rings.CutCircular | include/list.h:81-85 | once its neighbours bypass a link, the remaining links form a ring |
| PendingLists.PendingList.AddPacket | arpcache.c:94-99 | one queue gains one packet at its tail; every other queue and the outer ring are unchanged |
| PendingLists.PendingList.NewRequest | arpcache.c:106-114 | one empty request at the end of the list; every queue is unchanged |
| PendingLists.PendingList.PushAll | arpcache.c:91-101 | the unbroken loop gives each request of the address one copy and tells whether there was one |
| PendingLists.PendingList.PopPacket | arpcache.c:208-213 | one queue loses its first packet; every other queue and the outer ring are unchanged |
| PendingLists.PendingList.Remove | arpcache.c:214 | the list loses exactly that request |
| PendingLists.PendingList.Retry | arpcache.c:218-221 | one retry more for one request, sent and everything else unchanged |
| TableArrays.LookupEntry | arpcache.c:56-72 | the scan returns the last valid match, and fails exactly when there is none |
| TableArrays.RefreshEntries | arpcache.c:134-143 | every slot with the address is overwritten, no other |
| TableArrays.ShiftIn | arpcache.c:145-158 | the in-place shift puts the new entry first, moves the others down one slot and drops the last |
| TableArrays.InsertEntry | arpcache.c:131-158 | refresh if the address is present, shift in otherwise |
| TableArrays.AgeEntries | arpcache.c:195-200 | exactly the slots older than 15 seconds become invalid, nothing else changes |
| ArpTable.SlotLaw | arpcache.c:131-158 | after any history each slot carries the newest mapping of its address, valid unless a sweep found it too old, and every resident address is found |
| ArpTable.EvictionLaw | arpcache.c:145-158 | there are 32 slots, and a non-zero address is in slot k exactly when k absent addresses were learned since it was placed: FIFO, unmoved by refreshes, gone at the 32nd |
| ArpTable.AgeingExactly | arpcache.c:195-200 | after a sweep at time t an address resolves exactly when it did before and its newest mapping is at most 15 seconds old, and then to the same hardware address |
| ArpTable.SlotsWithOneAddress | arpcache.c:136-143 | slots with equal addresses are equal, and only address 0 fills several |
| ArpTable.LookupLaw | arpcache.c:63-69 | every lookup is decided by an account that mentions no slot: hit exactly when resident and live, so the scan order is irrelevant |
| ArpTable.HitReturnsNewest | arpcache.c:63-69 | last insert wins: a hit returns the newest hardware address learned |
| Resolver.VisitQueue | arpcache.c:208-213 | in one turn the walked queue loses its first packet and gains the report if that comes back to it |
| Resolver.TurnsDecrease | arpcache.c:208-213 | the measure by which a walk that ends, ends |
| DrainWalk.WalkEndsExactly | arpcache.c:206-213 | the walk over an exhausted queue ends if and only if not both: the address is unresolved and the router's own, and two packets of the queue have it as source |
| DrainWalk.WalkNeverEnds | arpcache.c:206-213 | in that case no number of turns is enough |
| DrainWalk.LossExactly | arpcache.c:206-215 | what is still queued when the request is unlinked: nothing, exactly under a condition on the queue as it was before the walk, and never more than one packet, which is a report that came back |
| SweepPass.PassExactly | arpcache.c:205-226 | the two nested loops come back, in some number of turns, exactly when the pass has a result, and with that result |
| Foresight.DrainAdds | arpcache.c:208-213 | a drain sends another queue exactly one report for each packet from that queue's address it meets, those that come back while it walks included |
| Foresight.PassDecided | arpcache.c:205-226 | a pass has a result if and only if, in the state it starts in, no exhausted request for an unresolved address of the router's own has two packets from it, counting what the drains before it will send there |
| Foresight.RoundComesBackExactly | arpcache.c:194-226 | so for a whole round: the two loops come back exactly in those states |
| SweepPass.PassEnds | arpcache.c:205-226 | a pass that appends to the list it walks ends if no exhausted request waits for one of the router's own addresses |
| SweepPass.GiveUpCounts | arpcache.c:206-215 | giving up a request leaves one exhausted request fewer ahead, whatever the reports append |
| Invariant.SubmitKeeps | arp.c:119-133 | submitting keeps: no address resolvable and pending, one request per address, queues non-empty, at most five retries |
| Invariant.LearnKeeps | arpcache.c:131-177 | learning keeps the same |
| Invariant.SweepFromKeeps | arpcache.c:205-226 | a pass keeps the same, re-entrant submissions included |
| Conservation.SubmitMoves | arp.c:119-133 | a submitted frame is settled at once with nothing waiting before it, or joins the end of its queue |
| Conservation.VisitConserves | arpcache.c:208-213 | a turn settles exactly the first packet and keeps the per-hop law even when its report enters the same queue |
| Conservation.DrainConserves | arpcache.c:206-215 | a drain gives up every packet of the queue, in order, and nothing of other queues |
| Conservation.LearnConserves | arpcache.c:160-176 | learning settles exactly what waits for the address, in order, empties its queue, settles nothing of other addresses, hands over and gives up nothing |
| Conservation.SweepFromConserves | arpcache.c:205-226 | a whole pass keeps the per-hop law |
| Delivery.StepDelivers | arpcache.c:131-177 | whatever a step transmits goes to the hardware address the table holds for its next hop |
| Delivery.RunDelivers | arpcache.c:131-177 | over every run, whatever a step transmits goes to the hardware address that is the newest one learned for its next hop when that step is done, neither superseded nor learned later |
| Delivery.EventHasStep | arpcache.c:163-172 | every event of a run belongs to one of its steps, so that covers every transmitted frame |
| Delivery.FrameHasEvent | arpcache.c:169 | every frame on the wire belongs to an event, in order: a transmitted frame with its destination address in front, or an ARP request for the address asked for |
| Delivery.RunSends | arpcache.c:131-177 | over every run, every frame a step puts on the wire is an ARP request or carries in front the newest hardware address learned for its next hop when that step is done |
| Progress.PassLeaves | arpcache.c:205-226 | a request the pass has gone by only gains packets |
| Progress.PassHandles | arpcache.c:205-226 | a pass handles every request ahead of it: one try more, or every packet given up |
| Runs.ReachableInvariant | arpcache.c:82-177 | in every reachable state no address is both resolvable and pending, no address has two requests, every queue is non-empty, 0 to 5 retries |
| Runs.AllAccountedInOrder | arpcache.c:82-226 | per next hop, over every run: submitted equals settled followed by waiting, in order |
| Reporting.RunInforms | icmp.c:24-109 | in every run, a packet given up is followed at once by its report, submitted for its source and, if that resolves, transmitted by the interface routed to it, exactly when that source has a route; otherwise by no submission |
| Sources.RunGood | arpcache.c:188-227 | a condition on next hops and sources that submissions meet and reports inherit, and that keeps packets from an own address out of its queue: the run comes back, and everything given up meets it |
| Runs.RunLookup | arpcache.c:56-72 | over every run: exactly when the resolver answers for an address, and with what |
| Runs.HitIsFresh | arpcache.c:195-200 | with rounds at most d seconds apart a hit at time t is backed by a mapping learned no earlier than t - (15 + d) |
| BoundedWait.RunFate | arpcache.c:205-226 | a request without reply: after n rounds that count, n retries and n more ARP requests, or, past five, every packet given up |
| Opening.PassOpens | arpcache.c:205-226 | a pass whose reports open a request for an address leaves it with something queued, one ARP request sent, the round's clock and no retry, although it may still come by it |
| Opening.StepOpens | arpcache.c:104-124 | so does every step: a submission opens a request, a sweep round may, a reply does not |
| BoundedWait.WaitIsBounded | arpcache.c:104-124 | in a run that comes back, whichever step opens a request, everything it queued is given up within seven rounds, six if a round opened it; until then interface, sending time, retries and ARP requests sent are exactly as stated |
| BoundedWait.RoundsAreEffective | arpcache.c:217-219 | with strictly increasing round clocks at most one round does not count |
| Hang.PassHangs | arpcache.c:205-226 | a pass with an exhausted request of the endless kind ahead never comes back |
| Hang.RunHangs | arpcache.c:205-226 | once two such packets wait for one of the router's own addresses, the run ends in a round that never comes back unless someone answers |
| Hang.NeverHangsExactly | arpcache.c:188-227 | every run of the resolver, whatever is submitted, comes back if and only if no address is one of the router's own, that is routed through the interface that has it |
| Hang.RunEnds | arpcache.c:188-227 | without such an address every run comes back |
| Hang.TwoWaitElsewhere | arpcache.c:205-226 | two packets from one of the router's own addresses waiting for a silent host: twelve rounds, the last of which never comes back |
| LoneRequests.OneGivenUp | arpcache.c:206-215 | a lone packet whose tries are used up: given up first of all, and its report lost if it comes back |
| LoneRequests.TwoGivenUp | arpcache.c:206-215 | two packets from another address: their reports wait for that address, sent from the interface towards it |
| Loss.CleanRunLosesNothing | arpcache.c:205-226 | if no address is the router's own and no frame is submitted for the routed address it comes from, every run comes back and unlinks no packet for which icmp_send_packet was not called |
| Loss.RoutedRunTellsAll | icmp.c:24-109 | if, moreover, submitted frames come from routed addresses and interface addresses are routed, every packet given up has its report submitted |
| Loss.OneIsLost | arpcache.c:206-215 | one frame submitted for the routed address it comes from: the sixth round drops its report |
| Loss.OneIsSilent | icmp.c:24-109 | one frame from an address without a route: the sixth round gives it up and sends nothing |
| Checksums.Checksum | include/checksum.h:9-22 | the loop over a u32 that wraps computes the folded complement of the low 32 bits of the word sum |
| Checksums.ChecksumExactly | include/checksum.h:9-22 | for every buffer an int can measure: the one's-complement checksum of RFC 1071 if and only if the plain word sum is below 2^32 |
| Checksums.SmallBuffersFit | include/checksum.h:9-22 | up to 131074 bytes it always is |
| Checksums.BoundIsTight | include/checksum.h:9-22 | two bytes more can give a wrong checksum |
| Checksums.FinishIsExact | include/checksum.h:18-21 | two folds suffice for every 32-bit sum |
| Checksums.StoredChecksumVerifies | include/checksum.h:9-22 | a region with its computed checksum stored sums to zero, the all-zero region included |
| Checksums.SumsSwap | include/checksum.h:13-16 | the sum of byte-swapped words is the byte-swapped sum (RFC 1071, section 2) |
| Checksums.StoredBytesAgree | ip.c:27 | hosts of either byte order store the same two bytes, so storing without htons is right |
| IpHeaders.IpChecksum | include/ip.h:61-69 | zero, sum, restore: the value over the header with a zero field, and every byte of the buffer as before |
| IpHeaders.IpInitHdr | ip.c:15-28 | the 20 bytes written, nothing outside them |
| IpHeaders.SealedHeaderVerifies | include/ip.h:61-69 | any header with the computed value in its field verifies |
| IpHeaders.InitialHeaderFields | ip.c:15-28 | the fresh header field by field: version 4, five words, length, id as drawn, don't fragment, TTL 64, protocol, addresses |
| IpHeaders.InitialHeaderVerifies | ip.c:15-28 | a fresh header verifies |
| Icmp.IcmpChecksum | include/icmp.h:44-52 | the value over the message with a zero field, and every byte as before |
| Icmp.BuildError | icmp.c:58-102 | the frame built for types 3 and 11, byte for byte; no copy leaves its buffer |
| Icmp.BuildEchoReply | icmp.c:32-57 | the frame built for type 0, byte for byte, for requests with and without IP options; no copy leaves its buffer |
| Icmp.ErrorPacketIsSound | icmp.c:58-102 | 70 bytes from the interface to the packet's source, quoting exactly the first 28 bytes of its IP packet, both checksums good |
| Icmp.EchoReplyIsSound | icmp.c:32-57 | same identifier, sequence number and data, taken from behind any IP options, then as many bytes of the fresh buffer as there were options; back to the source, the header checksum good, that of the message too up to 131074 bytes |
| Routing.MaskedEqual | ip.c:39 | the masked comparison holds exactly when the first n bits agree |
| Routing.LongestPrefixMatch | ip.c:32-48 | the scan over the ring, its int maximum converted back and forth, selects the last-listed match of largest mask |
| Routing.LpmIsLongestPrefix | ip.c:32-48 | with prefix masks: nothing exactly when no prefix covers the address, otherwise the last-listed of the longest |
| Routing.LpmIgnoresOrder | ip.c:32-48 | permuting the table changes neither whether there is a route nor its network |
| Routing.AppendIsLocal | rtable.c:30-33 | a new entry changes the route of exactly the addresses it matches that have no larger matching mask |
| Routing.RemoveIsLocal | rtable.c:35-39 | removing an entry that was not selected changes nothing |
| Routing.AddRtEntry | rtable.c:30-33 | the entry is appended |
| Routing.RemoveRtEntry | rtable.c:35-39 | exactly that entry is removed |
| Routing.ClearRtable | rtable.c:41-50 | the loop ends with an empty ring and no address routed |
| Forwarding.Rewrite | ip_forwarding.c:29-30 | TTL and checksum rewritten in place |
| Forwarding.HopIsFaithful | ip_forwarding.c:29-30 | TTL exactly one less and positive, nothing else changed but the checksum, the header verifies |
| Forwarding.VerifiesInAnyOrder | include/checksum.h:9-22 | hosts of either byte order accept the same headers |
| Forwarding.TravelIsBounded | ip_forwarding.c:15-37 | over any chain of routers with any tables: at most TTL - 1 relays, TTL lower by the number of relays, the rest untouched, a header that verifies everywhere |
| Forwarding.TravelUntilExpired | ip_forwarding.c:20-24 | with a route everywhere: exactly TTL - 1 relays, then time exceeded |
| Arp.BuildArpFrame | arp.c:18-51 | the frame, byte for byte |
| Arp.FrameRoundTrip | arp.c:18-51 | every field of a frame at its place, the fixed fields included |
| Arp.RequestAsks | arp.c:18-51 | a request is broadcast, operation 1, from the interface's two addresses, for the address asked for |
| Arp.ReplyExactly | arp.c:55-91 | for every frame: there is a reply exactly to a request for the interface's own address or one the table resolves; it goes to the asker, byte for byte as stated, with hardware address zero unless the address is the interface's own |
| Arp.AskAndAnswer | arp.c:55-83 | a request teaches the owner the asker's mapping and its reply teaches the asker the owner's |
| RouterEnvs.RouterEnvOK | icmp.c:17-108 | the router's reports are sent from the interface they leave by, so all resolver theorems apply to it |
| RouterEnvs.IcmpAnswersSource | icmp.c:17-109 | for types 0, 3 and 11, exactly when the packet's source has a route: the message of that type and code, with its echo data or quotation, is submitted for the source by the interface routed to it, from its two addresses, both checksums good |
| RouterEnvs.ReportAnswers | icmp.c:58-76 | the report for a packet is type 3 code 1, quotes the first 28 bytes of its datagram, and goes to its source |
| RouterEnvs.ReportIsUnreachable | arpcache.c:210 | the sweep's reports are host-unreachable messages built by icmp_send_packet |
| Nodes.Node.constructor | arpcache.c:18-27 | the initial state, 32 slots, nothing sent, in newly allocated memory |
| Nodes.Node.Emit | arpcache.c:169 | exactly the given frame goes out by the given interface, and its event is logged |
| Nodes.Node.ArpSendRequest | arp.c:18-51 | exactly one frame goes out: a broadcast request for the address, from the interface's two addresses |
| Nodes.Node.AppendPacket | arpcache.c:82-126 | on the heap: the append of the state machine, the list grows at tails only; one ARP request goes out if no request waited, nothing otherwise |
| Nodes.Node.SendByArp | arp.c:119-133 | on the heap: the submission of the state machine, and the frames that go out, byte for byte: the packet with both hardware addresses and the type in front, or one ARP request if a request is opened, or nothing |
| Nodes.Node.IcmpSend | icmp.c:17-110 | on the heap: route back to the source, build, submit; nothing for unknown types or without a route |
| Nodes.Node.VisitPacket | arpcache.c:208-213 | on the heap: one turn of the drain, the prefetched successor still next in the queue |
| Nodes.Node.DrainQueue | arpcache.c:208-213 | the prefetching loop over the queue, which it appends to, computes the drain |
| Nodes.Node.GiveUpRequest | arpcache.c:206-215 | drain and unlink, the prefetched successor still next in the list |
| Nodes.Node.RetryRequest | arpcache.c:216-225 | on the heap: the retry of the state machine; after a second one ARP request for its address goes out by its interface, before that nothing |
| Nodes.Node.SweepRound | arpcache.c:194-226 | one round on the heap ends, and in the state of the state machine, for every state from which a round can end |
| Nodes.Node.FlushQueue | arpcache.c:165-172 | the prefetching loop unlinks every packet once; one frame per packet goes out by the request's interface, in order, the learned hardware address in front and the rest as queued |
| Nodes.Node.Insert | arpcache.c:131-177 | on the heap: the learning step of the state machine; exactly the frames that waited for the address go out, in order, the learned hardware address in front |
| Nodes.FlushFromIs | arpcache.c:163-176 | walking the list while unlinking from it transmits exactly what waits for the address and leaves exactly the other requests, in order |
| Nodes.Node.HandleArp | arp.c:94-112 | the mapping at bytes 22 and 28 is learned, the list keeps its objects, and there is a reply exactly to answerable requests, byte for byte |
| Nodes.Node.HandleIp | ip_forwarding.c:15-55 | local answer, time exceeded, net unreachable or relay, each as a step of the state machine |
| Wires.WireExactly | arpcache.c:169 | what leaves, event by event and in order: for a transmission its frame with the destination address in front, for a question one ARP request, for anything else nothing |
| Systems.ServingIsRunning | ip_forwarding.c:44-55 | any sequence of received packets and rounds is a run of the resolver |
| Handling.Relays | ip_forwarding.c:15-37 | a datagram for another address with TTL left and a route is submitted for the gateway of the best entry, or its own destination, by that entry's interface, framed from its address, TTL one less, header verifying, all else as received |
| Handling.Echoes | ip_forwarding.c:48-49 | a packet for the interface's own address is answered with type 0 code 0, if its source has a route |
| Handling.Expires | ip_forwarding.c:20-24 | a datagram for another address with TTL at most 1 is answered with type 11 code 0, if its source has a route |
| Handling.Unreachable | ip_forwarding.c:34-37 | a datagram with TTL left that no entry matches is answered with type 3 code 0, if its source has a route |
| Handling.Teaches | arp.c:94-104 | every ARP packet makes the address at byte 28 resolve to the hardware address at byte 22, leaves no request for it, and makes nothing else resolve |
| Systems.HandleInput | main.c:41-59 | on the heap: a received packet or a round takes the node to the state of the run of inputs |
| Systems.Drive | main.c:222-265 | on the heap: the node, driven through any inputs whose run comes back, ends in the state of that run |
| Systems.Boot | main.c:222-265 | the same from a new node |
| Systems.RouterConserves | arpcache.c:82-226 | the invariant and the per-hop law for this router, whatever it receives |
| Limits.SelfAddressedHang | ip_forwarding.c:48-49 | an interface that receives, twice, a packet from its own address to itself, that address being routed out of it: the sixth round from then never comes back |
| Limits.RouterNeverHangsExactly | arpcache.c:188-227 | whatever this router receives, every round comes back, if and only if no address is routed out of the interface that has it |
| Limits.SilentHostHang | ip_forwarding.c:48-49 | the same without pretence: two packets to an interface from a host behind it that answers no ARP request, twelve rounds |
| Limits.UnforgedNeverHangsExactly | arpcache.c:188-227 | whatever this router receives from addresses that are not routed out of the interface that has them, every round comes back, if and only if no such address is routed out of an interface whose own address is |
| Limits.OnePacketLost | ip_forwarding.c:15-55 | one received packet that can come to wait for the address it is from, then six rounds: its report is unlinked with the request |
| Limits.RouterLosesNothingExactly | arpcache.c:206-215 | whatever this router receives, no packet is unlinked without icmp_send_packet having been called for it, if and only if its routing table lets no packet wait for the routed address it is from |
| Limits.OnePacketUntold | ip_forwarding.c:15-55 | for any routed address, one received packet and six rounds: a packet is gone and no report for it was submitted |
| Limits.RouterTellsAllExactly | icmp.c:24-109 | whatever this router receives, every packet given up has its report submitted, if and only if no address has a route |
| Limits.HangExample | arpcache.c:206-213 | two received packets and six rounds of a router with one interface that never comes back |
| Limits.LossExample | arpcache.c:206-215 | one received packet and six rounds of that router, and its log holds a lost packet |
| Limits.SilentHostExample | arpcache.c:206-213 | two packets from a silent host and twelve rounds of that router, which never comes back |
| Limits.SilentDropExample | icmp.c:24-109 | one received packet and six rounds of a router that loses nothing: a packet is given up and no report for it was submitted |

## Left out

- Concurrency: the C operations take no lock; each operation, and each round of the sweep, is taken as atomic and reads the clock once.
- Raw sockets, the poll loop, interface discovery, netlink route loading, printing, allocation failure and freeing.
- Nodes.Node.HandleIp: does not model packets of fewer than 42 bytes or with a header length that leaves out the checksum field (below 12) or does not fit the packet, which the source reads beyond their end, nor packets for the interface's own address of odd length (the source asserts there) or with a header length below 20; any other packet for that address is answered as if it were an echo request, as the source does.
- Nodes.Node.IcmpSend: does not model type 8, for which the source sends a packet it never built, nor packets of fewer than 42 bytes, which it reads beyond their end.
- Icmp.BuildEchoReply: does not model requests of odd length, at which the source stops with an assertion, nor those whose header length is below 20 or leaves no room for an ICMP header, for which it copies beyond its buffers.
- TableArrays.ShiftIn: does not model the read of the slot before the first at the end of the C loop; its value is overwritten at once.
- Nodes.Node.HandleArp: does not model frames of fewer than 42 bytes, which the source reads beyond their end, nor the byte swaps in the received buffer, which is freed afterwards; a reply is returned, not put on `wire`.
- RouterEnvs.RouterEnvOK: a queued packet of fewer than 42 bytes is quoted as if zeros followed it.
- `rand()` and the contents of freshly allocated memory are arbitrary: an oracle indexed by the number of ICMP packets built.
- `delete_list`, `ip_send_packet` and include/hash.h, which nothing uses; `arpcache_destroy`.
- The mapping of routes to prefix masks in rtable_internal.c is an assumption of the lemmas that speak of prefixes (`Routing.Contiguous`).
