/** The router on the heap: arp.c, arpcache.c, icmp.c and ip_forwarding.c as methods over the table array, the
    two-level ring of pending requests and the ring of routes, each proved against the state machine. */
module Nodes {
  import opened Types
  import opened Checksums
  import opened Packets
  import opened Icmp
  import opened Rings
  import opened Routing
  import opened ArpTable
  import opened TableArrays
  import opened Resolver
  import opened SweepPass
  import opened PendingLists
  import opened RouterEnvs
  import opened IpHeaders
  import opened Forwarding
  import opened Wires
  import Arp

  method SetSourceAndType(packet: array<u8>, mac: Mac)
    requires packet.Length >= 14
    modifies packet
    ensures packet[..] == Framed(old(packet[..]), mac)
  {
    Memcpy(packet, 6, mac);
    Memcpy(packet, 12, [0x08, 0x00]);
    OverJoin(old(packet[..]), 6, mac, [0x08, 0x00]);
  }

  class Node {
    const order: Order
    /** The n-th call of rand() together with the memory the n-th ICMP buffer is given. */
    const draw: nat -> Draw
    const rtable: Ring<RtEntry>
    const entries: array<Entry>
    const list: PendingList
    /** Everything that happened, the frames sent among it. */
    ghost var log: seq<Event>
    /** The frames given to iface_send_packet, ARP replies apart. */
    var wire: seq<Sent>
    var draws: nat

    ghost predicate Valid()
      reads this, rtable, rtable.links, entries, list, list.repr
    {
      && entries.Length == MAX_ARP_SIZE && wire == Wire(log)
      && list.Valid() && (this as object) !in list.repr && (entries as object) !in list.repr
      && rtable.Valid() && Untouched(rtable) && (forall i :: 0 <= i < |rtable.links| ==> Untouched(rtable.links[i]))
    }

    /** Not among the objects that belong to the pending list. */
    ghost predicate Untouched(x: object)
      reads list
    {
      x !in list.repr && x != list
    }

    ghost function Now(): State
      reads this, entries, list
    {
      State(entries[..], list.pending, log, draws)
    }

    ghost function Envir(): (env: Env)
      reads rtable
      ensures EnvOK(env)
    {
      RouterEnvOK(order, rtable.items, draw);
      RouterEnv(order, rtable.items, draw)
    }

    /** arpcache_init, with a routing table already in place. */
    constructor (order: Order, draw: nat -> Draw, rtable: Ring<RtEntry>)
      requires rtable.Valid()
      ensures Valid() && Now() == INIT && this.rtable == rtable && this.order == order && this.draw == draw
      ensures fresh(entries) && fresh(list) && fresh(list.repr) && entries.Length == 32 && wire == []
    {
      this.order, this.draw, this.rtable := order, draw, rtable;
      var table := NewTable();
      entries := table;
      list := new PendingList();
      log, wire, draws := [], [], 0;
    }

    /** The routes stand as long as nobody writes to their ring. */
    twostate lemma RoutesKept()
      requires old(rtable.Valid()) && unchanged(rtable)
      requires forall i :: 0 <= i < |rtable.links| ==> unchanged(rtable.links[i])
      ensures rtable.Valid()
    {
    }

    /** Something happened that sends nothing. */
    ghost method Note(e: Event)
      requires wire == Wire(log) && Frames(e) == []
      modifies this`log
      ensures log == old(log) + [e] && wire == Wire(log)
    {
      WirePush(log, e);
      log := log + [e];
    }

    /** iface_send_packet, and the event it stands for. */
    method Emit(iface: Iface, frame: Packet, ghost e: Event)
      requires wire == Wire(log) && Frames(e) == [Sent(iface, frame)]
      modifies this`log, this`wire
      ensures log == old(log) + [e] && wire == Wire(log) && wire == old(wire) + [Sent(iface, frame)]
    {
      WirePush(log, e);
      log := log + [e];
      wire := wire + [Sent(iface, frame)];
    }

    /** arp_send_request. */
    method ArpSendRequest(iface: Iface, dst: u32)
      requires wire == Wire(log)
      modifies this`log, this`wire
      ensures log == old(log) + [Ask(iface, dst)] && wire == Wire(log)
      ensures OneRequest(old(wire), wire, iface, dst)
    {
      Arp.RequestAsks(iface, dst);
      var packet := Arp.BuildArpFrame(Arp.BROADCAST, iface.mac, Arp.ARPOP_REQUEST, iface.mac, iface.ip, ZERO_MAC, dst);
      Emit(iface, packet[..], Ask(iface, dst));
    }

    /** arpcache_append_packet. */
    method AppendPacket(iface: Iface, ip: u32, pkt: Packet, now: int)
      requires Valid()
      modifies this, list, list.repr
      ensures Valid() && (forall o :: o in list.repr ==> o in old(list.repr) || fresh(o))
      ensures Now() == Append(old(Now()), iface, ip, pkt, now) && list.TailsOnly()
      ensures if Waits(old(list.pending), ip) then wire == old(wire) else OneRequest(old(wire), wire, iface, ip)
    {
      hide PendingList.Valid, Wire;
      var found := list.PushAll(ip, pkt);
      if !found {
        list.Open(iface, ip, now, pkt);
        ArpSendRequest(iface, ip);
      }
      RoutesKept();
    }

    /** iface_send_packet_by_arp. */
    method SendByArp(iface: Iface, hop: u32, packet: array<u8>, now: int)
      requires Valid() && (packet as object) !in list.repr && packet.Length >= 14
      modifies this, list, list.repr, packet
      ensures Valid() && (forall o :: o in list.repr ==> o in old(list.repr) || fresh(o))
      ensures Now() == SubmitFrame(old(Now()), iface, hop, Framed(old(packet[..]), iface.mac), now)
      ensures list.TailsOnly()
      ensures match Lookup(entries[..], hop)
              case Some(mac) => packet[..] == Over(Framed(old(packet[..]), iface.mac), 0, mac)
              case None => packet[..] == Framed(old(packet[..]), iface.mac)
      ensures match Lookup(entries[..], hop)
              case Some(mac) => wire == old(wire) + [Sent(iface, mac + iface.mac + [8, 0] + old(packet[14..]))]
              case None =>
                if Waits(old(list.pending), hop) then wire == old(wire) else OneRequest(old(wire), wire, iface, hop)
    {
      hide PendingList.Valid, Append, Framed, Wire, OneRequest, Waits, LastMatch;
      ghost var was := packet[..];
      SetSourceAndType(packet, iface.mac);
      Note(Submit(hop, packet[..]));
      var found, mac := LookupEntry(entries, hop);
      if found {
        ghost var pkt := packet[..];
        Memcpy(packet, 0, mac);
        FramedBehind(was, iface.mac, mac);
        assert was[14..] == old(packet[14..]);
        Emit(iface, packet[..], Transmit(hop, iface, mac, pkt));
      } else {
        AppendPacket(iface, hop, packet[..], now);
      }
      RoutesKept();
    }

    /** icmp_send_packet. Echo requests of odd length, and type 8, are not for it. */
    method IcmpSend(inPkt: Packet, kind: u8, code: u8, now: int)
      requires Valid() && |inPkt| >= 42 && kind != 8
      requires kind == ICMP_ECHOREPLY ==> EchoFits(inPkt)
      modifies this, list, list.repr
      ensures Valid() && (forall o :: o in list.repr ==> o in old(list.repr) || fresh(o))
      ensures Now() == IcmpSent(order, rtable.items, draw, old(Now()), inPkt, kind, code, now)
      ensures list.TailsOnly()
    {
      hide PendingList.Valid, SubmitFrame, IcmpPacket, Framed, EchoFits, Src, Lpm, Wire;
      var rt := LongestPrefixMatch(rtable, Src(inPkt));
      if rt.Some? && Builds(kind) {
        var packet := BuildIcmp(order, inPkt, kind, code, rt.value.iface.ip, draw(draws));
        draws := draws + 1;
        SendByArp(rt.value.iface, Src(inPkt), packet, now);
      }
    }

    // -------------------------------------------------------------------------------------------
    // arpcache_sweep

    /** One turn of the inner loop; l is the first packet of request i. */
    method VisitPacket(r: ArpReq, l: Link<Packet>, ghost i: nat, now: int)
      requires Valid() && i < |list.pending| == |list.ring.items| && list.ring.items[i] == r
      requires list.pending[i].pkts != [] && |r.cached.links| > 1 && r.cached.links[1] == l
      modifies this, list, list.repr
      ensures Valid() && (forall o :: o in list.repr ==> o in old(list.repr) || fresh(o))
      ensures Now() == Visit(Envir(), old(Now()), i, now)
      ensures old(list.ring.links) <= list.ring.links && old(list.ring.items) <= list.ring.items
      ensures |list.ring.items| == |list.pending| && |r.cached.links| > 0
      ensures old(r.cached.links)[2..] <= r.cached.links[1..]
    {
      hide PendingList.Valid, SubmitFrame, IcmpPacket, Framed, EchoFits, Src, Lpm, Padded, IcmpSent, RouterEnv, Wire;
      list.QueueCursor(i, 1);
      var pkt := l.item.value;
      ghost var s0 := Now().(log := log + [GiveUp(r.ip4, pkt)]);
      Note(GiveUp(r.ip4, pkt));
      IcmpSend(Padded(pkt), ICMP_DEST_UNREACH, 1, now);
      ReportIsUnreachable(order, rtable.items, draw, s0, pkt, now);
      list.PopPacket(r, l, i);
      list.Cursor(0);
      list.QueueCursor(i, 0);
    }

    /** What is left of the drain when the cursor stands at pkt with its successor q already fetched. */
    ghost predicate Draining(r: ArpReq, i: nat, pkt: Link<Packet>, q: Link<Packet>, now: int, goal: State)
      reads this, rtable, entries, list, list.ring, r.cached
    {
      && i < |Now().reqs| == |list.ring.items| && list.ring.items[i] == r
      && |r.cached.links| == |Now().reqs[i].pkts| + 1 && r.cached.links[0] == r.cached.head
      && if pkt == r.cached.head then Now() == goal
         else
           && Now().reqs[i].pkts != [] && r.cached.links[1] == pkt && q == r.cached.After(1)
           && Ends(Envir(), Now().table, Now().reqs[i].ip4, Now().reqs[i].pkts)
           && Drain(Envir(), Now(), i, now) == goal
    }

    ghost function TurnsLeft(r: ArpReq, i: nat, pkt: Link<Packet>): nat
      reads this, rtable, entries, list, r.cached
      requires i < |Now().reqs|
    {
      if pkt == r.cached.head then 0
      else 1 + Turns(Envir(), Now().table, Now().reqs[i].ip4, Now().reqs[i].pkts)
    }

    /** One turn of the inner loop and the step of its cursors. */
    method DrainTurn(r: ArpReq, pkt: Link<Packet>, q: Link<Packet>, ghost i: nat, now: int, ghost goal: State)
      returns (pkt': Link<Packet>, q': Link<Packet>)
      requires Valid() && pkt != r.cached.head && Draining(r, i, pkt, q, now, goal)
      modifies this, list, list.repr
      ensures Valid() && (forall o :: o in list.repr ==> o in old(list.repr) || fresh(o))
      ensures Envir() == old(Envir()) && Draining(r, i, pkt', q', now, goal)
      ensures TurnsLeft(r, i, pkt') < old(TurnsLeft(r, i, pkt))
      ensures old(list.ring.links) <= list.ring.links && old(list.ring.items) <= list.ring.items
    {
      hide PendingList.Valid, RouterEnv, EnvOK, SubmitFrame;
      ghost var was, env := Now(), Envir();
      VisitQueue(env, was, i, now);
      if |was.reqs[i].pkts| > 1 {
        TurnsDecrease(env, was.table, was.reqs[i].ip4, was.reqs[i].pkts, was.draws);
      }
      VisitPacket(r, pkt, i, now);
      list.QueueCursor(i, 0);
      if |was.reqs[i].pkts| > 1 {
        list.QueueCursor(i, 1);
      }
      pkt', q' := q, q.next;
    }

    /** The inner loop of the sweep. */
    method DrainQueue(r: ArpReq, ghost i: nat, now: int)
      requires Valid() && i < |list.pending| == |list.ring.items| && list.ring.items[i] == r
      requires Ends(Envir(), Now().table, Now().reqs[i].ip4, Now().reqs[i].pkts)
      modifies this, list, list.repr
      ensures Valid() && (forall o :: o in list.repr ==> o in old(list.repr) || fresh(o))
      ensures Now() == Drain(Envir(), old(Now()), i, now)
      ensures old(list.ring.links) <= list.ring.links && old(list.ring.items) <= list.ring.items
    {
      hide PendingList.Valid, RouterEnv;
      ghost var goal := Drain(Envir(), Now(), i, now);
      list.QueueCursor(i, 0);
      var pkt := r.cached.head.next;
      if |list.pending[i].pkts| > 0 {
        list.QueueCursor(i, 1);
      }
      var q := pkt.next;
      while pkt != r.cached.head
        invariant Valid() && (forall o :: o in list.repr ==> o in old(list.repr) || fresh(o))
        invariant Envir() == old(Envir())
        invariant old(list.ring.links) <= list.ring.links && old(list.ring.items) <= list.ring.items
        invariant Draining(r, i, pkt, q, now, goal)
        decreases TurnsLeft(r, i, pkt)
      {
        pkt, q := DrainTurn(r, pkt, q, i, now, goal);
      }
    }

    ghost method NoteLosses(a: u32, q: seq<Packet>)
      requires wire == Wire(log)
      modifies this`log
      ensures log == old(log) + Losses(a, q) && wire == Wire(log)
    {
      WireSilent(log, Losses(a, q));
      log := log + Losses(a, q);
    }

    /** The exhausted branch of the outer loop: drain request i, then unlink it. */
    method GiveUpRequest(req: Link<ArpReq>, r: ArpReq, ghost i: nat, now: int)
      requires Valid() && i < |list.pending| == |list.ring.items|
      requires |list.ring.links| == |list.pending| + 1 && list.ring.links[i + 1] == req && list.ring.items[i] == r
      requires Ends(Envir(), Now().table, Now().reqs[i].ip4, Now().reqs[i].pkts)
      modifies this, list, list.repr
      ensures Valid() && (forall o :: o in list.repr ==> o in old(list.repr) || fresh(o)) && Envir() == old(Envir())
      ensures Now() == Unlink(Drain(Envir(), old(Now()), i, now), i)
      ensures old(list.ring.links)[i + 2..] <= list.ring.links[i + 1..]
    {
      hide PendingList.Valid, RouterEnv, EnvOK, Unlink, Wire;
      DrainQueue(r, i, now);
      list.Cursor(i + 1);
      UnlinkRequest(req, i);
    }

    /** Whatever is still queued goes with the request. */
    method UnlinkRequest(req: Link<ArpReq>, ghost i: nat)
      requires Valid() && i < |list.pending| && |list.ring.links| == |list.pending| + 1
      requires list.ring.links[i + 1] == req
      modifies this, list, list.repr
      ensures Valid() && list.repr == old(list.repr) && Envir() == old(Envir())
      ensures Now() == Unlink(old(Now()), i)
      ensures list.ring.links == Cut(old(list.ring.links), i + 1)
    {
      hide PendingList.Valid, RouterEnv, Losses, Wire;
      NoteLosses(list.pending[i].ip4, list.pending[i].pkts);
      list.Remove(req, i);
      RoutesKept();
    }

    /** What is left of the pass when the cursor stands at req with its successor q already fetched. */
    ghost predicate Sweeping(i: nat, req: Link<ArpReq>, q: Link<ArpReq>, now: int, goal: State)
      reads this, rtable, entries, list, list.ring
    {
      && i <= |Now().reqs| == |list.ring.items|
      && |list.ring.links| == |Now().reqs| + 1 && list.ring.links[0] == list.ring.head
      && if req == list.ring.head then Now() == goal
         else
           && i < |Now().reqs| && list.ring.links[i + 1] == req && q == list.ring.After(i + 1)
           && SweepFrom(Envir(), Now(), i, now) == Some(goal)
    }

    ghost function RoundsLeft(i: nat, req: Link<ArpReq>, now: int): nat
      reads this, rtable, entries, list, list.ring
      requires i <= |Now().reqs|
      requires req != list.ring.head ==> SweepFrom(Envir(), Now(), i, now).Some?
    {
      if req == list.ring.head then 0 else PassTurns(Envir(), Now(), i, now)
    }

    /** The waiting branch of the outer loop. */
    method RetryRequest(r: ArpReq, ghost i: nat, now: int)
      requires Valid() && i < |list.pending| == |list.ring.items| && list.ring.items[i] == r
      modifies this, list, list.repr
      ensures Valid() && list.repr == old(list.repr) && Envir() == old(Envir())
      ensures Now() == SweepPass.Retry(old(Now()), i, now)
      ensures var q := old(list.pending[i]);
              if now - q.sent >= 1 then OneRequest(old(wire), wire, q.iface, q.ip4) else wire == old(wire)
      ensures list.ring.links == old(list.ring.links) && list.ring.items == old(list.ring.items)
    {
      hide PendingList.Valid, RouterEnv, Wire, OneRequest;
      list.QueueCursor(i, 0);
      if now - r.sent >= 1 {
        list.Retry(r, i);
        ArpSendRequest(r.iface, r.ip4);
      }
      RoutesKept();
    }

    /** One turn of the outer loop and the step of its cursors. */
    method SweepTurn(req: Link<ArpReq>, q: Link<ArpReq>, ghost i: nat, now: int, ghost goal: State)
      returns (req': Link<ArpReq>, q': Link<ArpReq>, ghost i': nat)
      requires Valid() && req != list.ring.head && Sweeping(i, req, q, now, goal)
      modifies this, list, list.repr
      ensures Valid() && (forall o :: o in list.repr ==> o in old(list.repr) || fresh(o)) && Envir() == old(Envir())
      ensures Sweeping(i', req', q', now, goal)
      ensures RoundsLeft(i', req', now) < old(RoundsLeft(i, req, now))
    {
      hide PendingList.Valid, RouterEnv, EnvOK, Unlink, Drain, Exhausted, Ends, Wire;
      list.Cursor(i + 1);
      if i + 1 < |list.pending| {
        list.Cursor(i + 2);
      }
      var r := req.item.value;
      if r.retries >= ARP_REQUEST_MAX_RETRIES {
        GiveUpCounts(Envir(), Now(), i, now);
        GiveUpRequest(req, r, i, now);
        i' := i;
      } else {
        ExhaustedTail(Now().reqs, SweepPass.Retry(Now(), i, now).reqs, i);
        RetryRequest(r, i, now);
        i' := i + 1;
      }
      list.Cursor(0);
      if q != list.ring.head {
        list.Cursor(i' + 1);
      }
      req', q' := q, q.next;
    }

    /** One round of arpcache_sweep, for every state from which it comes back. */
    method SweepRound(now: int)
      requires Valid() && Sweep(Envir(), Now(), now).Some?
      modifies this, entries, list, list.repr
      ensures Valid() && (forall o :: o in list.repr ==> o in old(list.repr) || fresh(o))
      ensures Now() == Sweep(Envir(), old(Now()), now).value
    {
      hide PendingList.Valid, RouterEnv, EnvOK, SweepFrom, AgeOut;
      ghost var goal := Sweep(Envir(), Now(), now).value;
      AgeEntries(entries, now);
      RoutesKept();
      WalkRequests(now, goal);
    }

    method WalkRequests(now: int, ghost goal: State)
      requires Valid() && SweepFrom(Envir(), Now(), 0, now) == Some(goal)
      modifies this, list, list.repr
      ensures Valid() && (forall o :: o in list.repr ==> o in old(list.repr) || fresh(o))
      ensures Now() == goal
    {
      hide PendingList.Valid, RouterEnv, EnvOK;
      list.Cursor(0);
      if |list.pending| > 0 {
        list.Cursor(1);
      }
      var req := list.ring.head.next;
      var q := req.next;
      ghost var i := 0;
      while req != list.ring.head
        invariant Valid() && (forall o :: o in list.repr ==> o in old(list.repr) || fresh(o))
        invariant Envir() == old(Envir())
        invariant Sweeping(i, req, q, now, goal)
        decreases RoundsLeft(i, req, now)
      {
        req, q, i := SweepTurn(req, q, i, now, goal);
      }
    }

    // -------------------------------------------------------------------------------------------
    // arpcache_insert

    /** What is left of the flush of request i when the cursor stands at pkt, its successor q fetched. */
    ghost predicate Flushing(r: ArpReq, i: nat, pkt: Link<Packet>, q: Link<Packet>, mac: Mac, goal: State)
      reads this, entries, list, list.ring, r.cached
    {
      && i < |Now().reqs| == |list.ring.items| && list.ring.items[i] == r
      && |r.cached.links| == |Now().reqs[i].pkts| + 1 && r.cached.links[0] == r.cached.head
      && Emptied(Now(), i, mac) == goal
      && if pkt == r.cached.head then Now().reqs[i].pkts == []
         else Now().reqs[i].pkts != [] && r.cached.links[1] == pkt && q == r.cached.After(1)
    }

    /** The inner loop of arpcache_insert: address each frame, send it, unlink it. */
    method FlushQueue(r: ArpReq, ghost i: nat, mac: Mac)
      requires Valid() && i < |list.pending| == |list.ring.items| && list.ring.items[i] == r
      modifies this, list, list.repr
      ensures Valid() && list.repr == old(list.repr)
      ensures Now() == Emptied(old(Now()), i, mac)
      ensures list.ring.links == old(list.ring.links) && list.ring.items == old(list.ring.items)
      ensures QueueSent(old(wire), wire, old(list.pending[i].iface), mac, old(list.pending[i].pkts))
    {
      hide PendingList.Valid, Transmits;
      WireTransmits(log, list.pending[i], mac);
      ghost var goal := Emptied(Now(), i, mac);
      list.QueueCursor(i, 0);
      if |list.pending[i].pkts| > 0 {
        list.QueueCursor(i, 1);
      }
      var pkt := r.cached.head.next;
      var q := pkt.next;
      while pkt != r.cached.head
        invariant Valid() && list.repr == old(list.repr)
        invariant list.ring.links == old(list.ring.links) && list.ring.items == old(list.ring.items)
        invariant Flushing(r, i, pkt, q, mac, goal)
        decreases |Now().reqs[i].pkts|
      {
        pkt, q := FlushTurn(r, pkt, q, i, mac, goal);
      }
      NothingToEmpty(Now(), i, mac);
    }

    method FlushTurn(r: ArpReq, pkt: Link<Packet>, q: Link<Packet>, ghost i: nat, mac: Mac, ghost goal: State)
      returns (pkt': Link<Packet>, q': Link<Packet>)
      requires Valid() && pkt != r.cached.head && Flushing(r, i, pkt, q, mac, goal)
      modifies this, list, list.repr
      ensures Valid() && list.repr == old(list.repr)
      ensures list.ring.links == old(list.ring.links) && list.ring.items == old(list.ring.items)
      ensures Flushing(r, i, pkt', q', mac, goal)
      ensures |Now().reqs[i].pkts| < old(|Now().reqs[i].pkts|)
    {
      hide PendingList.Valid, Transmits, Emptied;
      list.QueueCursor(i, 1);
      ghost var was := Now();
      EmptyNext(was, i, mac);
      Emit(r.iface, Addressed(pkt.item.value, mac), Transmit(r.ip4, r.iface, mac, pkt.item.value));
      list.PopPacket(r, pkt, i);
      RoutesKept();
      list.QueueCursor(i, 0);
      if |was.reqs[i].pkts| > 1 {
        list.QueueCursor(i, 1);
      }
      pkt', q' := q, q.next;
    }

    /** What is left of the walk of arpcache_insert. */
    ghost predicate Serving(i: nat, req: Link<ArpReq>, q: Link<ArpReq>, ip: u32, mac: Mac, goal: State)
      reads this, entries, list, list.ring
    {
      && i <= |Now().reqs| == |list.ring.items|
      && |list.ring.links| == |Now().reqs| + 1 && list.ring.links[0] == list.ring.head
      && FlushFrom(Now(), i, ip, mac) == goal
      && if req == list.ring.head then i == |Now().reqs|
         else i < |Now().reqs| && list.ring.links[i + 1] == req && q == list.ring.After(i + 1)
    }

    method ServeTurn(req: Link<ArpReq>, q: Link<ArpReq>, ghost i: nat, ip: u32, mac: Mac, ghost goal: State)
      returns (req': Link<ArpReq>, q': Link<ArpReq>, ghost i': nat)
      requires Valid() && req != list.ring.head && Serving(i, req, q, ip, mac, goal)
      modifies this, list, list.repr
      ensures Valid() && list.repr == old(list.repr)
      ensures Serving(i', req', q', ip, mac, goal)
      ensures |Now().reqs| - i' < old(|Now().reqs|) - i
    {
      hide PendingList.Valid, Emptied;
      list.Cursor(i + 1);
      if i + 1 < |list.pending| {
        list.Cursor(i + 2);
      }
      var r := req.item.value;
      if r.ip4 == ip {
        EmptiedLength(Now(), i, mac);
        FlushQueue(r, i, mac);
        list.Remove(req, i);
        RoutesKept();
        i' := i;
      } else {
        i' := i + 1;
      }
      list.Cursor(0);
      if q != list.ring.head {
        list.Cursor(i' + 1);
      }
      req', q' := q, q.next;
    }

    method ServeRequests(ip: u32, mac: Mac)
      requires Valid()
      modifies this, list, list.repr
      ensures Valid() && list.repr == old(list.repr)
      ensures Now() == FlushFrom(old(Now()), 0, ip, mac)
    {
      hide PendingList.Valid, Emptied;
      ghost var goal := FlushFrom(Now(), 0, ip, mac);
      list.Cursor(0);
      if |list.pending| > 0 {
        list.Cursor(1);
      }
      var req := list.ring.head.next;
      var q := req.next;
      ghost var i := 0;
      while req != list.ring.head
        invariant Valid() && list.repr == old(list.repr)
        invariant Serving(i, req, q, ip, mac, goal)
        decreases |Now().reqs| - i
      {
        req, q, i := ServeTurn(req, q, i, ip, mac, goal);
      }
    }

    /** arpcache_insert. */
    method Insert(ip: u32, mac: Mac, now: int)
      requires Valid()
      modifies this, entries, list, list.repr
      ensures Valid() && list.repr == old(list.repr)
      ensures Now() == Learn(old(Now()), ip, mac, now)
      ensures !Waits(old(list.pending), ip) ==> wire == old(wire)
      ensures forall i :: 0 <= i < |old(list.pending)| && Alone(old(list.pending), i, ip) ==>
                QueueSent(old(wire), wire, old(list.pending)[i].iface, mac, old(list.pending)[i].pkts)
    {
      hide PendingList.Valid, ArpTable.Put, FlushFrom, Flushed, Without;
      FlushedWire(log, list.pending, ip, mac);
      InsertEntry(entries, ip, mac, now);
      RoutesKept();
      FlushesAll(Now(), ip, mac);
      ServeRequests(ip, mac);
    }

    // -------------------------------------------------------------------------------------------
    // Received packets

    /** handle_arp_packet: every ARP packet teaches its sender's mapping, a request may be answered. */
    method HandleArp(iface: Iface, packet: Packet, now: int) returns (reply: Option<Packet>)
      requires Valid() && |packet| >= Arp.ARP_FRAME_SIZE
      modifies this, entries, list, list.repr
      ensures Valid() && list.repr == old(list.repr)
      ensures Now() == Learn(old(Now()), U32At(packet, 28), packet[22..28], now)
      ensures reply == Arp.ReplyTo(iface, Now().table, packet)
      ensures reply.Some? <==> Arp.Answerable(iface, Now().table, packet)
      ensures reply.Some? ==> Arp.AnswerTo(reply.value, iface, packet)
    {
      hide PendingList.Valid, Learn;
      Arp.FieldsRead(packet);
      Insert(Arp.Spa(packet), Arp.Sha(packet), now);
      reply := None;
      if Arp.Op(packet) == Arp.ARPOP_REQUEST {
        var found, mac := LookupEntry(entries, Arp.Tpa(packet));
        if Arp.Tpa(packet) == iface.ip || found {
          var sha := if Arp.Tpa(packet) == iface.ip then iface.mac else ZERO_MAC;
          var frame := Arp.BuildArpFrame(Arp.Sha(packet), iface.mac, Arp.ARPOP_REPLY, sha, Arp.Tpa(packet),
                                         Arp.Sha(packet), Arp.Spa(packet));
          reply := Some(frame[..]);
        }
      }
      Arp.ReplyExactly(iface, Now().table, packet);
    }

    /** handle_ip_packet and ip_forward_packet. */
    method HandleIp(iface: Iface, packet: array<u8>, now: int)
      requires Valid() && (packet as object) !in list.repr && packet.Length >= 42 && HasHeader(packet[..])
      requires Dst(packet[..]) == iface.ip ==> EchoFits(packet[..])
      modifies this, list, list.repr, packet
      ensures Valid() && (forall o :: o in list.repr ==> o in old(list.repr) || fresh(o))
      ensures Now() == HandledIp(order, rtable.items, draw, old(Now()), iface, old(packet[..]), now)
    {
      hide PendingList.Valid, IcmpSent, SubmitFrame, Framed, Rewritten, Lpm, EchoFits, HasHeader, Dst, Ttl;
      ghost var p := packet[..];
      var daddr := Dst(packet[..]);
      if daddr == iface.ip {
        IcmpSend(packet[..], ICMP_ECHOREPLY, 0, now);
      } else if Ttl(packet[..]) as int - 1 <= 0 {
        IcmpSend(packet[..], ICMP_TIME_EXCEEDED, 0, now);
      } else {
        var rt := LongestPrefixMatch(rtable, daddr);
        match rt {
          case Some(e) =>
            Rewrite(order, packet);
            RoutesKept();
            SendByArp(e.iface, if e.gw == 0 then daddr else e.gw, packet, now);
          case None =>
            IcmpSend(packet[..], ICMP_DEST_UNREACH, 0, now);
        }
      }
    }
  }

  /** A framed packet with its destination address filled in. */
  lemma FramedBehind(p: Packet, from: Mac, to: Mac)
    requires |p| >= 14
    ensures Over(Framed(p, from), 0, to) == to + from + [8, 0] + p[14..]
  {
  }

  lemma FlushedWire(log: seq<Event>, reqs: seq<Pending>, ip: u32, mac: Mac)
    ensures !Waits(reqs, ip) ==> Wire(log + Flushed(reqs, ip, mac)) == Wire(log)
    ensures forall i :: 0 <= i < |reqs| && Alone(reqs, i, ip) ==>
              QueueSent(Wire(log), Wire(log + Flushed(reqs, ip, mac)), reqs[i].iface, mac, reqs[i].pkts)
  {
    hide Flushed, Transmits, Wire;
    FlushedOne(reqs, ip, mac);
    if !Waits(reqs, ip) {
      assert log + [] == log;
    }
    forall i | 0 <= i < |reqs| && Alone(reqs, i, ip)
      ensures QueueSent(Wire(log), Wire(log + Flushed(reqs, ip, mac)), reqs[i].iface, mac, reqs[i].pkts)
    {
      WireTransmits(log, reqs[i], mac);
    }
  }

  /** What a received IP packet does to the resolver. */
  ghost function HandledIp(
      o: Order, table: seq<RtEntry>, draw: nat -> Draw, s: State, iface: Iface, p: Packet, now: int): State
    requires |p| >= 42 && HasHeader(p) && (Dst(p) == iface.ip ==> EchoFits(p))
  {
    if Dst(p) == iface.ip then IcmpSent(o, table, draw, s, p, ICMP_ECHOREPLY, 0, now)
    else
      match Forward(o, table, p)
      case Expired => IcmpSent(o, table, draw, s, p, ICMP_TIME_EXCEEDED, 0, now)
      case Unroutable => IcmpSent(o, table, draw, s, p, ICMP_DEST_UNREACH, 0, now)
      case Relay(out, hop, q) => SubmitFrame(s, out, hop, Framed(q, out.mac), now)
  }

  ghost function Removed(s: State, i: nat): State
    requires i < |s.reqs|
  {
    s.(reqs := Cut(s.reqs, i))
  }

  lemma EmptiedLength(s: State, i: nat, mac: Mac)
    requires i < |s.reqs|
    ensures |Emptied(s, i, mac).reqs| == |s.reqs|
  {
  }

  /** The walk of arpcache_insert from request i on. */
  ghost function FlushFrom(s: State, i: nat, ip: u32, mac: Mac): State
    requires i <= |s.reqs|
    decreases |s.reqs| - i
  {
    if i == |s.reqs| then s
    else if s.reqs[i].ip4 == ip then
      EmptiedLength(s, i, mac);
      FlushFrom(Removed(Emptied(s, i, mac), i), i, ip, mac)
    else FlushFrom(s, i + 1, ip, mac)
  }

  lemma ConsLast(r: Pending, rest: seq<Pending>)
    requires rest != []
    ensures var all := [r] + rest;
            all[..|all| - 1] == [r] + rest[..|rest| - 1] && all[|all| - 1] == rest[|rest| - 1]
  {
  }

  lemma {:induction false} FlushedCons(r: Pending, rest: seq<Pending>, ip: u32, mac: Mac)
    ensures Flushed([r] + rest, ip, mac) == (if r.ip4 == ip then Transmits(r, mac) else []) + Flushed(rest, ip, mac)
  {
    hide Transmits;
    var first := if r.ip4 == ip then Transmits(r, mac) else [];
    if rest == [] {
      assert ([r] + rest)[..0] == [] && ([r] + rest)[0] == r;
    } else {
      var last := rest[|rest| - 1];
      ConsLast(r, rest);
      FlushedCons(r, rest[..|rest| - 1], ip, mac);
      Regroup(first, Flushed(rest[..|rest| - 1], ip, mac), if last.ip4 == ip then Transmits(last, mac) else []);
    }
  }

  lemma {:induction false} WithoutCons(r: Pending, rest: seq<Pending>, ip: u32)
    ensures Without([r] + rest, ip) == (if r.ip4 == ip then [] else [r]) + Without(rest, ip)
  {
    if rest == [] {
      assert ([r] + rest)[..0] == [] && ([r] + rest)[0] == r;
    } else {
      var last := rest[|rest| - 1];
      ConsLast(r, rest);
      WithoutCons(r, rest[..|rest| - 1], ip);
      Regroup(if r.ip4 == ip then [] else [r], Without(rest[..|rest| - 1], ip), if last.ip4 == ip then [] else [last]);
    }
  }

  /** The end of the walk from request i on. */
  ghost function Served(s: State, i: nat, ip: u32, mac: Mac): State
    requires i <= |s.reqs|
  {
    s.(reqs := s.reqs[..i] + Without(s.reqs[i..], ip), log := s.log + Flushed(s.reqs[i..], ip, mac))
  }

  lemma ServedHere(s: State, i: nat, ip: u32, mac: Mac)
    requires i < |s.reqs| && s.reqs[i].ip4 == ip
    ensures i <= |Removed(Emptied(s, i, mac), i).reqs|
    ensures Served(Removed(Emptied(s, i, mac), i), i, ip, mac) == Served(s, i, ip, mac)
  {
    var r, rest, s1 := s.reqs[i], s.reqs[i + 1..], Removed(Emptied(s, i, mac), i);
    assert s1.reqs[..i] == s.reqs[..i] && s1.reqs[i..] == rest && s.reqs[i..] == [r] + rest;
    FlushedCons(r, rest, ip, mac);
    WithoutCons(r, rest, ip);
    Regroup(s.log, Transmits(r, mac), Flushed(rest, ip, mac));
    assert [] + Without(rest, ip) == Without(rest, ip);
  }

  lemma ServedElsewhere(s: State, i: nat, ip: u32, mac: Mac)
    requires i < |s.reqs| && s.reqs[i].ip4 != ip
    ensures Served(s, i + 1, ip, mac) == Served(s, i, ip, mac)
  {
    var r, rest := s.reqs[i], s.reqs[i + 1..];
    assert s.reqs[..i + 1] == s.reqs[..i] + [r] && s.reqs[i..] == [r] + rest;
    FlushedCons(r, rest, ip, mac);
    WithoutCons(r, rest, ip);
    Regroup(s.reqs[..i], [r], Without(rest, ip));
    assert [] + Flushed(rest, ip, mac) == Flushed(rest, ip, mac);
  }

  /** Request by request, the walk transmits and removes exactly what waits for the address. */
  lemma {:induction false} FlushFromIs(s: State, i: nat, ip: u32, mac: Mac)
    requires i <= |s.reqs|
    ensures FlushFrom(s, i, ip, mac) == Served(s, i, ip, mac)
    decreases |s.reqs| - i
  {
    if i == |s.reqs| {
      assert s.reqs[..i] + [] == s.reqs && s.log + [] == s.log && s.reqs[i..] == [];
    } else if s.reqs[i].ip4 == ip {
      ServedHere(s, i, ip, mac);
      FlushFromIs(Removed(Emptied(s, i, mac), i), i, ip, mac);
    } else {
      ServedElsewhere(s, i, ip, mac);
      FlushFromIs(s, i + 1, ip, mac);
    }
  }

  lemma FlushesAll(s: State, ip: u32, mac: Mac)
    ensures FlushFrom(s, 0, ip, mac) == s.(reqs := Without(s.reqs, ip), log := s.log + Flushed(s.reqs, ip, mac))
  {
    FlushFromIs(s, 0, ip, mac);
    assert s.reqs[0..] == s.reqs && s.reqs[..0] == [];
  }

  /** Request i with its whole queue transmitted. */
  ghost function Emptied(s: State, i: nat, mac: Mac): State
    requires i < |s.reqs|
  {
    s.(reqs := s.reqs[i := s.reqs[i].(pkts := [])], log := s.log + Transmits(s.reqs[i], mac))
  }

  lemma NothingToEmpty(s: State, i: nat, mac: Mac)
    requires i < |s.reqs| && s.reqs[i].pkts == []
    ensures Emptied(s, i, mac) == s
  {
    assert s.reqs[i := s.reqs[i]] == s.reqs;
    assert s.log + [] == s.log;
  }

  lemma EmptyNext(s: State, i: nat, mac: Mac)
    requires i < |s.reqs| && s.reqs[i].pkts != []
    ensures var r := s.reqs[i];
            Emptied(s, i, mac)
            == Emptied(s.(reqs := Popped(s.reqs, i), log := s.log + [Transmit(r.ip4, r.iface, mac, r.pkts[0])]), i, mac)
  {
    var r := s.reqs[i];
    var rest := r.(pkts := r.pkts[1..]);
    assert Transmits(r, mac) == [Transmit(r.ip4, r.iface, mac, r.pkts[0])] + Transmits(rest, mac);
  }
}
