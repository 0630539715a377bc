/** The next-hop resolver as a state machine over values: arpcache.c and the send path of arp.c.
    A state is the table, the list of pending requests in ring order, and the log of what happened. */
module Resolver {
  import opened Types
  import opened ArpTable

  const ARP_REQUEST_MAX_RETRIES := 5

  /** struct arp_req with its queue of cached packets. */
  datatype Pending = Pending(ip4: u32, iface: Iface, sent: int, retries: int, pkts: seq<Packet>)

  /** Submit: a frame is handed over for a next hop. Transmit: it leaves, its destination address set to mac.
      GiveUp: the sweep reports it unreachable. Lost: it is still queued when its request is unlinked.
      Ask: an ARP request for a next hop leaves. */
  datatype Event =
    | Submit(hop: u32, pkt: Packet)
    | Transmit(hop: u32, iface: Iface, mac: Mac, pkt: Packet)
    | GiveUp(hop: u32, pkt: Packet)
    | Lost(hop: u32, pkt: Packet)
    | Ask(iface: Iface, hop: u32)

  /** draws counts the calls of rand() made while building ICMP packets. */
  datatype State = State(table: seq<Entry>, reqs: seq<Pending>, log: seq<Event>, draws: nat)

  /** What the sweep needs from the rest of the router: the outgoing interface for an address, the source
      address of a queued packet, and the framed host-unreachable report for it, whose IP id is the n-th
      random draw. */
  datatype Env = Env(route: u32 -> Option<Iface>, src: Packet -> u32, report: (Packet, Iface, nat) -> Packet)

  /** A report is sent from the address of the interface it leaves by. */
  ghost predicate EnvOK(env: Env) {
    forall p: Packet, iface: Iface, n: nat :: env.src(env.report(p, iface, n)) == iface.ip
  }

  const INIT := State(InitialTable(), [], [], 0)

  // ---------------------------------------------------------------------------------------------
  // Append, submit, learn

  ghost predicate Waits(reqs: seq<Pending>, ip: u32) {
    exists k :: 0 <= k < |reqs| && reqs[k].ip4 == ip
  }

  function Push(r: Pending, ip: u32, pkt: Packet): Pending {
    if r.ip4 == ip then r.(pkts := r.pkts + [pkt]) else r
  }

  /** The loop does not stop at the first match, so every request for the address gets a copy. */
  function Enqueue(reqs: seq<Pending>, ip: u32, pkt: Packet): (r: seq<Pending>)
    ensures |r| == |reqs|
    ensures forall k :: 0 <= k < |reqs| ==> r[k] == Push(reqs[k], ip, pkt)
  {
    seq(|reqs|, i requires 0 <= i < |reqs| => Push(reqs[i], ip, pkt))
  }

  ghost function Append(s: State, iface: Iface, ip: u32, pkt: Packet, now: int): State {
    if Waits(s.reqs, ip) then s.(reqs := Enqueue(s.reqs, ip, pkt))
    else s.(reqs := s.reqs + [Pending(ip, iface, now, 0, [pkt])], log := s.log + [Ask(iface, ip)])
  }

  /** iface_send_packet_by_arp, for a frame whose source address and type are already filled in. */
  ghost function SubmitFrame(s: State, iface: Iface, hop: u32, pkt: Packet, now: int): (r: State)
    ensures s.log <= r.log
  {
    var s1 := s.(log := s.log + [Submit(hop, pkt)]);
    match Lookup(s.table, hop)
    case Some(mac) => s1.(log := s1.log + [Transmit(hop, iface, mac, pkt)])
    case None => Append(s1, iface, hop, pkt, now)
  }

  /** What handing over frame f for a next hop does, from s to r: it leaves at once, through the given interface, if
      the hop resolves; it joins the end of the queue if a request for the hop waits; otherwise it opens a request,
      and the hop is asked for through the interface. */
  ghost predicate Leaves(s: State, r: State, iface: Iface, hop: u32, f: Packet, now: int) {
    && r.table == s.table
    && match Lookup(s.table, hop)
       case Some(mac) => r.log == s.log + [Submit(hop, f), Transmit(hop, iface, mac, f)] && r.reqs == s.reqs
       case None =>
         if Waits(s.reqs, hop) then
           && r.log == s.log + [Submit(hop, f)] && |r.reqs| == |s.reqs|
           && forall k :: 0 <= k < |s.reqs| ==>
                r.reqs[k] == if s.reqs[k].ip4 == hop then s.reqs[k].(pkts := s.reqs[k].pkts + [f]) else s.reqs[k]
         else
           && r.log == s.log + [Submit(hop, f), Ask(iface, hop)]
           && r.reqs == s.reqs + [Pending(hop, iface, now, 0, [f])]
  }

  lemma SubmitLeaves(s: State, iface: Iface, hop: u32, f: Packet, now: int)
    ensures Leaves(s, SubmitFrame(s, iface, hop, f, now), iface, hop, f, now)
  {
  }

  function Transmits(r: Pending, mac: Mac): (t: seq<Event>)
    ensures |t| == |r.pkts|
    ensures forall k :: 0 <= k < |t| ==> t[k] == Transmit(r.ip4, r.iface, mac, r.pkts[k])
  {
    seq(|r.pkts|, i requires 0 <= i < |r.pkts| => Transmit(r.ip4, r.iface, mac, r.pkts[i]))
  }

  /** The frames of every request for the address, request by request. */
  function Flushed(reqs: seq<Pending>, ip: u32, mac: Mac): seq<Event> {
    if reqs == [] then []
    else
      var r := reqs[|reqs| - 1];
      Flushed(reqs[..|reqs| - 1], ip, mac) + if r.ip4 == ip then Transmits(r, mac) else []
  }

  function Without(reqs: seq<Pending>, ip: u32): (w: seq<Pending>) {
    if reqs == [] then []
    else
      var r := reqs[|reqs| - 1];
      Without(reqs[..|reqs| - 1], ip) + if r.ip4 == ip then [] else [r]
  }

  /** arpcache_insert: update the table, send what waited for the address, drop the request. */
  ghost function Learn(s: State, ip: u32, mac: Mac, now: int): State
    requires |s.table| == MAX_ARP_SIZE
  {
    s.(table := Put(s.table, Entry(ip, mac, now, true)),
       log := s.log + Flushed(s.reqs, ip, mac),
       reqs := Without(s.reqs, ip))
  }

  // ---------------------------------------------------------------------------------------------
  // The sweep and the sends it makes while it walks

  /** Nothing but queue tails and the list tail changes, and what is new has not been retried. */
  ghost predicate Grown(a: seq<Pending>, b: seq<Pending>) {
    && |a| <= |b|
    && (forall k :: 0 <= k < |a| ==> b[k] == a[k].(pkts := b[k].pkts) && a[k].pkts <= b[k].pkts)
    && (forall k :: |a| <= k < |b| ==> b[k].retries == 0)
  }

  /** icmp_send_packet(pkt, len, 3, 1): route back to the packet's source and submit a report to it. */
  ghost function Report(env: Env, s: State, pkt: Packet, now: int): (r: State)
    ensures Grown(s.reqs, r.reqs) && r.table == s.table && s.log <= r.log
  {
    match env.route(env.src(pkt))
    case None => s
    case Some(iface) =>
      SubmitFrame(s.(draws := s.draws + 1), iface, env.src(pkt), env.report(pkt, iface, s.draws), now)
  }

  /** One turn of the inner loop: give up the first packet of request i, then unlink it. */
  ghost function Visit(env: Env, s: State, i: nat, now: int): (r: State)
    requires i < |s.reqs| && s.reqs[i].pkts != []
    ensures |s.reqs| <= |r.reqs| && r.table == s.table && s.log <= r.log
    ensures Grown(s.reqs[i := s.reqs[i].(pkts := s.reqs[i].pkts[1..])], r.reqs)
  {
    var q := s.reqs[i];
    var s1 := Report(env, s.(log := s.log + [GiveUp(q.ip4, q.pkts[0])]), q.pkts[0], now);
    s1.(reqs := s1.reqs[i := s1.reqs[i].(pkts := s1.reqs[i].pkts[1..])])
  }

  /** A report for an address comes back to that address's own queue. */
  ghost predicate Returns(env: Env, table: seq<Entry>, a: u32) {
    Lookup(table, a).None? && env.route(a).Some?
  }

  /** The router would answer for the address from that very address: it is one of its own. */
  predicate Own(env: Env, a: u32) {
    env.route(a).Some? && env.route(a).value.ip == a
  }

  function FromSelf(env: Env, a: u32, q: seq<Packet>): (n: nat)
    ensures n <= |q|
  {
    if q == [] then 0 else (if env.src(q[0]) == a then 1 else 0) + FromSelf(env, a, q[1..])
  }

  /** The walk over the queue of address a comes to an end. */
  ghost predicate Ends(env: Env, table: seq<Entry>, a: u32, q: seq<Packet>) {
    Returns(env, table, a) && Own(env, a) ==> FromSelf(env, a, q) < 2
  }

  /** How the walked queue changes in one turn. */
  ghost function NextQueue(env: Env, table: seq<Entry>, a: u32, q: seq<Packet>, n: nat): seq<Packet>
    requires q != []
  {
    q[1..] + if Returns(env, table, a) && env.src(q[0]) == a then [env.report(q[0], env.route(a).value, n)] else []
  }

  lemma VisitQueue(env: Env, s: State, i: nat, now: int)
    requires i < |s.reqs| && s.reqs[i].pkts != []
    ensures Visit(env, s, i, now).reqs[i].pkts
            == NextQueue(env, s.table, s.reqs[i].ip4, s.reqs[i].pkts, s.draws)
    ensures Visit(env, s, i, now).reqs[i].ip4 == s.reqs[i].ip4
  {
    var q := s.reqs[i];
    var p := q.pkts[0];
    var s0 := s.(log := s.log + [GiveUp(q.ip4, p)]);
    var s1 := Report(env, s0, p, now);
    if env.route(env.src(p)).Some? && Lookup(s.table, env.src(p)).None? {
      if env.src(p) == q.ip4 {
        assert Waits(s0.reqs, q.ip4);
        assert s1.reqs[i] == Push(q, q.ip4, env.report(p, env.route(q.ip4).value, s.draws));
      } else if Waits(s0.reqs, env.src(p)) {
        assert s1.reqs[i] == Push(q, env.src(p), env.report(p, env.route(env.src(p)).value, s.draws));
      }
    }
  }

  lemma FromSelfSplit(env: Env, a: u32, p: seq<Packet>, q: seq<Packet>)
    ensures FromSelf(env, a, p + q) == FromSelf(env, a, p) + FromSelf(env, a, q)
  {
    if p == [] {
      assert p + q == q;
    } else {
      assert (p + q)[1..] == p[1..] + q;
      FromSelfSplit(env, a, p[1..], q);
    }
  }

  /** An upper bound on the turns the walk still takes. */
  ghost function Turns(env: Env, table: seq<Entry>, a: u32, q: seq<Packet>): nat {
    if !Returns(env, table, a) || q == [] then |q|
    else if Own(env, a) then |q| + FromSelf(env, a, q[..|q| - 1])
    else |q| + FromSelf(env, a, q)
  }

  lemma TurnsDecrease(env: Env, table: seq<Entry>, a: u32, q: seq<Packet>, n: nat)
    requires EnvOK(env) && |q| > 1
    requires Ends(env, table, a, q)
    ensures Ends(env, table, a, NextQueue(env, table, a, q, n))
    ensures Turns(env, table, a, NextQueue(env, table, a, q, n)) < Turns(env, table, a, q)
  {
    if Returns(env, table, a) {
      var q' := NextQueue(env, table, a, q, n);
      if env.src(q[0]) == a {
        var e := env.report(q[0], env.route(a).value, n);
        assert env.src(e) == env.route(a).value.ip;
        assert q' == q[1..] + [e];
        FromSelfSplit(env, a, q[1..], [e]);
        assert FromSelf(env, a, [e]) == if Own(env, a) then 1 else 0;
        if Own(env, a) {
          assert q'[..|q'| - 1] == q[1..];
          assert q[..|q| - 1][0] == q[0];
        }
      } else {
        assert q' == q[1..];
        assert q[..|q| - 1][1..] == q'[..|q'| - 1];
      }
    } else {
      assert NextQueue(env, table, a, q, n) == q[1..];
    }
  }

  /** The inner loop: the successor is fetched before the turn, so the walk stops after the packet that was
      last when its turn began, whatever was appended behind it meanwhile. */
  ghost function Drain(env: Env, s: State, i: nat, now: int): (r: State)
    requires EnvOK(env) && i < |s.reqs|
    requires Ends(env, s.table, s.reqs[i].ip4, s.reqs[i].pkts)
    ensures |s.reqs| <= |r.reqs| && r.table == s.table && s.log <= r.log
    ensures r.reqs[i] == s.reqs[i].(pkts := r.reqs[i].pkts)
    ensures Grown(s.reqs[i := r.reqs[i]], r.reqs)
    decreases Turns(env, s.table, s.reqs[i].ip4, s.reqs[i].pkts)
  {
    var q := s.reqs[i];
    if q.pkts == [] then s
    else
      var s1 := Visit(env, s, i, now);
      VisitQueue(env, s, i, now);
      if |q.pkts| == 1 then s1
      else
        TurnsDecrease(env, s.table, q.ip4, q.pkts, s.draws);
        Drain(env, s1, i, now)
  }
}
