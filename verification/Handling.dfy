/** What the router does with one received packet, read off the bytes received and the bytes submitted: which packets
    it relays and by which interface, which it answers and with which message, and what an ARP packet teaches. */
module Handling {
  import opened Types
  import opened Checksums
  import opened Packets
  import opened IpHeaders
  import opened Routing
  import opened Forwarding
  import opened Icmp
  import opened ArpTable
  import opened Resolver
  import opened RouterEnvs
  import opened Systems
  import Arp

  /** The frame f carries p's datagram one hop on, by interface out: framed from its hardware address as IPv4, TTL one
      less, the header checksum right, every other byte as received. */
  ghost predicate Carries(o: Order, f: Packet, p: Packet, out: Iface)
    requires HasHeader(p)
  {
    && |f| == |p| && f[..6] == p[..6] && f[6..12] == out.mac && f[12..14] == [8, 0]
    && f[14..22] == p[14..22] && f[22] as int == p[22] as int - 1 && f[23] == p[23] && f[26..] == p[26..]
    && Verifies(o, f[14..14 + HeaderLength(p)])
  }

  lemma FramedCarries(o: Order, p: Packet, out: Iface)
    requires HasHeader(p) && p[22] >= 2
    ensures Carries(o, Framed(Rewritten(o, p), out.mac), p, out)
  {
    hide Rewritten, Framed, Verifies;
    var q := Rewritten(o, p);
    var f := Framed(q, out.mac);
    HopIsFaithful(o, p);
    FramedParts(q, out.mac);
    assert HeaderLength(q) == HeaderLength(p) by {
      assert q[14] == q[..22][14] && p[14] == p[..22][14];
    }
    Behind(q, f, 14, 22);
    Behind(q, f, 14, 14 + HeaderLength(p));
    Behind(q, f, 26, |q|);
    assert q[14..22] == q[..22][14..22] && p[14..22] == p[..22][14..22];
    assert f[22] == f[14..][8] && f[23] == f[14..][9] && q[22] == q[14..][8] && q[23] == q[14..][9];
    assert f[..6] == q[..6] == q[..22][..6] && p[..6] == p[..22][..6];
    assert q[26..|q|] == q[26..] && f[26..|f|] == f[26..];
  }

  lemma Behind(r: Packet, f: Packet, lo: nat, hi: nat)
    requires |r| == |f| && 14 <= lo <= hi <= |r| && f[14..] == r[14..]
    ensures f[lo..hi] == r[lo..hi]
  {
    Slice(r, 14, |r|, lo - 14, hi - 14);
    Slice(f, 14, |f|, lo - 14, hi - 14);
  }

  /** A datagram for another address, with TTL left and a route, is relayed: submitted for the gateway of the entry
      that matches its destination best, or for the destination itself if that entry has none, by the interface of
      that entry. */
  lemma {:induction false} Relays(c: Config, s: State, iface: Iface, p: Packet, now: int, k: int)
    requires WellFormed(IpIn(iface, p, now)) && |s.table| == MAX_ARP_SIZE
    requires U32At(p, 30) != iface.ip && p[22] >= 2 && Kept(c.table, U32At(p, 30), k)
    ensures var e, r := c.table[k], Handle(c, s, IpIn(iface, p, now));
            && r.Some? && |s.log| < |r.value.log| && r.value.log[|s.log|].Submit?
            && var f := r.value.log[|s.log|].pkt;
               && Carries(c.order, f, p, e.iface)
               && Leaves(s, r.value, e.iface, if e.gw == 0 then U32At(p, 30) else e.gw, f, now)
  {
    hide Carries, Rewritten, Framed, Lpm;
    var e := c.table[k];
    KeptIsLpm(c.table, U32At(p, 30), k);
    FramedCarries(c.order, p, e.iface);
    SubmitLeaves(s, e.iface, if e.gw == 0 then U32At(p, 30) else e.gw, Framed(Rewritten(c.order, p), e.iface.mac), now);
  }

  /** From s to r, a packet was answered: a message of that type and code was submitted for its source, by the interface
      of the entry that matches the source best; or nothing happened, because no entry matches. */
  ghost predicate Answered(c: Config, s: State, r: State, p: Packet, kind: u8, code: u8, now: int)
    requires |p| >= 42
  {
    && (!Routed(c.table, U32At(p, 26)) ==> r == s)
    && forall k :: Kept(c.table, U32At(p, 26), k) ==>
         && |s.log| < |r.log| && r.log[|s.log|].Submit?
         && Leaves(s, r, c.table[k].iface, U32At(p, 26), r.log[|s.log|].pkt, now)
         && Answers(c.order, r.log[|s.log|].pkt, c.table[k].iface, p, kind, code)
  }

  lemma SentAnswered(c: Config, s: State, p: Packet, kind: u8, code: u8, now: int)
    requires |p| >= 42 && (kind == 0 ==> EchoFits(p)) && (kind == 0 || kind == 3 || kind == 11)
    ensures Answered(c, s, IcmpSent(c.order, c.table, c.draw, s, p, kind, code, now), p, kind, code, now)
  {
    hide IcmpSent, Leaves, Answers, Kept;
    IcmpAnswersSource(c.order, c.table, c.draw, s, p, kind, code, now);
  }

  /** A packet for the interface's own address is answered with an echo reply: type 0, code 0. */
  lemma {:induction false} Echoes(c: Config, s: State, iface: Iface, p: Packet, now: int)
    requires WellFormed(IpIn(iface, p, now)) && |s.table| == MAX_ARP_SIZE && U32At(p, 30) == iface.ip
    ensures var r := Handle(c, s, IpIn(iface, p, now));
            r.Some? && Answered(c, s, r.value, p, 0, 0, now)
  {
    hide Answered, IcmpSent;
    SentAnswered(c, s, p, 0, 0, now);
  }

  /** A datagram for another address whose TTL is used up is answered with time exceeded: type 11, code 0. */
  lemma {:induction false} Expires(c: Config, s: State, iface: Iface, p: Packet, now: int)
    requires WellFormed(IpIn(iface, p, now)) && |s.table| == MAX_ARP_SIZE && U32At(p, 30) != iface.ip && p[22] <= 1
    ensures var r := Handle(c, s, IpIn(iface, p, now));
            r.Some? && Answered(c, s, r.value, p, 11, 0, now)
  {
    hide Answered, IcmpSent;
    SentAnswered(c, s, p, 11, 0, now);
  }

  /** A datagram with TTL left that no entry matches is answered with net unreachable: type 3, code 0. */
  lemma {:induction false} Unreachable(c: Config, s: State, iface: Iface, p: Packet, now: int)
    requires WellFormed(IpIn(iface, p, now)) && |s.table| == MAX_ARP_SIZE
    requires U32At(p, 30) != iface.ip && p[22] >= 2 && !Routed(c.table, U32At(p, 30))
    ensures var r := Handle(c, s, IpIn(iface, p, now));
            r.Some? && Answered(c, s, r.value, p, 3, 0, now)
  {
    hide Answered, IcmpSent, Lpm;
    RoutedIsLpm(c.table, U32At(p, 30));
    SentAnswered(c, s, p, 3, 0, now);
  }

  /** Every ARP packet teaches the address at byte 28 the hardware address at byte 22: it resolves to that, requests
      for it are gone, and nothing else begins to resolve. */
  lemma {:induction false} Teaches(c: Config, s: State, iface: Iface, p: Packet, now: int, a: u32)
    requires |p| >= 42 && |s.table| == MAX_ARP_SIZE
    ensures var r := Handle(c, s, ArpIn(iface, p, now));
            && r.Some? && Lookup(r.value.table, U32At(p, 28)) == Some(p[22..28])
            && !Waits(r.value.reqs, U32At(p, 28))
            && (a != U32At(p, 28) && Lookup(s.table, a).None? ==> Lookup(r.value.table, a).None?)
  {
    Arp.FieldsRead(p);
    LookupAfterPut(s.table, Entry(U32At(p, 28), p[22..28], now, true), U32At(p, 28));
    LookupAfterPut(s.table, Entry(U32At(p, 28), p[22..28], now, true), a);
    NoneLeft(s.reqs, U32At(p, 28));
  }

  lemma NoneLeft(reqs: seq<Pending>, ip: u32)
    ensures !Waits(Without(reqs, ip), ip)
  {
  }
}
