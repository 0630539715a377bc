/** ip_forward_packet (ip_forwarding.c): the decision for one datagram, and what becomes of it along any
    chain of routers. */
module Forwarding {
  import opened Types
  import opened Checksums
  import opened Packets
  import opened IpHeaders
  import opened Routing

  /** Expired: answered with time exceeded. Unroutable: answered with net unreachable. Relay: sent on to the
      next hop with its TTL and checksum rewritten. */
  datatype Verdict = Expired | Unroutable | Relay(iface: Iface, hop: u32, pkt: Packet)

  /** TTL one less, then the checksum stored anew. */
  function Rewritten(o: Order, p: Packet): (r: Packet)
    requires HasHeader(p) && Ttl(p) >= 1
    ensures |r| == |p|
  {
    var q := Over(p, 22, [Ttl(p) - 1]);
    Over(q, 24, Store16(o, HeaderChecksum(o, q)))
  }

  method Rewrite(o: Order, buf: array<u8>)
    requires HasHeader(buf[..]) && Ttl(buf[..]) >= 1
    modifies buf
    ensures buf[..] == Rewritten(o, old(buf[..]))
  {
    ghost var was := buf[..];
    buf[22] := buf[22] - 1;
    assert buf[..] == Over(was, 22, [Ttl(was) - 1]);
    var c := IpChecksum(o, buf);
    Memcpy(buf, 24, Store16(o, c));
  }

  function Forward(o: Order, table: seq<RtEntry>, p: Packet): Verdict
    requires HasHeader(p)
  {
    if Ttl(p) as int - 1 <= 0 then Expired
    else
      match Lpm(table, Dst(p))
      case None => Unroutable
      case Some(k) => Relay(table[k].iface, if table[k].gw == 0 then Dst(p) else table[k].gw, Rewritten(o, p))
  }

  /** The same frame but for TTL and header checksum. */
  predicate SameButTtl(p: Packet, q: Packet) {
    && |p| == |q| >= 34
    && p[..22] == q[..22] && p[23] == q[23] && p[26..] == q[26..]
  }

  /** One hop: the TTL drops by exactly one and stays positive, nothing else changes but the checksum, and
      the header verifies. */
  lemma {:induction false} HopIsFaithful(o: Order, p: Packet)
    requires HasHeader(p) && Ttl(p) >= 2
    ensures var q := Rewritten(o, p);
            && HasHeader(q) && SameButTtl(p, q) && Dst(q) == Dst(p) && Src(q) == Src(p)
            && Ttl(q) == Ttl(p) - 1 && Ttl(q) >= 1 && Verifies(o, Header(q))
  {
    var q := Over(p, 22, [Ttl(p) - 1]);
    assert q[14] == p[14];
    SealedHeaderVerifies(o, q);
  }

  /** Either byte order accepts the same headers. */
  lemma {:induction false} VerifiesInAnyOrder(region: seq<u8>)
    requires |region| <= 131074
    ensures Verifies(Little, region) <==> Verifies(Big, region)
  {
    SmallBuffersFit(Little, region);
    SmallBuffersFit(Big, region);
    OnesSumIsCanonical(Little, region);
    OnesSumIsCanonical(Big, region);
    SumsSwap(region);
    SwapFull(Canonical(WordSum(Big, region)));
  }

  lemma SwapFull(w: u16)
    ensures Swap(w) == 0xFFFF <==> w == 0xFFFF
  {
    DivMod(w / 256, w % 256);
  }

  // ---------------------------------------------------------------------------------------------
  // Chains of routers

  datatype Router = Router(order: Order, table: seq<RtEntry>)

  /** How often the routers, one after the other, relay the datagram, and what is left of it then. */
  function Travel(routers: seq<Router>, p: Packet): (r: (nat, Packet))
    requires HasHeader(p)
    ensures r.0 <= |routers|
    decreases |routers|
  {
    if routers == [] then (0, p)
    else
      match Forward(routers[0].order, routers[0].table, p)
      case Expired => (0, p)
      case Unroutable => (0, p)
      case Relay(_, _, q) =>
        HopIsFaithful(routers[0].order, p);
        var (n, last) := Travel(routers[1..], q);
        (n + 1, last)
  }

  ghost predicate AcceptedAnywhere(region: seq<u8>) {
    forall o :: Verifies(o, region)
  }

  /** The datagram p arrives as last after n relays. */
  ghost predicate Arrives(p: Packet, n: nat, last: Packet)
    requires HasHeader(p)
  {
    && HasHeader(last) && SameButTtl(p, last)
    && n <= Ttl(p) - 1 && Ttl(last) == Ttl(p) - n
    && (n == 0 ==> last == p) && (n > 0 ==> AcceptedAnywhere(Header(last)))
  }

  lemma OneRelay(o: Order, p: Packet)
    requires HasHeader(p) && Ttl(p) >= 2
    ensures Arrives(p, 1, Rewritten(o, p))
  {
    var q := Rewritten(o, p);
    HopIsFaithful(o, p);
    VerifiesInAnyOrder(Header(q));
    forall any ensures Verifies(any, Header(q)) {
      match any
      case Little =>
      case Big =>
    }
  }

  lemma ArrivesTwice(p: Packet, q: Packet, n: nat, last: Packet)
    requires HasHeader(p) && Arrives(p, 1, q) && Arrives(q, n, last)
    ensures Arrives(p, n + 1, last)
  {
    assert p[..22] == q[..22] == last[..22];
  }

  /** Over any chain of routers with any tables, even looping ones: a datagram is relayed at most TTL - 1
      times, each time losing one from its TTL and keeping everything but TTL and checksum; once relayed it
      has a header that verifies at any router. */
  lemma {:induction false} TravelIsBounded(routers: seq<Router>, p: Packet)
    requires HasHeader(p) && Ttl(p) >= 1
    ensures Arrives(p, Travel(routers, p).0, Travel(routers, p).1)
    decreases |routers|
  {
    if routers != [] && Forward(routers[0].order, routers[0].table, p).Relay? {
      var q := Rewritten(routers[0].order, p);
      OneRelay(routers[0].order, p);
      TravelIsBounded(routers[1..], q);
      ArrivesTwice(p, q, Travel(routers[1..], q).0, Travel(routers[1..], q).1);
    }
  }

  /** The bound is reached: with a route at every router, the datagram is relayed exactly TTL - 1 times and
      expires at the next router. */
  lemma {:induction false} TravelUntilExpired(routers: seq<Router>, p: Packet)
    requires HasHeader(p) && 1 <= Ttl(p) <= |routers|
    requires forall i :: 0 <= i < |routers| ==> Lpm(routers[i].table, Dst(p)).Some?
    ensures var (n, last) := Travel(routers, p);
            && n == Ttl(p) - 1 && HasHeader(last)
            && Forward(routers[n].order, routers[n].table, last) == Expired
    decreases |routers|
  {
    if Ttl(p) > 1 {
      HopIsFaithful(routers[0].order, p);
      TravelUntilExpired(routers[1..], Rewritten(routers[0].order, p));
    }
  }
}
