/** The frames that leave: what iface_send_packet is given, read off the log of events. */
module Wires {
  import opened Types
  import opened Packets
  import opened Resolver
  import Arp

  datatype Sent = Sent(iface: Iface, frame: Packet)

  /** A frame with its destination address filled in. */
  function Addressed(pkt: Packet, mac: Mac): (r: Packet)
    ensures |r| == |pkt|
    ensures |pkt| >= 6 ==> r[..6] == mac && r[6..] == pkt[6..]
  {
    if |pkt| < 6 then pkt else Over(pkt, 0, mac)
  }

  /** What an event puts on the wire. */
  function Frames(e: Event): seq<Sent> {
    match e
    case Transmit(_, iface, mac, pkt) => [Sent(iface, Addressed(pkt, mac))]
    case Ask(iface, hop) => [Sent(iface, Arp.RequestFrame(iface, hop))]
    case _ => []
  }

  function Wire(log: seq<Event>): seq<Sent> {
    if log == [] then [] else Frames(log[0]) + Wire(log[1..])
  }

  lemma {:induction false} WireConcat(a: seq<Event>, b: seq<Event>)
    ensures Wire(a + b) == Wire(a) + Wire(b)
  {
    if a == [] {
      assert a + b == b;
    } else {
      hide Frames;
      WireConcat(a[1..], b);
      assert (a + b)[1..] == a[1..] + b;
      Regroup(Frames(a[0]), Wire(a[1..]), Wire(b));
    }
  }

  lemma WirePush(log: seq<Event>, e: Event)
    ensures Wire(log + [e]) == Wire(log) + Frames(e)
  {
    WireConcat(log, [e]);
    assert [e][1..] == [];
  }

  /** What leaves, event by event and in their order: for a transmission the frame with its destination address in
      front, for a question one ARP request, for anything else nothing. */
  lemma {:induction false} WireExactly(a: seq<Event>, e: Event, b: seq<Event>)
    ensures Wire([]) == []
    ensures match e
            case Transmit(_, iface, mac, pkt) =>
              |pkt| >= 6 ==> Wire(a + [e] + b) == Wire(a) + [Sent(iface, mac + pkt[6..])] + Wire(b)
            case Ask(iface, hop) =>
              exists f :: Arp.Asks(f, iface, hop) && Wire(a + [e] + b) == Wire(a) + [Sent(iface, f)] + Wire(b)
            case _ => Wire(a + [e] + b) == Wire(a) + Wire(b)
  {
    WireConcat(a + [e], b);
    WirePush(a, e);
    match e
    case Transmit(_, iface, mac, pkt) =>
      assert |pkt| >= 6 ==> Addressed(pkt, mac) == mac + pkt[6..];
    case Ask(iface, hop) => Arp.RequestAsks(iface, hop);
    case _ => assert Wire(a) + [] == Wire(a);
  }

  /** From before to after, one ARP request for hop left by iface. */
  ghost predicate OneRequest(before: seq<Sent>, after: seq<Sent>, iface: Iface, hop: u32) {
    && |after| == |before| + 1 && after[..|before|] == before
    && after[|before|].iface == iface && Arp.Asks(after[|before|].frame, iface, hop)
  }

  /** From before to after, the queue q left by iface: one frame per packet, in order, each with the destination
      address in front and the rest as queued. */
  ghost predicate QueueSent(before: seq<Sent>, after: seq<Sent>, iface: Iface, mac: Mac, q: seq<Packet>) {
    && |after| == |before| + |q| && after[..|before|] == before
    && forall j :: 0 <= j < |q| && |q[j]| >= 6 ==> after[|before| + j] == Sent(iface, mac + q[j][6..])
  }

  lemma WireAsk(log: seq<Event>, iface: Iface, hop: u32)
    ensures OneRequest(Wire(log), Wire(log + [Ask(iface, hop)]), iface, hop)
  {
    WirePush(log, Ask(iface, hop));
    Arp.RequestAsks(iface, hop);
  }

  lemma AddressedParts(pkt: Packet, mac: Mac)
    ensures |pkt| >= 6 ==> Addressed(pkt, mac) == mac + pkt[6..]
  {
  }

  lemma {:induction false} WireTransmits(log: seq<Event>, r: Pending, mac: Mac)
    ensures QueueSent(Wire(log), Wire(log + Transmits(r, mac)), r.iface, mac, r.pkts)
    decreases |r.pkts|
  {
    hide Wire, Addressed;
    if r.pkts == [] {
      assert log + Transmits(r, mac) == log;
    } else {
      var last := r.pkts[|r.pkts| - 1];
      var rest := r.(pkts := r.pkts[..|r.pkts| - 1]);
      var e := Transmit(r.ip4, r.iface, mac, last);
      WireTransmits(log, rest, mac);
      assert Transmits(r, mac) == Transmits(rest, mac) + [e];
      Regroup(log, Transmits(rest, mac), [e]);
      WirePush(log + Transmits(rest, mac), e);
      AddressedParts(last, mac);
      assert Frames(e) == [Sent(r.iface, Addressed(last, mac))];
    }
  }

  /** One request for the address: the flush is its queue. None: nothing. */
  lemma {:induction false} FlushedOne(reqs: seq<Pending>, ip: u32, mac: Mac)
    ensures !Waits(reqs, ip) ==> Flushed(reqs, ip, mac) == []
    ensures forall i :: 0 <= i < |reqs| && Alone(reqs, i, ip) ==> Flushed(reqs, ip, mac) == Transmits(reqs[i], mac)
  {
    hide Transmits;
    if reqs != [] {
      var rest, n := reqs[..|reqs| - 1], |reqs| - 1;
      FlushedOne(rest, ip, mac);
      if !Waits(reqs, ip) {
        assert reqs[n].ip4 != ip;
        assert forall k :: 0 <= k < n ==> rest[k] == reqs[k];
      }
      forall i | 0 <= i < |reqs| && Alone(reqs, i, ip) ensures Flushed(reqs, ip, mac) == Transmits(reqs[i], mac) {
        if i < n {
          assert Alone(rest, i, ip);
        } else {
          assert !Waits(rest, ip);
        }
      }
    }
  }

  /** Request i is for the address, and no other is. */
  ghost predicate Alone(reqs: seq<Pending>, i: nat, ip: u32) {
    i < |reqs| && forall k :: 0 <= k < |reqs| ==> (reqs[k].ip4 == ip <==> k == i)
  }

  lemma WireSilent(log: seq<Event>, more: seq<Event>)
    requires forall k :: 0 <= k < |more| ==> Frames(more[k]) == []
    ensures Wire(log + more) == Wire(log)
  {
    WireConcat(log, more);
    NothingOut(more);
  }

  lemma NothingOut(log: seq<Event>)
    requires forall k :: 0 <= k < |log| ==> Frames(log[k]) == []
    ensures Wire(log) == []
  {
    hide Frames;
  }
}
