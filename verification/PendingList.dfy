/** The two-level list of pending requests on the heap: a ring of requests, each owning a ring of packets. */
module PendingLists {
  import opened Types
  import opened Rings
  import opened Resolver

  /** struct arp_req. */
  class ArpReq {
    const iface: Iface
    const ip4: u32
    const sent: int
    var retries: int
    const cached: Ring<Packet>

    constructor (iface: Iface, ip4: u32, sent: int)
      ensures this.iface == iface && this.ip4 == ip4 && this.sent == sent && retries == 0
      ensures fresh(cached) && fresh(cached.head) && cached.Valid()
      ensures cached.items == [] && cached.links == [cached.head]
    {
      this.iface, this.ip4, this.sent, retries := iface, ip4, sent, 0;
      cached := new Ring<Packet>();
    }

    ghost function Value(): Pending
      reads this, cached
    {
      Pending(ip4, iface, sent, retries, cached.items)
    }
  }

  /** No two requests share a record or a queue. */
  ghost predicate Separate(rs: seq<ArpReq>) {
    forall i, j :: 0 <= i < j < |rs| ==> rs[i] != rs[j] && rs[i].cached != rs[j].cached
  }

  lemma SeparateCut(rs: seq<ArpReq>, k: nat)
    requires Separate(rs) && k < |rs|
    ensures Separate(Cut(rs, k))
  {
  }

  /** A request and its queue, all among the objects, stand for p. */
  ghost predicate QueueShows(r: ArpReq, p: Pending, objects: set<object>)
    reads objects
  {
    && r in objects && r.cached in objects && (forall l :: l in r.cached.links ==> l in objects)
    && r.cached.Valid() && r.Value() == p
  }

  /** The ring and everything that hangs off it, all of it among the objects, stand for p. */
  ghost predicate Represents(ring: Ring<ArpReq>, p: seq<Pending>, objects: set<object>)
    reads objects
  {
    && ring in objects && (forall l :: l in ring.links ==> l in objects)
    && ring.Valid() && |p| == |ring.items|
    && Separate(ring.items) && (forall r :: r in ring.items ==> (r.cached as object) != ring)
    && forall i :: 0 <= i < |p| ==> QueueShows(ring.items[i], p[i], objects)
  }

  ghost function Pushed(p: seq<Pending>, i: nat, pkt: Packet): seq<Pending>
    requires i < |p|
  {
    p[i := p[i].(pkts := p[i].pkts + [pkt])]
  }

  ghost function Popped(p: seq<Pending>, i: nat): seq<Pending>
    requires i < |p| && p[i].pkts != []
  {
    p[i := p[i].(pkts := p[i].pkts[1..])]
  }

  /** arpcache.req_list with everything that hangs off it. */
  class PendingList {
    const ring: Ring<ArpReq>
    /** What the list stands for. */
    ghost var pending: seq<Pending>
    ghost var repr: set<object>

    ghost predicate Valid()
      reads this, repr
    {
      this !in repr && Represents(ring, pending, repr)
    }

    constructor ()
      ensures Valid() && fresh(repr) && pending == []
    {
      ring := new Ring<ArpReq>();
      new;
      pending := [];
      repr := {ring, ring.head};
    }

    ghost method Account(p: seq<Pending>, objects: set<object>)
      requires this !in objects && Represents(ring, p, objects)
      modifies this
      ensures Valid() && pending == p && repr == objects
    {
      pending, repr := p, objects;
    }

    /** Since the old state the list only grew at tails: its own and those of its queues. */
    twostate predicate TailsOnly()
      reads ring, set r | r in ring.items :: r.cached
    {
      && old(ring.links) <= ring.links && old(ring.items) <= ring.items
      && forall r :: r in old(ring.items) ==> old(r.cached.links) <= r.cached.links
    }

    /** Threading a link onto one queue leaves every other queue and the outer ring as they are. */
    method AppendLink(r: ArpReq, l: Link<Packet>, ghost i: nat, ghost p: seq<Pending>, ghost objects: set<object>)
      requires Represents(ring, p, objects) && i < |p| && ring.items[i] == r
      requires l.item.Some? && l.home == null && l !in objects
      modifies r.cached, r.cached.links, l
      ensures Represents(ring, Pushed(p, i, l.item.value), objects + {l})
      ensures ring.links == old(ring.links) && ring.items == old(ring.items)
      ensures r.cached.links == old(r.cached.links) + [l]
    {
      hide Carries, Rings.NoRepeats;
      r.cached.AddTail(l);
      forall j | 0 <= j < |p| && j != i ensures QueueShows(ring.items[j], p[j], objects + {l}) {
        assert ring.items[j].cached != r.cached && old(QueueShows(ring.items[j], p[j], objects));
      }
      assert QueueShows(r, Pushed(p, i, l.item.value)[i], objects + {l});
    }

    /** Threading a request without packets onto the list leaves every queue as it is. */
    method AppendRequest(n: Link<ArpReq>, r: ArpReq, ghost p: seq<Pending>, ghost objects: set<object>)
      requires Represents(ring, p, objects)
      requires n.item == Some(r) && n.home == null
      requires r.cached.Valid() && r.cached.links == [r.cached.head]
      requires {n, r, r.cached, r.cached.head} !! objects
      modifies ring, ring.links, n
      ensures Represents(ring, p + [r.Value()], objects + {n, r, r.cached, r.cached.head})
      ensures ring.links == old(ring.links) + [n] && ring.items == old(ring.items) + [r]
    {
      hide Carries, Rings.NoRepeats;
      ghost var more := {n, r, r.cached, r.cached.head};
      ring.AddTail(n);
      forall j | 0 <= j < |p| ensures QueueShows(ring.items[j], p[j], objects + more) {
        assert old(QueueShows(ring.items[j], p[j], objects));
      }
      assert QueueShows(r, r.Value(), objects + more);
    }

    /** The outer ring and every queue but the i-th are untouched. */
    method AddPacket(r: ArpReq, pkt: Packet, ghost i: nat)
      requires Valid() && i < |pending| && ring.items[i] == r
      modifies this, repr
      ensures Valid() && (forall o :: o in repr ==> o in old(repr) || fresh(o))
      ensures pending == Pushed(old(pending), i, pkt)
      ensures ring.links == old(ring.links) && ring.items == old(ring.items) && TailsOnly()
    {
      hide Represents;
      Owned(i);
      var l := new Link<Packet>(Some(pkt));
      ghost var p, objects := Pushed(pending, i, pkt), repr + {l};
      AppendLink(r, l, i, pending, repr);
      Account(p, objects);
    }

    lemma Owned(i: nat)
      requires Valid() && i < |pending|
      ensures |pending| == |ring.items| && ring in repr && ring.items[i].cached in repr
      ensures (ring.items[i].cached as object) != ring && forall l :: l in ring.items[i].cached.links ==> l in repr
      ensures forall r :: r in ring.items && r != ring.items[i] ==> r.cached != ring.items[i].cached
    {
    }

    lemma RingOwned()
      requires Valid()
      ensures ring in repr && forall l :: l in ring.links ==> l in repr
    {
    }

    /** A new request, still without packets, at the end of the list. */
    method NewRequest(iface: Iface, ip4: u32, now: int) returns (r: ArpReq)
      requires Valid()
      modifies this, repr
      ensures Valid() && (forall o :: o in repr ==> o in old(repr) || fresh(o))
      ensures pending == old(pending) + [Pending(ip4, iface, now, 0, [])]
      ensures |old(ring.links)| + 1 == |ring.links| && ring.items == old(ring.items) + [r] && TailsOnly()
    {
      hide Represents;
      RingOwned();
      r := new ArpReq(iface, ip4, now);
      var n := new Link<ArpReq>(Some(r));
      ghost var p, more := pending + [r.Value()], {n, r, r.cached, r.cached.head};
      assert fresh(more) && this !in more;
      AppendRequest(n, r, pending, repr);
      Account(p, repr + more);
    }

    /** A new request with its first packet. */
    method Open(iface: Iface, ip4: u32, now: int, pkt: Packet)
      requires Valid()
      modifies this, repr
      ensures Valid() && (forall o :: o in repr ==> o in old(repr) || fresh(o))
      ensures pending == old(pending) + [Pending(ip4, iface, now, 0, [pkt])]
      ensures TailsOnly()
    {
      hide Represents;
      Cursor(0);
      var r := NewRequest(iface, ip4, now);
      Cursor(0);
      AddPacket(r, pkt, |pending| - 1);
      assert [] + [pkt] == [pkt];
    }

    /** Taking the first link off one queue leaves every other queue and the outer ring as they are. */
    method DeleteFirst(r: ArpReq, l: Link<Packet>, ghost i: nat, ghost p: seq<Pending>, ghost objects: set<object>)
      requires Represents(ring, p, objects) && i < |p| && ring.items[i] == r
      requires p[i].pkts != [] && r.cached.links[1] == l
      modifies r.cached, r.cached.links
      ensures Represents(ring, Popped(p, i), objects)
      ensures ring.links == old(ring.links) && ring.items == old(ring.items)
      ensures r.cached.links == Cut(old(r.cached.links), 1)
    {
      hide Carries, Rings.NoRepeats;
      r.cached.Delete(l, 0);
      forall j | 0 <= j < |p| && j != i ensures QueueShows(ring.items[j], p[j], objects) {
        assert ring.items[j].cached != r.cached && old(QueueShows(ring.items[j], p[j], objects));
      }
      assert QueueShows(r, Popped(p, i)[i], objects);
    }

    method PopPacket(r: ArpReq, l: Link<Packet>, ghost i: nat)
      requires Valid() && i < |pending| && ring.items[i] == r
      requires pending[i].pkts != [] && r.cached.links[1] == l
      modifies this, repr
      ensures Valid() && repr == old(repr) && pending == Popped(old(pending), i)
      ensures ring.links == old(ring.links) && ring.items == old(ring.items)
      ensures r.cached.links == Cut(old(r.cached.links), 1)
    {
      ghost var p := Popped(pending, i);
      DeleteFirst(r, l, i, pending, repr);
      Account(p, repr);
    }

    /** Unthreading a request leaves the others in order. */
    method DeleteRequest(n: Link<ArpReq>, ghost i: nat, ghost p: seq<Pending>, ghost objects: set<object>)
      requires Represents(ring, p, objects) && i < |p| && ring.links[i + 1] == n
      modifies ring, ring.links
      ensures Represents(ring, Cut(p, i), objects)
      ensures ring.links == Cut(old(ring.links), i + 1) && ring.items == Cut(old(ring.items), i)
    {
      hide Carries, Rings.NoRepeats;
      SeparateCut(ring.items, i);
      ring.Delete(n, i);
      forall j | 0 <= j < |p| ensures QueueShows(old(ring.items)[j], p[j], objects) {
        assert old(QueueShows(ring.items[j], p[j], objects));
      }
    }

    method Remove(n: Link<ArpReq>, ghost i: nat)
      requires Valid() && i < |pending| && ring.links[i + 1] == n
      modifies this, repr
      ensures Valid() && repr == old(repr) && pending == Cut(old(pending), i)
      ensures ring.links == Cut(old(ring.links), i + 1) && ring.items == Cut(old(ring.items), i)
    {
      ghost var p := Cut(pending, i);
      DeleteRequest(n, i, pending, repr);
      Account(p, repr);
    }

    method CountRetry(r: ArpReq, ghost i: nat, ghost p: seq<Pending>, ghost objects: set<object>)
      requires Represents(ring, p, objects) && i < |p| && ring.items[i] == r
      modifies r
      ensures Represents(ring, p[i := p[i].(retries := p[i].retries + 1)], objects)
    {
      r.retries := r.retries + 1;
    }

    method Retry(r: ArpReq, ghost i: nat)
      requires Valid() && i < |pending| && ring.items[i] == r
      modifies this, repr
      ensures Valid() && repr == old(repr)
      ensures pending == old(pending)[i := old(pending[i]).(retries := old(pending[i].retries) + 1)]
      ensures ring.links == old(ring.links) && ring.items == old(ring.items)
    {
      ghost var p := pending[i := pending[i].(retries := pending[i].retries + 1)];
      CountRetry(r, i, pending, repr);
      Account(p, repr);
    }

    /** What a cursor at position i sees: its request, and the way to the next one. */
    lemma Cursor(i: nat)
      requires Valid() && i <= |pending|
      ensures |ring.links| == |pending| + 1 && |ring.items| == |pending|
      ensures ring.links[0] == ring.head && ring.links[i].next == ring.After(i)
      ensures i > 0 ==> ring.links[i] != ring.head && ring.links[i].item == Some(ring.items[i - 1])
      ensures i > 0 ==> ring.items[i - 1].Value() == pending[i - 1]
    {
    }

    /** What a cursor at position j of the i-th queue sees. */
    lemma QueueCursor(i: nat, j: nat)
      requires Valid() && i < |pending| && j <= |pending[i].pkts|
      ensures |ring.items| == |pending| && ring.items[i].Value() == pending[i]
      ensures var q := ring.items[i].cached;
              && |q.links| == |pending[i].pkts| + 1 && q.links[0] == q.head && q.links[j].next == q.After(j)
              && (j > 0 ==> q.links[j] != q.head && q.links[j].item == Some(pending[i].pkts[j - 1]))
    {
      assert QueueShows(ring.items[i], pending[i], repr);
    }

    /** The loop of arpcache_append_packet: a copy for every request of the address. */
    method PushAll(ip4: u32, pkt: Packet) returns (found: bool)
      requires Valid()
      modifies this, repr
      ensures Valid() && (forall o :: o in repr ==> o in old(repr) || fresh(o))
      ensures pending == Enqueue(old(pending), ip4, pkt) && found == Waits(old(pending), ip4)
      ensures TailsOnly()
    {
      hide PendingList.Valid;
      found := false;
      Cursor(0);
      var pos := ring.head.next;
      ghost var i := 0;
      while pos != ring.head
        invariant Valid() && (forall o :: o in repr ==> o in old(repr) || fresh(o))
        invariant ring.links == old(ring.links) && ring.items == old(ring.items) && TailsOnly()
        invariant i <= |pending| == |old(pending)| && |ring.links| == |pending| + 1 && pos == ring.After(i)
        invariant forall k :: 0 <= k < |pending| ==>
                    pending[k] == if k < i then Push(old(pending)[k], ip4, pkt) else old(pending)[k]
        invariant found ==> Waits(old(pending), ip4)
        invariant !found ==> forall k :: 0 <= k < i ==> old(pending)[k].ip4 != ip4
        decreases |pending| - i
      {
        Cursor(i + 1);
        var r := pos.item.value;
        if r.ip4 == ip4 {
          found := true;
          AddPacket(r, pkt, i);
        }
        Cursor(i + 1);
        pos, i := pos.next, i + 1;
      }
      if i < |pending| {
        Cursor(i + 1);
      }
    }
  }
}
