/** Per next hop, what was handed over is what was settled followed by what still waits: nothing is lost
    unaccounted, nothing is settled twice, nothing overtakes. */
module Conservation {
  import opened Types
  import opened ArpTable
  import opened Resolver
  import opened SweepPass
  import opened Invariant

  /** Handed: submitted. Settled: transmitted, given up or lost. Reported: given up, which means that
      icmp_send_packet was called for it; that sends something if the packet's source has a route, and nothing
      otherwise (Reporting.RunInforms). */
  datatype Kind = Handed | Settled | Reported

  predicate Counts(kind: Kind, e: Event) {
    match kind
    case Handed => e.Submit?
    case Settled => e.Transmit? || e.GiveUp? || e.Lost?
    case Reported => e.GiveUp?
  }

  function Picks(kind: Kind, h: u32, e: Event): seq<Packet> {
    if Counts(kind, e) && e.hop == h then [e.pkt] else []
  }

  /** The packets of one kind for one next hop, in the order of the log. */
  function Project(kind: Kind, h: u32, log: seq<Event>): seq<Packet> {
    if log == [] then [] else Picks(kind, h, log[0]) + Project(kind, h, log[1..])
  }

  lemma {:induction false} ProjectConcat(kind: Kind, h: u32, a: seq<Event>, b: seq<Event>)
    ensures Project(kind, h, a + b) == Project(kind, h, a) + Project(kind, h, b)
  {
    if a == [] {
      assert a + b == b;
    } else {
      ProjectConcat(kind, h, a[1..], b);
      assert (a + b)[1..] == a[1..] + b;
      Regroup(Picks(kind, h, a[0]), Project(kind, h, a[1..]), Project(kind, h, b));
    }
  }

  lemma ProjectPush(kind: Kind, h: u32, log: seq<Event>, e: Event)
    ensures Project(kind, h, log + [e]) == Project(kind, h, log) + Picks(kind, h, e)
  {
    ProjectConcat(kind, h, log, [e]);
    assert Project(kind, h, [e]) == Picks(kind, h, e);
  }

  lemma {:induction false} ProjectLosses(kind: Kind, h: u32, a: u32, q: seq<Packet>)
    ensures Project(kind, h, Losses(a, q)) == if kind.Settled? && h == a then q else []
  {
    if q != [] {
      var rest := q[..|q| - 1];
      ProjectLosses(kind, h, a, rest);
      assert Losses(a, q) == Losses(a, rest) + [Lost(a, q[|q| - 1])];
      ProjectPush(kind, h, Losses(a, rest), Lost(a, q[|q| - 1]));
    }
  }

  lemma NoTransmits(r: Pending, mac: Mac)
    requires r.pkts == []
    ensures Transmits(r, mac) == []
  {
  }

  lemma TransmitsLast(r: Pending, rest: Pending, mac: Mac)
    requires r.pkts != [] && rest == r.(pkts := r.pkts[..|r.pkts| - 1])
    ensures Transmits(r, mac) == Transmits(rest, mac) + [Transmit(r.ip4, r.iface, mac, r.pkts[|r.pkts| - 1])]
  {
  }

  lemma {:induction false} ProjectTransmits(kind: Kind, h: u32, r: Pending, mac: Mac)
    ensures Project(kind, h, Transmits(r, mac)) == if kind.Settled? && h == r.ip4 then r.pkts else []
    decreases |r.pkts|
  {
    hide Transmits;
    if r.pkts == [] {
      NoTransmits(r, mac);
    } else {
      var rest := r.(pkts := r.pkts[..|r.pkts| - 1]);
      var last := Transmit(r.ip4, r.iface, mac, r.pkts[|r.pkts| - 1]);
      ProjectTransmits(kind, h, rest, mac);
      TransmitsLast(r, rest, mac);
      ProjectPush(kind, h, Transmits(rest, mac), last);
    }
  }

  /** What waits for an address. */
  ghost function Queue(reqs: seq<Pending>, h: u32): seq<Packet> {
    if Waits(reqs, h) then
      var k :| 0 <= k < |reqs| && reqs[k].ip4 == h; reqs[k].pkts
    else []
  }

  lemma QueueAt(reqs: seq<Pending>, k: nat)
    requires Distinct(reqs) && k < |reqs|
    ensures Queue(reqs, reqs[k].ip4) == reqs[k].pkts
  {
    assert Waits(reqs, reqs[k].ip4);
  }

  ghost predicate Law(s: State, h: u32) {
    Project(Handed, h, s.log) == Project(Settled, h, s.log) + Queue(s.reqs, h)
  }

  /** From s to r the packets d were handed over for h; they were settled with nothing waiting before them,
      or they joined the end of the queue. */
  ghost predicate Moved(s: State, r: State, h: u32, d: seq<Packet>) {
    && Project(Handed, h, r.log) == Project(Handed, h, s.log) + d
    && Project(Reported, h, r.log) == Project(Reported, h, s.log)
    && ((Project(Settled, h, r.log) == Project(Settled, h, s.log) && Queue(r.reqs, h) == Queue(s.reqs, h) + d)
        || (Project(Settled, h, r.log) == Project(Settled, h, s.log) + d && Queue(r.reqs, h) == Queue(s.reqs, h) == []))
  }

  /** Handing over one frame: it is transmitted at once with nothing waiting before it, or it joins the
      end of the queue. */
  lemma SubmitMoves(s: State, iface: Iface, hop: u32, pkt: Packet, now: int, h: u32)
    requires Keyed(s)
    ensures Moved(s, SubmitFrame(s, iface, hop, pkt, now), h, if h == hop then [pkt] else [])
    ensures Lookup(s.table, hop).None? ==>
              Project(Settled, h, SubmitFrame(s, iface, hop, pkt, now).log) == Project(Settled, h, s.log)
  {
    var s1 := s.(log := s.log + [Submit(hop, pkt)]);
    PushSilently(s, Submit(hop, pkt), h);
    if Lookup(s.table, hop).Some? {
      PushSilently(s1, Transmit(hop, iface, Lookup(s.table, hop).value, pkt), h);
      assert h == hop ==> !Waits(s.reqs, h);
    } else {
      AppendMoves(s1, iface, hop, pkt, now, h);
    }
  }

  lemma PushSilently(s: State, e: Event, h: u32)
    ensures forall kind: Kind :: Project(kind, h, s.log + [e]) == Project(kind, h, s.log) + Picks(kind, h, e)
  {
    forall kind: Kind ensures Project(kind, h, s.log + [e]) == Project(kind, h, s.log) + Picks(kind, h, e) {
      ProjectPush(kind, h, s.log, e);
    }
  }

  lemma AskSilently(s: State, iface: Iface, hop: u32, h: u32)
    ensures forall kind: Kind :: Project(kind, h, s.log + [Ask(iface, hop)]) == Project(kind, h, s.log)
  {
    PushSilently(s, Ask(iface, hop), h);
  }

  lemma AppendMoves(s: State, iface: Iface, ip: u32, pkt: Packet, now: int, h: u32)
    requires Distinct(s.reqs)
    ensures Queue(Append(s, iface, ip, pkt, now).reqs, h) == Queue(s.reqs, h) + if h == ip then [pkt] else []
    ensures forall kind: Kind :: Project(kind, h, Append(s, iface, ip, pkt, now).log) == Project(kind, h, s.log)
  {
    var r := Append(s, iface, ip, pkt, now);
    AskSilently(s, iface, ip, h);
    assert Distinct(r.reqs);
    if Waits(s.reqs, h) {
      var k :| 0 <= k < |s.reqs| && s.reqs[k].ip4 == h;
      QueueAt(s.reqs, k);
      QueueAt(r.reqs, k);
    } else if h == ip {
      QueueAt(r.reqs, |s.reqs|);
    } else {
      assert !Waits(r.reqs, h);
    }
  }

  lemma ReportMoves(env: Env, s: State, pkt: Packet, now: int, h: u32) returns (d: seq<Packet>)
    requires Keyed(s)
    ensures Moved(s, Report(env, s, pkt, now), h, d)
  {
    d := [];
    match env.route(env.src(pkt))
    case None =>
    case Some(iface) =>
      var s0 := s.(draws := s.draws + 1);
      SubmitMoves(s0, iface, env.src(pkt), env.report(pkt, iface, s.draws), now, h);
      d := if h == env.src(pkt) then [env.report(pkt, iface, s.draws)] else [];
  }

  lemma QueueOnUpdate(reqs: seq<Pending>, i: nat, q: seq<Packet>, h: u32)
    requires Distinct(reqs) && i < |reqs|
    ensures Queue(reqs[i := reqs[i].(pkts := q)], h) == if h == reqs[i].ip4 then q else Queue(reqs, h)
  {
    var r := reqs[i := reqs[i].(pkts := q)];
    if Waits(reqs, h) {
      var k :| 0 <= k < |reqs| && reqs[k].ip4 == h;
      QueueAt(reqs, k);
      QueueAt(r, k);
    } else {
      assert !Waits(r, h);
    }
  }

  lemma KeyedReport(env: Env, s: State, pkt: Packet, now: int)
    requires Keyed(s)
    ensures Keyed(Report(env, s, pkt, now))
  {
  }

  /** Dropping the head of the queue once its report has gone out. */
  ghost function HeadDropped(s: State, i: nat): State
    requires i < |s.reqs| && s.reqs[i].pkts != []
  {
    s.(reqs := s.reqs[i := s.reqs[i].(pkts := s.reqs[i].pkts[1..])])
  }

  lemma PopOther(s: State, r: State, i: nat, h: u32)
    requires Distinct(r.reqs) && i < |r.reqs| && r.reqs[i].pkts != [] && h != r.reqs[i].ip4
    requires Law(r, h)
    ensures Law(HeadDropped(r, i), h)
  {
    QueueOnUpdate(r.reqs, i, r.reqs[i].pkts[1..], h);
  }

  lemma PopOwn(s: State, r: State, i: nat, q: seq<Packet>, d: seq<Packet>)
    requires i < |s.reqs| && i < |r.reqs| && s.reqs[i].ip4 == r.reqs[i].ip4
    requires Distinct(s.reqs) && Distinct(r.reqs) && Law(s, s.reqs[i].ip4)
    requires q == s.reqs[i].pkts != [] && r.reqs[i].pkts != []
    requires Project(Handed, s.reqs[i].ip4, r.log) == Project(Handed, s.reqs[i].ip4, s.log) + d
    requires Project(Settled, s.reqs[i].ip4, r.log) == Project(Settled, s.reqs[i].ip4, s.log) + [q[0]]
    requires Queue(r.reqs, s.reqs[i].ip4) == q + d
    ensures Law(HeadDropped(r, i), s.reqs[i].ip4)
  {
    var a := s.reqs[i].ip4;
    QueueAt(s.reqs, i);
    QueueAt(r.reqs, i);
    QueueOnUpdate(r.reqs, i, r.reqs[i].pkts[1..], a);
    HeadSettled(Project(Handed, a, s.log), Project(Settled, a, s.log), q, d);
  }

  /** One turn of the drain settles exactly the first packet of the queue, and keeps the law even when the
      report it sends comes back into the same queue. */
  lemma VisitConserves(env: Env, s: State, i: nat, now: int, h: u32)
    requires Keyed(s) && i < |s.reqs| && s.reqs[i].pkts != []
    requires Law(s, h)
    ensures Law(Visit(env, s, i, now), h)
    ensures Project(Reported, h, Visit(env, s, i, now).log)
            == Project(Reported, h, s.log) + if h == s.reqs[i].ip4 then [s.reqs[i].pkts[0]] else []
  {
    var q := s.reqs[i].pkts;
    var s0 := s.(log := s.log + [GiveUp(s.reqs[i].ip4, q[0])]);
    var s1 := Report(env, s0, q[0], now);
    var d := ReportMoves(env, s0, q[0], now, h);
    KeyedReport(env, s0, q[0], now);
    GiveUpAndPop(s, s0, s1, i, h, d);
  }

  lemma GiveUpAndPop(s: State, s0: State, s1: State, i: nat, h: u32, d: seq<Packet>)
    requires Distinct(s.reqs) && Distinct(s1.reqs) && Law(s, h)
    requires i < |s.reqs| && s.reqs[i].pkts != []
    requires i < |s1.reqs| && s1.reqs[i].ip4 == s.reqs[i].ip4 && s1.reqs[i].pkts != []
    requires s0 == s.(log := s.log + [GiveUp(s.reqs[i].ip4, s.reqs[i].pkts[0])])
    requires Moved(s0, s1, h, d)
    ensures Law(HeadDropped(s1, i), h)
    ensures Project(Reported, h, s1.log)
            == Project(Reported, h, s.log) + if h == s.reqs[i].ip4 then [s.reqs[i].pkts[0]] else []
  {
    var e := GiveUp(s.reqs[i].ip4, s.reqs[i].pkts[0]);
    ProjectPush(Handed, h, s.log, e);
    ProjectPush(Settled, h, s.log, e);
    ProjectPush(Reported, h, s.log, e);
    if h == s.reqs[i].ip4 {
      GiveUpOwn(s, s0, s1, i, d);
    } else {
      assert Law(s0, h);
      LawMoved(s0, s1, h, d);
      PopOther(s0, s1, i, h);
    }
  }

  lemma GiveUpOwn(s: State, s0: State, s1: State, i: nat, d: seq<Packet>)
    requires Distinct(s.reqs) && Distinct(s1.reqs) && i < |s.reqs| && Law(s, s.reqs[i].ip4)
    requires i < |s1.reqs| && s1.reqs[i].ip4 == s.reqs[i].ip4
    requires s.reqs[i].pkts != [] && s1.reqs[i].pkts != []
    requires s0.reqs == s.reqs && Project(Handed, s.reqs[i].ip4, s0.log) == Project(Handed, s.reqs[i].ip4, s.log)
    requires Project(Settled, s.reqs[i].ip4, s0.log)
             == Project(Settled, s.reqs[i].ip4, s.log) + [s.reqs[i].pkts[0]]
    requires Moved(s0, s1, s.reqs[i].ip4, d)
    ensures Law(HeadDropped(s1, i), s.reqs[i].ip4)
  {
    QueueAt(s.reqs, i);
    PopOwn(s, s1, i, s.reqs[i].pkts, d);
  }

  lemma HeadSettled(handed: seq<Packet>, settled: seq<Packet>, q: seq<Packet>, d: seq<Packet>)
    requires q != [] && handed == settled + q
    ensures handed + d == (settled + [q[0]]) + (q + d)[1..]
  {
  }

  lemma LawMoved(s: State, r: State, h: u32, d: seq<Packet>)
    requires Law(s, h) && Moved(s, r, h, d)
    ensures Law(r, h)
  {
    Regroup(Project(Settled, h, s.log), Queue(s.reqs, h), d);
    if Queue(s.reqs, h) == [] {
      assert Project(Settled, h, s.log) + [] + d == Project(Settled, h, s.log) + d;
    }
  }

  /** What the drain reports for h beyond what was reported before. */
  ghost predicate ReportsAtLeast(s: State, r: State, h: u32, q: seq<Packet>) {
    Project(Reported, h, s.log) + q <= Project(Reported, h, r.log)
  }

  /** Draining a queue reports every packet that was in it, in order, and reports nothing for others. */
  lemma {:induction false} DrainConserves(env: Env, s: State, i: nat, now: int, h: u32)
    requires EnvOK(env) && i < |s.reqs| && Keyed(s) && Filled(s.reqs, i)
    requires Ends(env, s.table, s.reqs[i].ip4, s.reqs[i].pkts) && Law(s, h)
    ensures Law(Drain(env, s, i, now), h)
    ensures h != s.reqs[i].ip4 ==> Project(Reported, h, Drain(env, s, i, now).log) == Project(Reported, h, s.log)
    ensures h == s.reqs[i].ip4 ==> ReportsAtLeast(s, Drain(env, s, i, now), h, s.reqs[i].pkts)
    decreases Turns(env, s.table, s.reqs[i].ip4, s.reqs[i].pkts)
  {
    var a, q := s.reqs[i].ip4, s.reqs[i].pkts;
    if q == [] {
      assert Project(Reported, h, s.log) + q == Project(Reported, h, s.log);
    } else {
      var s1 := Visit(env, s, i, now);
      VisitConserves(env, s, i, now, h);
      VisitKeeps(env, s, i, now);
      VisitQueue(env, s, i, now);
      if |q| > 1 {
        TurnsDecrease(env, s.table, a, q, s.draws);
        DrainConserves(env, s1, i, now, h);
        if h == a {
          ReportsChain(Project(Reported, h, s.log), q, s1.reqs[i].pkts,
                       Project(Reported, h, Drain(env, s1, i, now).log));
        }
      } else {
        assert q == [q[0]];
      }
    }
  }

  lemma ReportsChain(before: seq<Packet>, q: seq<Packet>, q1: seq<Packet>, after: seq<Packet>)
    requires q != [] && q[1..] <= q1
    requires (before + [q[0]]) + q1 <= after
    ensures before + q <= after
  {
    assert before + q == (before + [q[0]]) + q[1..];
  }

  lemma UnlinkConserves(s: State, i: nat, h: u32)
    requires Keyed(s) && i < |s.reqs| && Law(s, h)
    ensures Law(Unlink(s, i), h)
    ensures Project(Reported, h, Unlink(s, i).log) == Project(Reported, h, s.log)
  {
    var a, q, r := s.reqs[i].ip4, s.reqs[i].pkts, Unlink(s, i);
    forall kind: Kind
      ensures Project(kind, h, r.log) == Project(kind, h, s.log) + if kind.Settled? && h == a then q else []
    {
      ProjectConcat(kind, h, s.log, Losses(a, q));
      ProjectLosses(kind, h, a, q);
    }
    QueueUnlinked(s, i, h);
  }

  lemma QueueUnlinked(s: State, i: nat, h: u32)
    requires Keyed(s) && i < |s.reqs|
    ensures Queue(Unlink(s, i).reqs, h) == if h == s.reqs[i].ip4 then [] else Queue(s.reqs, h)
    ensures h == s.reqs[i].ip4 ==> Queue(s.reqs, h) == s.reqs[i].pkts
  {
    var r := Unlink(s, i);
    QueueAt(s.reqs, i);
    if h != s.reqs[i].ip4 && Waits(s.reqs, h) {
      var k :| 0 <= k < |s.reqs| && s.reqs[k].ip4 == h;
      QueueAt(s.reqs, k);
      QueueAt(r.reqs, if k < i then k else k - 1);
    }
  }

  lemma RetryConserves(s: State, i: nat, now: int, h: u32)
    requires Keyed(s) && i < |s.reqs| && Law(s, h)
    ensures Law(Retry(s, i, now), h)
    ensures Project(Reported, h, Retry(s, i, now).log) == Project(Reported, h, s.log)
  {
    var q, r := s.reqs[i], Retry(s, i, now);
    AskSilently(s, q.iface, q.ip4, h);
    if Waits(s.reqs, h) {
      var k :| 0 <= k < |s.reqs| && s.reqs[k].ip4 == h;
      QueueAt(s.reqs, k);
      QueueAt(r.reqs, k);
    } else {
      assert !Waits(r.reqs, h);
    }
  }

  lemma {:induction false} SweepFromConserves(env: Env, s: State, i: nat, now: int, h: u32)
    requires EnvOK(env) && i <= |s.reqs| && Inv(s) && Law(s, h)
    requires SweepFrom(env, s, i, now).Some?
    ensures Law(SweepFrom(env, s, i, now).value, h)
    decreases Exhausted(s.reqs[i..]), |s.reqs| - i
  {
    if i < |s.reqs| {
      if s.reqs[i].retries >= ARP_REQUEST_MAX_RETRIES {
        var d := Drain(env, s, i, now);
        DrainConserves(env, s, i, now, h);
        DrainKeeps(env, s, i, now);
        UnlinkConserves(d, i, h);
        UnlinkKeeps(d, i);
        if i < |s.reqs| - 1 {
          GiveUpCounts(env, s, i, now);
          SweepFromConserves(env, Unlink(d, i), i, now, h);
        }
      } else {
        RetryConserves(s, i, now, h);
        RetryKeeps(s, i, now);
        if i < |s.reqs| - 1 {
          ExhaustedTail(s.reqs, Retry(s, i, now).reqs, i);
          SweepFromConserves(env, Retry(s, i, now), i + 1, now, h);
        }
      }
    }
  }

  /** The flush settles exactly the queue of the learned address, in order. */
  lemma {:induction false} ProjectFlushed(kind: Kind, h: u32, reqs: seq<Pending>, ip: u32, mac: Mac)
    requires Distinct(reqs)
    ensures Project(kind, h, Flushed(reqs, ip, mac)) == if kind.Settled? && h == ip then Queue(reqs, h) else []
  {
    if reqs != [] {
      var rest, r := reqs[..|reqs| - 1], reqs[|reqs| - 1];
      ProjectFlushed(kind, h, rest, ip, mac);
      ProjectConcat(kind, h, Flushed(rest, ip, mac), if r.ip4 == ip then Transmits(r, mac) else []);
      ProjectTransmits(kind, h, r, mac);
      QueueLast(reqs, h);
    }
  }

  lemma QueueLast(reqs: seq<Pending>, h: u32)
    requires Distinct(reqs) && reqs != []
    ensures var rest, r := reqs[..|reqs| - 1], reqs[|reqs| - 1];
            && Queue(reqs, h) == Queue(rest, h) + (if r.ip4 == h then r.pkts else [])
            && (r.ip4 == h ==> Queue(rest, h) == [])
  {
    var rest, last := reqs[..|reqs| - 1], |reqs| - 1;
    QueueAt(reqs, last);
    if Waits(rest, h) {
      var k :| 0 <= k < |rest| && rest[k].ip4 == h;
      QueueAt(rest, k);
      QueueAt(reqs, k);
    } else if reqs[last].ip4 != h {
      assert !Waits(reqs, h);
    }
  }

  lemma QueueWithout(reqs: seq<Pending>, ip: u32, h: u32)
    requires Distinct(reqs)
    ensures Queue(Without(reqs, ip), h) == if h == ip then [] else Queue(reqs, h)
  {
    var w := Without(reqs, ip);
    WithoutFacts(reqs, ip);
    if h != ip && Waits(reqs, h) {
      var j :| 0 <= j < |reqs| && reqs[j].ip4 == h;
      assert reqs[j] in w;
      var k :| 0 <= k < |w| && w[k] == reqs[j];
      QueueAt(reqs, j);
      QueueAt(w, k);
    } else {
      forall k | 0 <= k < |w| ensures w[k].ip4 != h {
        assert w[k] in w && w[k] in reqs;
      }
    }
  }

  /** Learning a mapping settles exactly what waits for its address, in order: nothing is handed over or given up,
      nothing of other addresses is settled, and other queues stay as they are. */
  lemma LearnConserves(s: State, ip: u32, mac: Mac, now: int, h: u32)
    requires Inv(s) && Law(s, h)
    ensures Law(Learn(s, ip, mac, now), h)
    ensures forall kind: Kind ::
              Project(kind, h, Learn(s, ip, mac, now).log)
              == Project(kind, h, s.log) + if kind.Settled? && h == ip then Queue(s.reqs, h) else []
    ensures Queue(Learn(s, ip, mac, now).reqs, h) == if h == ip then [] else Queue(s.reqs, h)
  {
    forall kind: Kind
      ensures Project(kind, h, Learn(s, ip, mac, now).log)
              == Project(kind, h, s.log) + if kind.Settled? && h == ip then Queue(s.reqs, h) else []
    {
      ProjectConcat(kind, h, s.log, Flushed(s.reqs, ip, mac));
      ProjectFlushed(kind, h, s.reqs, ip, mac);
    }
    QueueWithout(s.reqs, ip, h);
  }
}
