/** Where waiting packets come from. A condition on next hops and sources that every submission meets, and that
    reports inherit from the packets they report, holds of all that waits and all that is given up, in every
    run. */
module Sources {
  import opened Types
  import opened ArpTable
  import opened Resolver
  import opened DrainWalk
  import opened SweepPass
  import opened Runs
  import opened Opening

  /** good(h, x): a packet from x may wait for h. The report for it waits for x, and comes from the interface
      towards x. */
  predicate Inherits(env: Env, good: (u32, u32) -> bool, h: u32, x: u32) {
    good(h, x) && env.route(x).Some? ==> good(x, env.route(x).value.ip)
  }

  ghost predicate Inherited(env: Env, good: (u32, u32) -> bool) {
    forall h: u32, x: u32 :: Inherits(env, good, h, x)
  }

  /** No packet from one of the router's own addresses may wait for that address. */
  ghost predicate NoneToSelf(env: Env, good: (u32, u32) -> bool) {
    forall a: u32 :: Own(env, a) ==> !good(a, a)
  }

  ghost predicate QueueGood(env: Env, good: (u32, u32) -> bool, h: u32, q: seq<Packet>) {
    forall j :: 0 <= j < |q| ==> good(h, env.src(q[j]))
  }

  /** What is given up was good, and a packet is lost only where one from the next hop itself may wait. */
  predicate EventGood(env: Env, good: (u32, u32) -> bool, e: Event) {
    match e
    case GiveUp(h, p) => good(h, env.src(p))
    case Lost(h, _) => env.route(h).Some? && good(h, h)
    case _ => true
  }

  ghost predicate AllGood(env: Env, good: (u32, u32) -> bool, s: State) {
    && (forall k :: 0 <= k < |s.reqs| ==> QueueGood(env, good, s.reqs[k].ip4, s.reqs[k].pkts))
    && (forall k :: 0 <= k < |s.log| ==> EventGood(env, good, s.log[k]))
  }

  lemma SubmitGood(
      env: Env, good: (u32, u32) -> bool, s: State, iface: Iface, hop: u32, pkt: Packet, now: int)
    requires AllGood(env, good, s) && good(hop, env.src(pkt))
    ensures AllGood(env, good, SubmitFrame(s, iface, hop, pkt, now))
  {
  }

  lemma ReportGood(env: Env, good: (u32, u32) -> bool, s: State, h: u32, pkt: Packet, now: int)
    requires EnvOK(env) && Inherited(env, good) && AllGood(env, good, s) && good(h, env.src(pkt))
    ensures AllGood(env, good, Report(env, s, pkt, now))
  {
    match env.route(env.src(pkt))
    case None =>
    case Some(iface) =>
      assert Inherits(env, good, h, env.src(pkt));
      SubmitGood(env, good, s.(draws := s.draws + 1), iface, env.src(pkt), env.report(pkt, iface, s.draws), now);
  }

  lemma VisitGood(env: Env, good: (u32, u32) -> bool, s: State, i: nat, now: int)
    requires EnvOK(env) && Inherited(env, good) && AllGood(env, good, s) && i < |s.reqs| && s.reqs[i].pkts != []
    ensures AllGood(env, good, Visit(env, s, i, now))
  {
    var q := s.reqs[i];
    assert QueueGood(env, good, q.ip4, q.pkts);
    ReportGood(env, good, s.(log := s.log + [GiveUp(q.ip4, q.pkts[0])]), q.ip4, q.pkts[0], now);
  }

  lemma {:induction false} DrainGood(env: Env, good: (u32, u32) -> bool, s: State, i: nat, now: int)
    requires EnvOK(env) && Inherited(env, good) && AllGood(env, good, s) && i < |s.reqs|
    requires Ends(env, s.table, s.reqs[i].ip4, s.reqs[i].pkts)
    ensures AllGood(env, good, Drain(env, s, i, now))
    decreases Turns(env, s.table, s.reqs[i].ip4, s.reqs[i].pkts)
  {
    hide AllGood, Inherited;
    var q := s.reqs[i];
    if q.pkts != [] {
      VisitGood(env, good, s, i, now);
      if |q.pkts| > 1 {
        VisitQueue(env, s, i, now);
        TurnsDecrease(env, s.table, q.ip4, q.pkts, s.draws);
        DrainGood(env, good, Visit(env, s, i, now), i, now);
      }
    }
  }

  lemma {:induction false} NoneFromSelf(env: Env, good: (u32, u32) -> bool, a: u32, q: seq<Packet>)
    requires QueueGood(env, good, a, q) && !good(a, a)
    ensures FromSelf(env, a, q) == 0
  {
    if q != [] {
      assert good(a, env.src(q[0]));
      forall j | 0 <= j < |q[1..]| ensures good(a, env.src(q[1..][j])) {
        assert q[1..][j] == q[j + 1];
      }
      NoneFromSelf(env, good, a, q[1..]);
    }
  }

  lemma GoodEnds(env: Env, good: (u32, u32) -> bool, s: State, i: nat)
    requires NoneToSelf(env, good) && AllGood(env, good, s) && i < |s.reqs|
    ensures Ends(env, s.table, s.reqs[i].ip4, s.reqs[i].pkts)
  {
    if Own(env, s.reqs[i].ip4) {
      NoneFromSelf(env, good, s.reqs[i].ip4, s.reqs[i].pkts);
    }
  }

  lemma GiveUpGood(env: Env, good: (u32, u32) -> bool, s: State, i: nat, now: int)
    requires EnvOK(env) && Inherited(env, good) && AllGood(env, good, s) && i < |s.reqs|
    requires Ends(env, s.table, s.reqs[i].ip4, s.reqs[i].pkts)
    ensures AllGood(env, good, Unlink(Drain(env, s, i, now), i))
  {
    var a, q, d := s.reqs[i].ip4, s.reqs[i].pkts, Drain(env, s, i, now);
    DrainGood(env, good, s, i, now);
    LossExactly(env, s, i, now);
    if d.reqs[i].pkts != [] && !good(a, a) {
      NoneFromSelf(env, good, a, q);
    }
    UnlinkGood(env, good, d, i);
  }

  lemma UnlinkGood(env: Env, good: (u32, u32) -> bool, d: State, i: nat)
    requires i < |d.reqs| && AllGood(env, good, d)
    requires d.reqs[i].pkts != [] ==> env.route(d.reqs[i].ip4).Some? && good(d.reqs[i].ip4, d.reqs[i].ip4)
    ensures AllGood(env, good, Unlink(d, i))
  {
  }

  lemma RetryGood(env: Env, good: (u32, u32) -> bool, s: State, i: nat, now: int)
    requires i < |s.reqs| && AllGood(env, good, s)
    ensures AllGood(env, good, Retry(s, i, now))
  {
    assert QueueGood(env, good, s.reqs[i].ip4, s.reqs[i].pkts);
  }

  /** Such a pass comes back, and leaves everything good. */
  lemma {:induction false} SweepFromGood(env: Env, good: (u32, u32) -> bool, s: State, i: nat, now: int)
    requires EnvOK(env) && Inherited(env, good) && NoneToSelf(env, good) && AllGood(env, good, s) && i <= |s.reqs|
    ensures SweepFrom(env, s, i, now).Some? && AllGood(env, good, SweepFrom(env, s, i, now).value)
    decreases Exhausted(s.reqs[i..]), |s.reqs| - i
  {
    hide AllGood, Inherited, NoneToSelf, Ends;
    if i < |s.reqs| {
      if s.reqs[i].retries >= ARP_REQUEST_MAX_RETRIES {
        GoodEnds(env, good, s, i);
        GiveUpGood(env, good, s, i, now);
        if i < |s.reqs| - 1 {
          GiveUpCounts(env, s, i, now);
          SweepFromGood(env, good, Unlink(Drain(env, s, i, now), i), i, now);
        }
      } else {
        RetryGood(env, good, s, i, now);
        if i < |s.reqs| - 1 {
          ExhaustedTail(s.reqs, Retry(s, i, now).reqs, i);
          SweepFromGood(env, good, Retry(s, i, now), i + 1, now);
        }
      }
    }
  }

  lemma WithoutWithin(reqs: seq<Pending>, ip: u32)
    ensures forall k :: 0 <= k < |Without(reqs, ip)| ==> Without(reqs, ip)[k] in reqs
  {
  }

  lemma LearnGood(env: Env, good: (u32, u32) -> bool, s: State, ip: u32, mac: Mac, now: int)
    requires |s.table| == MAX_ARP_SIZE && AllGood(env, good, s)
    ensures AllGood(env, good, Learn(s, ip, mac, now))
  {
    WithoutWithin(s.reqs, ip);
    FlushedIsSent(s.reqs, ip, mac);
  }

  predicate OpGood(env: Env, good: (u32, u32) -> bool, op: Op) {
    op.Send? ==> good(op.hop, env.src(op.pkt))
  }

  lemma StepGood(env: Env, good: (u32, u32) -> bool, s: State, op: Op)
    requires EnvOK(env) && Inherited(env, good) && NoneToSelf(env, good) && |s.table| == MAX_ARP_SIZE
    requires AllGood(env, good, s) && OpGood(env, good, op)
    ensures Step(env, s, op).Some? && AllGood(env, good, Step(env, s, op).value)
  {
    match op
    case Send(iface, hop, pkt, drawn, now) => SubmitGood(env, good, s.(draws := s.draws + drawn), iface, hop, pkt, now);
    case Receive(ip, mac, now) => LearnGood(env, good, s, ip, mac, now);
    case Tick(now) => SweepFromGood(env, good, s.(table := AgeOut(s.table, now)), 0, now);
  }

  /** Every run whose submissions are good comes back, gives up only good packets, and loses one only for a next
      hop from which a packet may wait for it. */
  lemma {:induction false} RunGood(env: Env, good: (u32, u32) -> bool, s: State, ops: seq<Op>)
    requires EnvOK(env) && Inherited(env, good) && NoneToSelf(env, good) && |s.table| == MAX_ARP_SIZE
    requires AllGood(env, good, s) && forall k :: 0 <= k < |ops| ==> OpGood(env, good, ops[k])
    ensures RunFrom(env, s, ops).Some? && AllGood(env, good, RunFrom(env, s, ops).value)
    decreases |ops|
  {
    hide EnvOK, Inherited, NoneToSelf, AllGood, OpGood, Step;
    if ops != [] {
      StepGood(env, good, s, ops[0]);
      StepTableSize(env, s, ops[0]);
      RunGood(env, good, Step(env, s, ops[0]).value, ops[1..]);
    }
  }
}
