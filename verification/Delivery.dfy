/** Where transmitted frames go: to the hardware address the table holds for their next hop. */
module Delivery {
  import opened Types
  import opened ArpTable
  import opened Resolver
  import opened SweepPass
  import opened Runs
  import opened Wires
  import Arp

  predicate GoesTo(e: Event, table: seq<Entry>) {
    e.Transmit? ==> Lookup(table, e.hop) == Some(e.mac)
  }

  /** Every frame transmitted since the log had n events went where the table says. */
  ghost predicate Delivered(log: seq<Event>, n: nat, table: seq<Entry>) {
    forall k :: n <= k < |log| ==> GoesTo(log[k], table)
  }

  lemma SubmitDelivers(s: State, iface: Iface, hop: u32, pkt: Packet, now: int, n: nat)
    requires Delivered(s.log, n, s.table)
    ensures Delivered(SubmitFrame(s, iface, hop, pkt, now).log, n, s.table)
  {
  }

  lemma VisitDelivers(env: Env, s: State, i: nat, now: int, n: nat)
    requires i < |s.reqs| && s.reqs[i].pkts != [] && Delivered(s.log, n, s.table)
    ensures Delivered(Visit(env, s, i, now).log, n, s.table)
  {
    var q := s.reqs[i];
    var s0 := s.(log := s.log + [GiveUp(q.ip4, q.pkts[0])]);
    match env.route(env.src(q.pkts[0]))
    case None =>
    case Some(iface) =>
      SubmitDelivers(s0.(draws := s.draws + 1), iface, env.src(q.pkts[0]),
                     env.report(q.pkts[0], iface, s.draws), now, n);
  }

  lemma {:induction false} DrainDelivers(env: Env, s: State, i: nat, now: int, n: nat)
    requires EnvOK(env) && i < |s.reqs| && Ends(env, s.table, s.reqs[i].ip4, s.reqs[i].pkts)
    requires Delivered(s.log, n, s.table)
    ensures Delivered(Drain(env, s, i, now).log, n, s.table)
    decreases Turns(env, s.table, s.reqs[i].ip4, s.reqs[i].pkts)
  {
    var q := s.reqs[i];
    if q.pkts != [] {
      VisitDelivers(env, s, i, now, n);
      if |q.pkts| > 1 {
        VisitQueue(env, s, i, now);
        TurnsDecrease(env, s.table, q.ip4, q.pkts, s.draws);
        DrainDelivers(env, Visit(env, s, i, now), i, now, n);
      }
    }
  }

  lemma {:induction false} SweepFromDelivers(env: Env, s: State, i: nat, now: int, n: nat)
    requires EnvOK(env) && i <= |s.reqs| && Delivered(s.log, n, s.table)
    requires SweepFrom(env, s, i, now).Some?
    ensures Delivered(SweepFrom(env, s, i, now).value.log, n, s.table)
    decreases Exhausted(s.reqs[i..]), |s.reqs| - i
  {
    if i < |s.reqs| {
      if s.reqs[i].retries >= ARP_REQUEST_MAX_RETRIES {
        DrainDelivers(env, s, i, now, n);
        if i < |s.reqs| - 1 {
          GiveUpCounts(env, s, i, now);
          SweepFromDelivers(env, Unlink(Drain(env, s, i, now), i), i, now, n);
        }
      } else if i < |s.reqs| - 1 {
        ExhaustedTail(s.reqs, Retry(s, i, now).reqs, i);
        SweepFromDelivers(env, Retry(s, i, now), i + 1, now, n);
      }
    }
  }

  lemma {:induction false} FlushedGoesTo(reqs: seq<Pending>, ip: u32, mac: Mac, k: nat)
    requires k < |Flushed(reqs, ip, mac)|
    ensures var e := Flushed(reqs, ip, mac)[k];
            && e.Transmit? && e.hop == ip && e.mac == mac
            && exists r :: r in reqs && r.ip4 == ip && e.iface == r.iface && e.pkt in r.pkts
  {
    var rest, r := reqs[..|reqs| - 1], reqs[|reqs| - 1];
    if k < |Flushed(rest, ip, mac)| {
      FlushedGoesTo(rest, ip, mac, k);
      assert forall x :: x in rest ==> x in reqs;
    }
  }

  lemma LearnDelivers(s: State, ip: u32, mac: Mac, now: int)
    requires |s.table| == MAX_ARP_SIZE
    ensures Delivered(Learn(s, ip, mac, now).log, |s.log|, Learn(s, ip, mac, now).table)
  {
    var r := Learn(s, ip, mac, now);
    LookupAfterPut(s.table, Entry(ip, mac, now, true), ip);
    forall k | |s.log| <= k < |r.log| ensures GoesTo(r.log[k], r.table) {
      FlushedGoesTo(s.reqs, ip, mac, k - |s.log|);
    }
  }

  /** Whatever a step transmits, directly, from a queue, or re-entrantly from the sweep, goes to the hardware
      address that the table it leaves holds for the frame's next hop. */
  lemma StepDelivers(env: Env, s: State, op: Op)
    requires EnvOK(env) && |s.table| == MAX_ARP_SIZE && Step(env, s, op).Some?
    ensures Delivered(Step(env, s, op).value.log, |s.log|, Step(env, s, op).value.table)
  {
    match op
    case Send(iface, hop, pkt, drawn, now) =>
      SubmitDelivers(s.(draws := s.draws + drawn), iface, hop, pkt, now, |s.log|);
    case Receive(ip, mac, now) => LearnDelivers(s, ip, mac, now);
    case Tick(now) =>
      var aged := s.(table := AgeOut(s.table, now));
      SweepFromDelivers(env, aged, 0, now, |s.log|);
  }

  /** The frame goes to the newest hardware address that the history holds for its next hop. */
  predicate SentToNewest(e: Event, h: seq<TableOp>) {
    e.Transmit? ==>
      var newest := Newest(h, e.hop);
      newest.Some? && newest.value.Learned? && newest.value.mac == e.mac
  }

  lemma GoesToNewest(e: Event, table: seq<Entry>, h: seq<TableOp>)
    requires GoesTo(e, table) && table == Table(h)
    ensures SentToNewest(e, h)
  {
    if e.Transmit? {
      HitReturnsNewest(h, e.hop);
    }
  }

  /** The run up to step n, step n itself, and the rest. */
  lemma RunSplits(env: Env, s: State, ops: seq<Op>, n: nat)
    requires EnvOK(env) && |s.table| == MAX_ARP_SIZE && n < |ops| && RunFrom(env, s, ops).Some?
    ensures RunFrom(env, s, ops[..n]).Some? && RunFrom(env, s, ops[..n + 1]).Some?
    ensures Step(env, RunFrom(env, s, ops[..n]).value, ops[n]) == RunFrom(env, s, ops[..n + 1])
    ensures RunFrom(env, s, ops[..n + 1]).value.log <= RunFrom(env, s, ops).value.log
  {
    hide EnvOK, Step, RunFrom;
    assert ops == ops[..n + 1] + ops[n + 1..] && ops[..n + 1] == ops[..n] + [ops[n]];
    RunConcat(env, s, ops[..n + 1], ops[n + 1..]);
    RunConcat(env, s, ops[..n], [ops[n]]);
    RunOne(env, RunFrom(env, s, ops[..n]).value, ops[n]);
    RunLog(env, RunFrom(env, s, ops[..n + 1]).value, ops[n + 1..]);
  }

  /** In every run, whatever step n transmits goes to the hardware address that is the newest one learned for
      the frame's next hop when step n is done: not to one superseded by then, and not to one learned later.
      The events of step n are those the log gains between the first n and the first n + 1 operations. */
  lemma {:induction false} RunDelivers(env: Env, s: State, ops: seq<Op>, h: seq<TableOp>, n: nat)
    requires EnvOK(env) && s.table == Table(h) && n < |ops| && RunFrom(env, s, ops).Some?
    ensures RunFrom(env, s, ops[..n]).Some? && RunFrom(env, s, ops[..n + 1]).Some?
    ensures var before, after := RunFrom(env, s, ops[..n]).value.log, RunFrom(env, s, ops[..n + 1]).value.log;
            && before <= after <= RunFrom(env, s, ops).value.log
            && forall k :: |before| <= k < |after| ==> SentToNewest(after[k], h + TableOps(ops[..n + 1]))
  {
    hide EnvOK, Step, RunFrom;
    RunSplits(env, s, ops, n);
    var s0, s1 := RunFrom(env, s, ops[..n]).value, RunFrom(env, s, ops[..n + 1]).value;
    RunTable(env, s, ops[..n + 1], h);
    StepDelivers(env, s0, ops[n]);
    StepLog(env, s0, ops[n]);
    forall k | |s0.log| <= k < |s1.log| ensures SentToNewest(s1.log[k], h + TableOps(ops[..n + 1])) {
      GoesToNewest(s1.log[k], s1.table, h + TableOps(ops[..n + 1]));
    }
  }

  /** Event k of the run's log belongs to step n. */
  ghost predicate Logged(env: Env, s: State, ops: seq<Op>, n: nat, k: nat)
    requires EnvOK(env) && |s.table| == MAX_ARP_SIZE && n < |ops|
  {
    && RunFrom(env, s, ops[..n]).Some? && RunFrom(env, s, ops[..n + 1]).Some?
    && |RunFrom(env, s, ops[..n]).value.log| <= k < |RunFrom(env, s, ops[..n + 1]).value.log|
  }

  /** Every event of a run belongs to a step, so RunDelivers speaks of every frame transmitted. */
  lemma {:induction false} EventHasStep(env: Env, s: State, ops: seq<Op>, k: nat)
    requires EnvOK(env) && |s.table| == MAX_ARP_SIZE && RunFrom(env, s, ops).Some?
    requires |s.log| <= k < |RunFrom(env, s, ops).value.log|
    ensures exists n: nat :: n < |ops| && Logged(env, s, ops, n, k)
    decreases |ops|
  {
    var last := |ops| - 1;
    RunSplits(env, s, ops, last);
    assert ops[..last + 1] == ops;
    if |RunFrom(env, s, ops[..last]).value.log| <= k {
      assert Logged(env, s, ops, last, k);
    } else {
      EventHasStep(env, s, ops[..last], k);
      var n: nat :| n < last && Logged(env, s, ops[..last], n, k);
      assert ops[..last][..n] == ops[..n] && ops[..last][..n + 1] == ops[..n + 1];
      assert Logged(env, s, ops, n, k);
    }
  }

  // ---------------------------------------------------------------------------------------------
  // On the wire

  /** The frame is what the event put on the wire: the transmitted frame with its destination address in front, or an
      ARP request for the address asked for. */
  ghost predicate Shows(sent: Sent, e: Event) {
    match e
    case Transmit(_, iface, mac, pkt) => |pkt| >= 6 ==> sent == Sent(iface, mac + pkt[6..])
    case Ask(iface, hop) => sent.iface == iface && Arp.Asks(sent.frame, iface, hop)
    case _ => false
  }

  /** Every frame on the wire belongs to an event, in the order of the events. */
  lemma {:induction false} FrameHasEvent(log: seq<Event>, j: nat)
    requires j < |Wire(log)|
    ensures exists k: nat :: k < |log| && |Wire(log[..k])| == j && Shows(Wire(log)[j], log[k])
    decreases |log|
  {
    hide Shows;
    if log != [] {
      var rest, e := log[..|log| - 1], log[|log| - 1];
      assert rest + [e] == log;
      WirePush(rest, e);
      if j < |Wire(rest)| {
        FrameHasEvent(rest, j);
        var k: nat :| k < |rest| && |Wire(rest[..k])| == j && Shows(Wire(rest)[j], rest[k]);
        assert rest[..k] == log[..k];
      } else {
        LastShows(rest, e, j);
      }
    }
  }

  lemma LastShows(rest: seq<Event>, e: Event, j: nat)
    requires |Wire(rest)| <= j < |Wire(rest + [e])|
    ensures j == |Wire(rest)| && Shows(Wire(rest + [e])[j], e)
  {
    WirePush(rest, e);
    if e.Ask? {
      Arp.RequestAsks(e.iface, e.hop);
    } else if e.Transmit? {
      AddressedParts(e.pkt, e.mac);
    }
  }

  lemma WireGrows(a: seq<Event>, b: seq<Event>)
    requires a <= b
    ensures Wire(a) <= Wire(b)
  {
    WireConcat(a, b[|a|..]);
    assert b == a + b[|a|..];
  }

  /** In every run, every frame that step n puts on the wire is an ARP request of the step, or a frame of the step with
      the newest hardware address learned for its next hop, as of that step, in front. */
  lemma {:induction false} RunSends(env: Env, s: State, ops: seq<Op>, h: seq<TableOp>, n: nat, j: nat)
    requires EnvOK(env) && s.table == Table(h) && n < |ops| && RunFrom(env, s, ops).Some?
    requires RunFrom(env, s, ops[..n]).Some? && RunFrom(env, s, ops[..n + 1]).Some?
    requires |Wire(RunFrom(env, s, ops[..n]).value.log)| <= j < |Wire(RunFrom(env, s, ops[..n + 1]).value.log)|
    ensures var before, after := RunFrom(env, s, ops[..n]).value.log, RunFrom(env, s, ops[..n + 1]).value.log;
            exists k: nat :: |before| <= k < |after| && Shows(Wire(after)[j], after[k])
                             && SentToNewest(after[k], h + TableOps(ops[..n + 1]))
  {
    hide EnvOK, Step, RunFrom, Wire, Shows, SentToNewest;
    var before, after := RunFrom(env, s, ops[..n]).value.log, RunFrom(env, s, ops[..n + 1]).value.log;
    RunDelivers(env, s, ops, h, n);
    FrameHasEvent(after, j);
    var k: nat :| k < |after| && |Wire(after[..k])| == j && Shows(Wire(after)[j], after[k]);
    if k < |before| {
      EarlierFrame(before, after, k);
      assert false;
    }
  }

  /** The frames of earlier events are among the earlier frames. */
  lemma EarlierFrame(before: seq<Event>, after: seq<Event>, k: nat)
    requires before <= after && k < |before| && |Wire(after[..k])| < |Wire(after)|
    requires Shows(Wire(after)[|Wire(after[..k])|], after[k])
    ensures |Wire(after[..k])| < |Wire(before)|
  {
    assert after[..k] == before[..k] && before[..k + 1] == before[..k] + [before[k]];
    WirePush(before[..k], before[k]);
    WireGrows(before[..k + 1], before);
  }
}
