/** What giving up a packet amounts to: when its source has a route, the very next thing that happens is that a
    report for it is submitted; when not, nothing is sent. */
module Reporting {
  import opened Types
  import opened ArpTable
  import opened Resolver
  import opened SweepPass
  import opened Runs
  import opened Delivery
  import opened Opening

  /** Event k of the log, if it gives up a packet, is followed at once by the report for the packet exactly when
      the packet's source has a route; and that report leaves at once, by the interface of the route, if the source
      resolves. */
  ghost predicate Informs(env: Env, table: seq<Entry>, log: seq<Event>, k: nat)
    requires k < |log|
  {
    log[k].GiveUp? ==>
      var to := env.src(log[k].pkt);
      match env.route(to)
      case None => k + 1 < |log| ==> !log[k + 1].Submit?
      case Some(iface) =>
        && k + 1 < |log| && log[k + 1].Submit? && log[k + 1].hop == to
        && (exists n: nat :: log[k + 1].pkt == env.report(log[k].pkt, iface, n))
        && (Lookup(table, to).Some? ==>
              k + 2 < |log| && log[k + 2] == Transmit(to, iface, Lookup(table, to).value, log[k + 1].pkt))
  }

  ghost predicate InformsFrom(env: Env, table: seq<Entry>, log: seq<Event>, n: nat) {
    forall k :: n <= k < |log| ==> Informs(env, table, log, k)
  }

  lemma AppendInforms(env: Env, table: seq<Entry>, log: seq<Event>, more: seq<Event>, n: nat)
    requires InformsFrom(env, table, log, n) && (more != [] ==> !more[0].Submit?)
    requires forall k :: 0 <= k < |more| ==> !more[k].GiveUp?
    ensures InformsFrom(env, table, log + more, n)
  {
    forall k | n <= k < |log + more| ensures Informs(env, table, log + more, k) {
      if k < |log| {
        assert Informs(env, table, log, k);
      }
    }
  }

  /** What a submission adds to the log. */
  lemma SubmitAdds(s: State, iface: Iface, hop: u32, pkt: Packet, now: int)
    ensures var r := SubmitFrame(s, iface, hop, pkt, now).log;
            && |s.log| < |r| && s.log <= r && r[|s.log|] == Submit(hop, pkt)
            && (Lookup(s.table, hop).Some? ==>
                  r == s.log + [Submit(hop, pkt), Transmit(hop, iface, Lookup(s.table, hop).value, pkt)])
            && forall k :: |s.log| <= k < |r| ==> !r[k].GiveUp?
  {
  }

  lemma VisitInforms(env: Env, s: State, i: nat, now: int, n: nat)
    requires i < |s.reqs| && s.reqs[i].pkts != [] && InformsFrom(env, s.table, s.log, n)
    ensures InformsFrom(env, s.table, Visit(env, s, i, now).log, n)
  {
    var p, e := s.reqs[i].pkts[0], GiveUp(s.reqs[i].ip4, s.reqs[i].pkts[0]);
    var s0, r := s.(log := s.log + [e]), Visit(env, s, i, now).log;
    if env.route(env.src(p)).Some? {
      var iface := env.route(env.src(p)).value;
      SubmitAdds(s0.(draws := s.draws + 1), iface, env.src(p), env.report(p, iface, s.draws), now);
      assert r[|s.log| + 1] == Submit(env.src(p), env.report(p, iface, s.draws));
    }
    assert r[|s.log|] == e;
    forall k | n <= k < |r| ensures Informs(env, s.table, r, k) {
      if k < |s.log| {
        assert Informs(env, s.table, s.log, k);
      }
    }
  }

  lemma {:induction false} DrainInforms(env: Env, s: State, i: nat, now: int, n: nat)
    requires EnvOK(env) && i < |s.reqs| && Ends(env, s.table, s.reqs[i].ip4, s.reqs[i].pkts)
    requires InformsFrom(env, s.table, s.log, n)
    ensures InformsFrom(env, s.table, Drain(env, s, i, now).log, n)
    decreases Turns(env, s.table, s.reqs[i].ip4, s.reqs[i].pkts)
  {
    hide InformsFrom;
    var q := s.reqs[i];
    if q.pkts != [] {
      VisitInforms(env, s, i, now, n);
      if |q.pkts| > 1 {
        VisitQueue(env, s, i, now);
        TurnsDecrease(env, s.table, q.ip4, q.pkts, s.draws);
        DrainInforms(env, Visit(env, s, i, now), i, now, n);
      }
    }
  }

  lemma RetryInforms(env: Env, s: State, i: nat, now: int, n: nat)
    requires i < |s.reqs| && InformsFrom(env, s.table, s.log, n)
    ensures InformsFrom(env, s.table, Retry(s, i, now).log, n)
  {
    AppendInforms(env, s.table, s.log, [Ask(s.reqs[i].iface, s.reqs[i].ip4)], n);
  }

  lemma {:induction false} SweepFromInforms(env: Env, s: State, i: nat, now: int, n: nat)
    requires EnvOK(env) && i <= |s.reqs| && InformsFrom(env, s.table, s.log, n) && SweepFrom(env, s, i, now).Some?
    ensures InformsFrom(env, s.table, SweepFrom(env, s, i, now).value.log, n)
    decreases Exhausted(s.reqs[i..]), |s.reqs| - i
  {
    hide InformsFrom, Ends;
    if i < |s.reqs| {
      if s.reqs[i].retries >= ARP_REQUEST_MAX_RETRIES {
        var d := Drain(env, s, i, now);
        DrainInforms(env, s, i, now, n);
        AppendInforms(env, s.table, d.log, Losses(d.reqs[i].ip4, d.reqs[i].pkts), n);
        if i < |s.reqs| - 1 {
          GiveUpCounts(env, s, i, now);
          SweepFromInforms(env, Unlink(d, i), i, now, n);
        }
      } else {
        RetryInforms(env, s, i, now, n);
        if i < |s.reqs| - 1 {
          ExhaustedTail(s.reqs, Retry(s, i, now).reqs, i);
          SweepFromInforms(env, Retry(s, i, now), i + 1, now, n);
        }
      }
    }
  }

  lemma StepInforms(env: Env, s: State, op: Op)
    requires EnvOK(env) && |s.table| == MAX_ARP_SIZE && Step(env, s, op).Some?
    ensures InformsFrom(env, Step(env, s, op).value.table, Step(env, s, op).value.log, |s.log|)
  {
    match op
    case Send(iface, hop, pkt, drawn, now) => SubmitAdds(s.(draws := s.draws + drawn), iface, hop, pkt, now);
    case Receive(ip, mac, _) =>
      FlushedIsSent(s.reqs, ip, mac);
      AppendInforms(env, Step(env, s, op).value.table, s.log, Flushed(s.reqs, ip, mac), |s.log|);
    case Tick(now) => SweepFromInforms(env, s.(table := AgeOut(s.table, now)), 0, now, |s.log|);
  }

  /** In every run: whenever step n gives up a packet, the next event of the step is the report for the packet,
      submitted for the packet's source, exactly when that source has a route. */
  lemma {:induction false} RunInforms(env: Env, s: State, ops: seq<Op>, n: nat)
    requires EnvOK(env) && |s.table| == MAX_ARP_SIZE && n < |ops| && RunFrom(env, s, ops).Some?
    ensures RunFrom(env, s, ops[..n]).Some? && RunFrom(env, s, ops[..n + 1]).Some?
    ensures var before, after := RunFrom(env, s, ops[..n]).value, RunFrom(env, s, ops[..n + 1]).value;
            && before.log <= after.log <= RunFrom(env, s, ops).value.log
            && forall k :: |before.log| <= k < |after.log| ==> Informs(env, after.table, after.log, k)
  {
    hide EnvOK, Step, RunFrom;
    RunSplits(env, s, ops, n);
    StepInforms(env, RunFrom(env, s, ops[..n]).value, ops[n]);
    StepLog(env, RunFrom(env, s, ops[..n]).value, ops[n]);
  }
}
