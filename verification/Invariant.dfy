/** What every operation keeps, across the table and the pending list. */
module Invariant {
  import opened Types
  import opened ArpTable
  import opened Resolver
  import opened SweepPass

  ghost predicate Distinct(reqs: seq<Pending>) {
    forall j, k :: 0 <= j < k < |reqs| ==> reqs[j].ip4 != reqs[k].ip4
  }

  /** No address is both resolvable and pending, and no address has two requests. */
  ghost predicate Keyed(s: State) {
    && |s.table| == MAX_ARP_SIZE
    && (forall k :: 0 <= k < |s.reqs| ==> Lookup(s.table, s.reqs[k].ip4).None?)
    && Distinct(s.reqs)
  }

  predicate Waiting(r: Pending) {
    r.pkts != [] && 0 <= r.retries <= ARP_REQUEST_MAX_RETRIES
  }

  /** Every request but the one being drained has a packet queued and a retry count within its limit. */
  ghost predicate Filled(reqs: seq<Pending>, drained: int) {
    forall k :: 0 <= k < |reqs| && k != drained ==> Waiting(reqs[k])
  }

  ghost predicate Inv(s: State) {
    Keyed(s) && Filled(s.reqs, -1)
  }

  lemma SubmitKeeps(s: State, iface: Iface, hop: u32, pkt: Packet, now: int, drained: int)
    requires Keyed(s) && Filled(s.reqs, drained) && drained < |s.reqs|
    ensures Keyed(SubmitFrame(s, iface, hop, pkt, now))
    ensures Filled(SubmitFrame(s, iface, hop, pkt, now).reqs, drained)
  {
  }

  lemma ReportKeeps(env: Env, s: State, pkt: Packet, now: int, drained: int)
    requires Keyed(s) && Filled(s.reqs, drained) && drained < |s.reqs|
    ensures Keyed(Report(env, s, pkt, now))
    ensures Filled(Report(env, s, pkt, now).reqs, drained)
  {
    if env.route(env.src(pkt)).Some? {
      var iface := env.route(env.src(pkt)).value;
      SubmitKeeps(s.(draws := s.draws + 1), iface, env.src(pkt), env.report(pkt, iface, s.draws), now, drained);
    }
  }

  lemma VisitKeeps(env: Env, s: State, i: nat, now: int)
    requires i < |s.reqs| && s.reqs[i].pkts != [] && Keyed(s) && Filled(s.reqs, i)
    ensures Keyed(Visit(env, s, i, now)) && Filled(Visit(env, s, i, now).reqs, i)
  {
    var q := s.reqs[i];
    var s0 := s.(log := s.log + [GiveUp(q.ip4, q.pkts[0])]);
    ReportKeeps(env, s0, q.pkts[0], now, i);
    VisitQueue(env, s, i, now);
  }

  lemma {:induction false} DrainKeeps(env: Env, s: State, i: nat, now: int)
    requires EnvOK(env) && i < |s.reqs| && Keyed(s) && Filled(s.reqs, i)
    requires Ends(env, s.table, s.reqs[i].ip4, s.reqs[i].pkts)
    ensures Keyed(Drain(env, s, i, now)) && Filled(Drain(env, s, i, now).reqs, i)
    decreases Turns(env, s.table, s.reqs[i].ip4, s.reqs[i].pkts)
  {
    var q := s.reqs[i];
    if q.pkts != [] {
      VisitKeeps(env, s, i, now);
      if |q.pkts| > 1 {
        VisitQueue(env, s, i, now);
        TurnsDecrease(env, s.table, q.ip4, q.pkts, s.draws);
        DrainKeeps(env, Visit(env, s, i, now), i, now);
      }
    }
  }

  lemma UnlinkKeeps(s: State, i: nat)
    requires i < |s.reqs| && Keyed(s) && Filled(s.reqs, i)
    ensures Inv(Unlink(s, i))
  {
  }

  /** Giving up request i, from a state between two turns of the outer loop. */
  lemma GiveUpKeeps(env: Env, s: State, i: nat, now: int)
    requires EnvOK(env) && i < |s.reqs| && Inv(s)
    requires Ends(env, s.table, s.reqs[i].ip4, s.reqs[i].pkts)
    ensures Inv(Unlink(Drain(env, s, i, now), i))
  {
    DrainKeeps(env, s, i, now);
    UnlinkKeeps(Drain(env, s, i, now), i);
  }

  lemma RetryKeeps(s: State, i: nat, now: int)
    requires i < |s.reqs| && Inv(s) && s.reqs[i].retries < ARP_REQUEST_MAX_RETRIES
    ensures Inv(Retry(s, i, now))
  {
  }

  lemma {:induction false} SweepFromKeeps(env: Env, s: State, i: nat, now: int)
    requires EnvOK(env) && i <= |s.reqs| && Inv(s)
    requires SweepFrom(env, s, i, now).Some?
    ensures Inv(SweepFrom(env, s, i, now).value)
    decreases Exhausted(s.reqs[i..]), |s.reqs| - i
  {
    if i < |s.reqs| {
      if s.reqs[i].retries >= ARP_REQUEST_MAX_RETRIES {
        GiveUpKeeps(env, s, i, now);
        if i < |s.reqs| - 1 {
          GiveUpCounts(env, s, i, now);
          SweepFromKeeps(env, Unlink(Drain(env, s, i, now), i), i, now);
        }
      } else {
        RetryKeeps(s, i, now);
        if i < |s.reqs| - 1 {
          ExhaustedTail(s.reqs, Retry(s, i, now).reqs, i);
          SweepFromKeeps(env, Retry(s, i, now), i + 1, now);
        }
      }
    }
  }

  lemma AgeOutKeeps(s: State, now: int)
    requires Inv(s)
    ensures Inv(s.(table := AgeOut(s.table, now)))
  {
    forall k | 0 <= k < |s.reqs| ensures Lookup(AgeOut(s.table, now), s.reqs[k].ip4).None? {
      LookupAfterAgeOut(s.table, now, s.reqs[k].ip4);
    }
  }

  lemma SweepKeeps(env: Env, s: State, now: int)
    requires EnvOK(env) && Inv(s) && Sweep(env, s, now).Some?
    ensures Inv(Sweep(env, s, now).value)
  {
    AgeOutKeeps(s, now);
    SweepFromKeeps(env, s.(table := AgeOut(s.table, now)), 0, now);
  }

  /** Exactly the requests for other addresses stay, in order and without repetition. */
  lemma {:induction false} WithoutFacts(reqs: seq<Pending>, ip: u32)
    requires Distinct(reqs)
    ensures forall r :: r in Without(reqs, ip) <==> r in reqs && r.ip4 != ip
    ensures Distinct(Without(reqs, ip))
  {
    if reqs != [] {
      var rest, last := reqs[..|reqs| - 1], reqs[|reqs| - 1];
      WithoutFacts(rest, ip);
      assert reqs == rest + [last];
      var w := Without(rest, ip);
      forall k | 0 <= k < |w| ensures w[k].ip4 != last.ip4 {
        assert w[k] in rest;
      }
      assert Distinct(w + [last]);
    }
  }

  lemma LearnKeeps(s: State, ip: u32, mac: Mac, now: int)
    requires Inv(s)
    ensures Inv(Learn(s, ip, mac, now))
  {
    var r := Learn(s, ip, mac, now);
    WithoutFacts(s.reqs, ip);
    forall k | 0 <= k < |r.reqs| ensures Lookup(r.table, r.reqs[k].ip4).None? && Waiting(r.reqs[k]) {
      assert r.reqs[k] in s.reqs;
      LookupAfterPut(s.table, Entry(ip, mac, now, true), r.reqs[k].ip4);
    }
  }
}
