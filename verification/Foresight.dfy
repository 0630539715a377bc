/** Whether a round of the sweep comes back, decided from the state it starts in: by counting, for every
    exhausted request, the packets whose reports the drains before it send into its queue. */
module Foresight {
  import opened Types
  import opened ArpTable
  import opened Resolver
  import opened SweepPass
  import opened Invariant

  /** Reports for a return to a's queue, and are sent from x. */
  ghost predicate SentBackFrom(env: Env, table: seq<Entry>, a: u32, x: u32) {
    Returns(env, table, a) && env.route(a).value.ip == x
  }

  /** Packets from x among q and n reports for a behind it. */
  ghost function Holding(env: Env, table: seq<Entry>, a: u32, q: seq<Packet>, n: nat, x: u32): nat {
    FromSelf(env, x, q) + if SentBackFrom(env, table, a, x) then n else 0
  }

  ghost predicate SelfLast(env: Env, table: seq<Entry>, a: u32, q: seq<Packet>, n: nat) {
    if Returns(env, table, a) && n > 0 then Own(env, a) else q != [] && env.src(q[|q| - 1]) == a
  }

  /** Packets from x that the walk over this queue of a reports: those in it, and the reports that come back
      while it is walked, unless the only one does so at the very end. */
  ghost function Met(env: Env, table: seq<Entry>, a: u32, q: seq<Packet>, n: nat, x: u32): nat {
    var own := Holding(env, table, a, q, n, a);
    Holding(env, table, a, q, n, x)
    + if SentBackFrom(env, table, a, x) && !(own == 1 && SelfLast(env, table, a, q, n)) then own else 0
  }

  /** Packets from x reported by a pass that starts at request i before it reaches request k. */
  ghost function Arrivals(env: Env, table: seq<Entry>, reqs: seq<Pending>, i: nat, k: nat, x: u32): nat
    requires i <= k <= |reqs|
    decreases k
  {
    if k == i then 0
    else
      var r := reqs[k - 1];
      Arrivals(env, table, reqs, i, k - 1, x)
      + if r.retries >= ARP_REQUEST_MAX_RETRIES then
          Met(env, table, r.ip4, r.pkts, Arrivals(env, table, reqs, i, k - 1, r.ip4), x)
        else 0
  }

  /** Whether the pass gets past request k. */
  ghost predicate Passable(env: Env, table: seq<Entry>, reqs: seq<Pending>, i: nat, k: nat)
    requires i <= k < |reqs|
  {
    var r := reqs[k];
    r.retries >= ARP_REQUEST_MAX_RETRIES && Lookup(table, r.ip4).None? && Own(env, r.ip4) ==>
      FromSelf(env, r.ip4, r.pkts) + Arrivals(env, table, reqs, i, k, r.ip4) < 2
  }

  ghost predicate ComesBack(env: Env, table: seq<Entry>, reqs: seq<Pending>, i: nat)
    requires i <= |reqs|
  {
    forall k :: i <= k < |reqs| ==> Passable(env, table, reqs, i, k)
  }

  // ---------------------------------------------------------------------------------------------
  // One drain

  lemma FromSelfEnds(env: Env, a: u32, q: seq<Packet>)
    requires |q| > 1 && env.src(q[0]) == a && env.src(q[|q| - 1]) == a
    ensures FromSelf(env, a, q) >= 2
  {
    FromSelfSplit(env, a, q[..|q| - 1], [q[|q| - 1]]);
    assert q == q[..|q| - 1] + [q[|q| - 1]];
  }

  /** A turn that reports a packet leaves one packet from its source fewer to be met. */
  lemma MetStep(env: Env, table: seq<Entry>, a: u32, q: seq<Packet>, m: nat, x: u32)
    requires EnvOK(env) && |q| > 1 && Ends(env, table, a, q)
    ensures Met(env, table, a, q, 0, x)
            == (if env.src(q[0]) == x then 1 else 0) + Met(env, table, a, NextQueue(env, table, a, q, m), 0, x)
  {
    var q' := NextQueue(env, table, a, q, m);
    if Returns(env, table, a) && env.src(q[0]) == a {
      var e := env.report(q[0], env.route(a).value, m);
      assert q' == q[1..] + [e];
      FromSelfSplit(env, a, q[1..], [e]);
      FromSelfSplit(env, x, q[1..], [e]);
      assert FromSelf(env, a, [e]) == if Own(env, a) then 1 else 0;
      assert FromSelf(env, x, [e]) == if SentBackFrom(env, table, a, x) then 1 else 0;
      if env.src(q[|q| - 1]) == a {
        FromSelfEnds(env, a, q);
      }
    } else {
      assert q' == q[1..];
    }
  }

  lemma MetOne(env: Env, table: seq<Entry>, a: u32, p: Packet, x: u32)
    ensures Met(env, table, a, [p], 0, x) == if env.src(p) == x then 1 else 0
  {
    assert [p][1..] == [];
  }

  /** Reports that have already come back are counted among the queue. */
  lemma MetTail(env: Env, table: seq<Entry>, a: u32, q: seq<Packet>, more: seq<Packet>, n: nat, m: nat, x: u32)
    requires Gains(env, table, a, more, n)
    ensures Met(env, table, a, q + more, m, x) == Met(env, table, a, q, n + m, x)
  {
    FromSelfSplit(env, a, q, more);
    FromSelfSplit(env, x, q, more);
    AllFrom(env, table, a, more, n, a);
    AllFrom(env, table, a, more, n, x);
  }

  /** What n packets from a, reported elsewhere, add to a's queue. */
  ghost predicate Gains(env: Env, table: seq<Entry>, a: u32, more: seq<Packet>, n: nat) {
    && |more| == (if Returns(env, table, a) then n else 0)
    && forall k :: 0 <= k < |more| ==> env.src(more[k]) == env.route(a).value.ip
  }

  lemma {:induction false} AllFrom(env: Env, table: seq<Entry>, a: u32, more: seq<Packet>, n: nat, x: u32)
    requires Gains(env, table, a, more, n)
    ensures FromSelf(env, x, more) == if SentBackFrom(env, table, a, x) then n else 0
    decreases |more|
  {
    if more != [] {
      AllFrom(env, table, a, more[1..], n - 1, x);
    }
  }

  /** The packets request k's queue gains from s to r. */
  ghost predicate QueueGains(env: Env, s: State, r: State, k: nat, n: nat) {
    && k < |s.reqs| && k < |r.reqs| && s.reqs[k].pkts <= r.reqs[k].pkts
    && r.reqs[k] == s.reqs[k].(pkts := r.reqs[k].pkts)
    && Gains(env, s.table, s.reqs[k].ip4, r.reqs[k].pkts[|s.reqs[k].pkts|..], n)
  }

  lemma VisitAdds(env: Env, s: State, i: nat, now: int, k: nat)
    requires EnvOK(env) && i < |s.reqs| && s.reqs[i].pkts != [] && k < |s.reqs| && s.reqs[k].ip4 != s.reqs[i].ip4
    ensures QueueGains(env, s, Visit(env, s, i, now), k, if env.src(s.reqs[i].pkts[0]) == s.reqs[k].ip4 then 1 else 0)
  {
    var p, b := s.reqs[i].pkts[0], s.reqs[k].ip4;
    var s0 := s.(log := s.log + [GiveUp(s.reqs[i].ip4, p)]);
    var s1 := Report(env, s0, p, now);
    if env.route(env.src(p)).Some? && Lookup(s.table, env.src(p)).None? && Waits(s0.reqs, env.src(p)) {
      assert s1.reqs[k] == Push(s.reqs[k], env.src(p), env.report(p, env.route(env.src(p)).value, s.draws));
    } else {
      assert env.src(p) != b || !Returns(env, s.table, b);
      assert s1.reqs[k] == s.reqs[k];
    }
  }

  lemma GainsTwice(env: Env, s: State, s1: State, r: State, k: nat, n: nat, m: nat)
    requires QueueGains(env, s, s1, k, n) && QueueGains(env, s1, r, k, m) && s1.table == s.table
    ensures QueueGains(env, s, r, k, n + m)
  {
    var a, b, c := s.reqs[k].pkts, s1.reqs[k].pkts, r.reqs[k].pkts;
    assert c[|a|..] == b[|a|..] + c[|b|..];
  }

  /** The drain of request i sends request k exactly a report for each packet from its address that it meets. */
  lemma {:induction false} DrainAdds(env: Env, s: State, i: nat, now: int, k: nat)
    requires EnvOK(env) && i < |s.reqs| && k < |s.reqs| && s.reqs[k].ip4 != s.reqs[i].ip4
    requires Ends(env, s.table, s.reqs[i].ip4, s.reqs[i].pkts)
    ensures QueueGains(env, s, Drain(env, s, i, now), k,
                       Met(env, s.table, s.reqs[i].ip4, s.reqs[i].pkts, 0, s.reqs[k].ip4))
    decreases Turns(env, s.table, s.reqs[i].ip4, s.reqs[i].pkts)
  {
    var a, q, b := s.reqs[i].ip4, s.reqs[i].pkts, s.reqs[k].ip4;
    if q != [] {
      var s1 := Visit(env, s, i, now);
      VisitAdds(env, s, i, now, k);
      VisitQueue(env, s, i, now);
      if |q| == 1 {
        assert q == [q[0]];
        MetOne(env, s.table, a, q[0], b);
      } else {
        TurnsDecrease(env, s.table, a, q, s.draws);
        MetStep(env, s.table, a, q, s.draws, b);
        DrainAdds(env, s1, i, now, k);
        GainsTwice(env, s, s1, Drain(env, s1, i, now), k, if env.src(q[0]) == b then 1 else 0,
                   Met(env, s.table, a, s1.reqs[i].pkts, 0, b));
      }
    }
  }

  // ---------------------------------------------------------------------------------------------
  // The rest of the pass

  /** Request b after the drain of q: b' has b's packets and a report for each packet from its address. */
  ghost predicate Fed(env: Env, table: seq<Entry>, q: Pending, b: Pending, b': Pending) {
    && b' == b.(pkts := b'.pkts) && b.pkts <= b'.pkts
    && Gains(env, table, b.ip4, b'.pkts[|b.pkts|..], Met(env, table, q.ip4, q.pkts, 0, b.ip4))
  }

  /** The list without request i, the later ones fed by its drain, what was opened meanwhile behind them. */
  ghost predicate Shifted(env: Env, table: seq<Entry>, reqs: seq<Pending>, i: nat, r: seq<Pending>) {
    && i < |reqs| <= |r| + 1
    && (forall k :: i < k < |reqs| ==> Fed(env, table, reqs[i], reqs[k], r[k - 1]))
    && (forall k :: |reqs| - 1 <= k < |r| ==> r[k].retries == 0)
  }

  lemma DrainFeeds(env: Env, s: State, i: nat, now: int, k: nat)
    requires EnvOK(env) && i < k < |s.reqs| && Distinct(s.reqs) && Ends(env, s.table, s.reqs[i].ip4, s.reqs[i].pkts)
    ensures Fed(env, s.table, s.reqs[i], s.reqs[k], Drain(env, s, i, now).reqs[k])
  {
    DrainAdds(env, s, i, now, k);
  }

  lemma GiveUpShifts(env: Env, s: State, i: nat, now: int)
    requires EnvOK(env) && i < |s.reqs| && Distinct(s.reqs) && Ends(env, s.table, s.reqs[i].ip4, s.reqs[i].pkts)
    ensures Shifted(env, s.table, s.reqs, i, Unlink(Drain(env, s, i, now), i).reqs)
  {
    hide Drain, Ends, Fed, EnvOK;
    var d := Drain(env, s, i, now);
    var r := Unlink(d, i).reqs;
    forall k | i < k < |s.reqs| ensures Fed(env, s.table, s.reqs[i], s.reqs[k], r[k - 1]) {
      DrainFeeds(env, s, i, now, k);
      assert r[k - 1] == d.reqs[k];
    }
    forall k | |s.reqs| - 1 <= k < |r| ensures r[k].retries == 0 {
      assert r[k] == d.reqs[k + 1];
    }
  }

  lemma FedMet(env: Env, table: seq<Entry>, q: Pending, b: Pending, b': Pending, m: nat, x: u32)
    requires Fed(env, table, q, b, b')
    ensures Met(env, table, b.ip4, b'.pkts, m, x)
            == Met(env, table, b.ip4, b.pkts, Met(env, table, q.ip4, q.pkts, 0, b.ip4) + m, x)
  {
    hide Met;
    var more := b'.pkts[|b.pkts|..];
    assert b'.pkts == b.pkts + more;
    MetTail(env, table, b.ip4, b.pkts, more, Met(env, table, q.ip4, q.pkts, 0, b.ip4), m, x);
  }

  lemma {:induction false} ArrivalsShift(
      env: Env, table: seq<Entry>, reqs: seq<Pending>, i: nat, r: seq<Pending>, k: nat, x: u32)
    requires Shifted(env, table, reqs, i, r) && i < k <= |reqs| && reqs[i].retries >= ARP_REQUEST_MAX_RETRIES
    ensures Arrivals(env, table, reqs, i, k, x)
            == Met(env, table, reqs[i].ip4, reqs[i].pkts, 0, x) + Arrivals(env, table, r, i, k - 1, x)
    decreases k
  {
    hide Met;
    if k > i + 1 {
      var b := reqs[k - 1];
      ArrivalsShift(env, table, reqs, i, r, k - 1, x);
      ArrivalsShift(env, table, reqs, i, r, k - 1, b.ip4);
      assert Fed(env, table, reqs[i], b, r[k - 2]);
      FedMet(env, table, reqs[i], b, r[k - 2], Arrivals(env, table, r, i, k - 2, b.ip4), x);
    } else {
      assert Arrivals(env, table, reqs, i, i, x) == 0 && Arrivals(env, table, reqs, i, i, reqs[i].ip4) == 0;
    }
  }

  lemma PassableShift(env: Env, table: seq<Entry>, reqs: seq<Pending>, i: nat, r: seq<Pending>, k: nat)
    requires Shifted(env, table, reqs, i, r) && i < k < |reqs| && reqs[i].retries >= ARP_REQUEST_MAX_RETRIES
    ensures Passable(env, table, reqs, i, k) <==> Passable(env, table, r, i, k - 1)
  {
    hide Met, Arrivals;
    var q, b, b' := reqs[i], reqs[k], r[k - 1];
    assert Fed(env, table, q, b, b');
    ArrivalsShift(env, table, reqs, i, r, k, b.ip4);
    var more := b'.pkts[|b.pkts|..];
    assert b'.pkts == b.pkts + more;
    FromSelfSplit(env, b.ip4, b.pkts, more);
    AllFrom(env, table, b.ip4, more, Met(env, table, q.ip4, q.pkts, 0, b.ip4), b.ip4);
  }

  /** What the pass opens behind the requests it started with is not exhausted. */
  lemma ComesBackShift(env: Env, table: seq<Entry>, reqs: seq<Pending>, i: nat, r: seq<Pending>)
    requires Shifted(env, table, reqs, i, r) && reqs[i].retries >= ARP_REQUEST_MAX_RETRIES
    requires Passable(env, table, reqs, i, i)
    ensures ComesBack(env, table, reqs, i) <==> ComesBack(env, table, r, i)
  {
    forall k | i < k < |reqs| ensures Passable(env, table, reqs, i, k) <==> Passable(env, table, r, i, k - 1) {
      PassableShift(env, table, reqs, i, r, k);
    }
    hide Passable;
    if ComesBack(env, table, r, i) {
      forall k | i < k < |reqs| ensures Passable(env, table, reqs, i, k) {
        assert Passable(env, table, r, i, k - 1);
      }
    } else {
      var k :| i <= k < |r| && !Passable(env, table, r, i, k);
      FreshPassable(env, table, r, i, k);
      assert !Passable(env, table, reqs, i, k + 1);
    }
  }

  lemma FreshPassable(env: Env, table: seq<Entry>, r: seq<Pending>, i: nat, k: nat)
    requires i <= k < |r|
    ensures r[k].retries == 0 ==> Passable(env, table, r, i, k)
  {
  }

  lemma {:induction false} ArrivalsAfterRetry(
      env: Env, table: seq<Entry>, reqs: seq<Pending>, i: nat, r: seq<Pending>, k: nat, x: u32)
    requires i < k <= |reqs| == |r| && reqs[i].retries < ARP_REQUEST_MAX_RETRIES
    requires forall j :: i < j < |reqs| ==> r[j] == reqs[j]
    ensures Arrivals(env, table, reqs, i, k, x) == Arrivals(env, table, r, i + 1, k, x)
    decreases k
  {
    hide Met;
    if k > i + 1 {
      ArrivalsAfterRetry(env, table, reqs, i, r, k - 1, x);
      ArrivalsAfterRetry(env, table, reqs, i, r, k - 1, reqs[k - 1].ip4);
    }
  }

  lemma ComesBackAfterRetry(env: Env, table: seq<Entry>, reqs: seq<Pending>, i: nat, r: seq<Pending>)
    requires i < |reqs| == |r| && reqs[i].retries < ARP_REQUEST_MAX_RETRIES
    requires forall j :: i < j < |reqs| ==> r[j] == reqs[j]
    ensures ComesBack(env, table, reqs, i) <==> ComesBack(env, table, r, i + 1)
  {
    hide Arrivals;
    assert Passable(env, table, reqs, i, i);
    forall k | i < k < |reqs| ensures Passable(env, table, reqs, i, k) <==> Passable(env, table, r, i + 1, k) {
      ArrivalsAfterRetry(env, table, reqs, i, r, k, reqs[k].ip4);
    }
    hide Passable;
    if ComesBack(env, table, r, i + 1) {
      forall k | i < k < |reqs| ensures Passable(env, table, reqs, i, k) {
        assert Passable(env, table, r, i + 1, k);
      }
    } else {
      var k :| i + 1 <= k < |r| && !Passable(env, table, r, i + 1, k);
      assert !Passable(env, table, reqs, i, k);
    }
  }

  /** Which passes come back, decided before they start: those in which no exhausted request for an unresolved
      address of the router's own has two packets from that address, counting the reports that the drains
      before it will send there. */
  lemma {:induction false} PassDecided(env: Env, s: State, i: nat, now: int)
    requires EnvOK(env) && i <= |s.reqs| && Inv(s)
    ensures SweepFrom(env, s, i, now).Some? <==> ComesBack(env, s.table, s.reqs, i)
    decreases Exhausted(s.reqs[i..]), |s.reqs| - i
  {
    if i < |s.reqs| {
      if s.reqs[i].retries >= ARP_REQUEST_MAX_RETRIES {
        assert Passable(env, s.table, s.reqs, i, i) <==> Ends(env, s.table, s.reqs[i].ip4, s.reqs[i].pkts);
        if Ends(env, s.table, s.reqs[i].ip4, s.reqs[i].pkts) && i < |s.reqs| - 1 {
          GiveUpCounts(env, s, i, now);
          GiveUpKeeps(env, s, i, now);
          GiveUpShifts(env, s, i, now);
          ComesBackShift(env, s.table, s.reqs, i, Unlink(Drain(env, s, i, now), i).reqs);
          PassDecided(env, Unlink(Drain(env, s, i, now), i), i, now);
        }
      } else {
        ComesBackAfterRetry(env, s.table, s.reqs, i, Retry(s, i, now).reqs);
        if i < |s.reqs| - 1 {
          ExhaustedTail(s.reqs, Retry(s, i, now).reqs, i);
          RetryKeeps(s, i, now);
          PassDecided(env, Retry(s, i, now), i + 1, now);
        }
      }
    }
  }

  /** The two loops of a round come back, in some number of turns, exactly in those states. */
  lemma {:induction false} RoundComesBackExactly(env: Env, s: State, now: int)
    requires EnvOK(env) && Inv(s)
    ensures var aged := s.(table := AgeOut(s.table, now));
            (exists fuel: nat :: Pass(env, aged, 0, now, fuel).Some?) <==> ComesBack(env, aged.table, s.reqs, 0)
    ensures Sweep(env, s, now).Some? <==> ComesBack(env, AgeOut(s.table, now), s.reqs, 0)
  {
    var aged := s.(table := AgeOut(s.table, now));
    AgeOutKeeps(s, now);
    PassDecided(env, aged, 0, now);
    PassExactly(env, aged, 0, now);
  }
}
