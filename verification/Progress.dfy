/** What one pass of the sweep does to one request, wherever in the list it stands. */
module Progress {
  import opened Types
  import opened ArpTable
  import opened Resolver
  import opened SweepPass
  import opened Invariant
  import opened Conservation

  /** ARP requests sent for an address. */
  function Asked(log: seq<Event>, h: u32): nat {
    if log == [] then 0 else (if log[0].Ask? && log[0].hop == h then 1 else 0) + Asked(log[1..], h)
  }

  lemma AskedConcat(a: seq<Event>, b: seq<Event>, h: u32)
    ensures Asked(a + b, h) == Asked(a, h) + Asked(b, h)
  {
    if a == [] {
      assert a + b == b;
    } else {
      assert (a + b)[1..] == a[1..] + b;
      AskedConcat(a[1..], b, h);
    }
  }

  lemma AskedSilent(log: seq<Event>, more: seq<Event>, h: u32)
    requires forall k :: 0 <= k < |more| ==> !more[k].Ask?
    ensures Asked(log + more, h) == Asked(log, h)
  {
    AskedConcat(log, more, h);
    NoneAsked(more, h);
  }

  lemma NoneAsked(log: seq<Event>, h: u32)
    requires forall k :: 0 <= k < |log| ==> !log[k].Ask?
    ensures Asked(log, h) == 0
  {
  }

  lemma AskedPush(log: seq<Event>, e: Event, h: u32)
    ensures Asked(log + [e], h) == Asked(log, h) + if e.Ask? && e.hop == h then 1 else 0
  {
    AskedConcat(log, [e], h);
  }

  /** Handing over a frame asks for its next hop only when that opens a request. */
  lemma SubmitAsks(s: State, iface: Iface, hop: u32, pkt: Packet, now: int, h: u32)
    ensures Asked(SubmitFrame(s, iface, hop, pkt, now).log, h)
            == Asked(s.log, h) + if h == hop && Lookup(s.table, hop).None? && !Waits(s.reqs, hop) then 1 else 0
  {
    var log1 := s.log + [Submit(hop, pkt)];
    AskedPush(s.log, Submit(hop, pkt), h);
    if Lookup(s.table, hop).Some? {
      AskedPush(log1, Transmit(hop, iface, Lookup(s.table, hop).value, pkt), h);
    } else {
      AskedPush(log1, Ask(iface, hop), h);
    }
  }

  lemma VisitAsks(env: Env, s: State, i: nat, now: int, h: u32)
    requires i < |s.reqs| && s.reqs[i].pkts != [] && Waits(s.reqs, h)
    ensures Asked(Visit(env, s, i, now).log, h) == Asked(s.log, h)
    ensures Waits(Visit(env, s, i, now).reqs, h)
  {
    var q := s.reqs[i];
    var p := q.pkts[0];
    AskedPush(s.log, GiveUp(q.ip4, p), h);
    var s0 := s.(log := s.log + [GiveUp(q.ip4, p)]);
    match env.route(env.src(p)) {
      case None =>
      case Some(iface) =>
        SubmitAsks(s0.(draws := s.draws + 1), iface, env.src(p), env.report(p, iface, s.draws), now, h);
    }
    var k :| 0 <= k < |s.reqs| && s.reqs[k].ip4 == h;
    assert Visit(env, s, i, now).reqs[k].ip4 == h;
  }

  lemma {:induction false} DrainAsks(env: Env, s: State, i: nat, now: int, h: u32)
    requires EnvOK(env) && i < |s.reqs| && Waits(s.reqs, h)
    requires Ends(env, s.table, s.reqs[i].ip4, s.reqs[i].pkts)
    ensures Asked(Drain(env, s, i, now).log, h) == Asked(s.log, h)
    decreases Turns(env, s.table, s.reqs[i].ip4, s.reqs[i].pkts)
  {
    var q := s.reqs[i];
    if q.pkts != [] {
      VisitAsks(env, s, i, now, h);
      if |q.pkts| > 1 {
        VisitQueue(env, s, i, now);
        TurnsDecrease(env, s.table, q.ip4, q.pkts, s.draws);
        DrainAsks(env, Visit(env, s, i, now), i, now, h);
      }
    }
  }

  /** From s to r the request went on waiting: asked for n more times, its queue at most longer, nothing
      reported. */
  ghost predicate Waited(s: State, q: Pending, r: State, t: nat, n: nat) {
    && t < |r.reqs|
    && r.reqs[t] == q.(retries := q.retries + n, pkts := r.reqs[t].pkts)
    && q.pkts <= r.reqs[t].pkts
    && Asked(r.log, q.ip4) == Asked(s.log, q.ip4) + n
    && Project(Reported, q.ip4, r.log) == Project(Reported, q.ip4, s.log)
  }

  lemma UnlinkOther(s: State, q: Pending, d: State, i: nat, t: nat)
    requires Keyed(d) && i < |d.reqs| && t != i && Law(d, q.ip4) && Waited(s, q, d, t, 0)
    ensures Waited(s, q, Unlink(d, i), if t < i then t else t - 1, 0)
  {
    hide Keyed, Law, Project, Asked;
    AskedSilent(d.log, Losses(d.reqs[i].ip4, d.reqs[i].pkts), q.ip4);
    UnlinkConserves(d, i, q.ip4);
  }

  lemma DrainOther(env: Env, s: State, i: nat, now: int, t: nat)
    requires EnvOK(env) && i < |s.reqs| && t < |s.reqs| && t != i && Inv(s)
    requires Ends(env, s.table, s.reqs[i].ip4, s.reqs[i].pkts)
    requires Law(s, s.reqs[t].ip4)
    ensures Waited(s, s.reqs[t], Drain(env, s, i, now), t, 0)
  {
    assert Waits(s.reqs, s.reqs[t].ip4);
    DrainAsks(env, s, i, now, s.reqs[t].ip4);
    DrainConserves(env, s, i, now, s.reqs[t].ip4);
    assert s.reqs[i].ip4 != s.reqs[t].ip4;
  }

  /** Giving up another request moves this one at most one place and leaves it waiting. */
  lemma GiveUpOther(env: Env, s: State, i: nat, now: int, t: nat)
    requires EnvOK(env) && i < |s.reqs| && t < |s.reqs| && t != i && Inv(s)
    requires Ends(env, s.table, s.reqs[i].ip4, s.reqs[i].pkts)
    requires Law(s, s.reqs[t].ip4)
    ensures Waited(s, s.reqs[t], Unlink(Drain(env, s, i, now), i), if t < i then t else t - 1, 0)
  {
    DrainOther(env, s, i, now, t);
    DrainConserves(env, s, i, now, s.reqs[t].ip4);
    DrainKeeps(env, s, i, now);
    UnlinkOther(s, s.reqs[t], Drain(env, s, i, now), i, t);
  }

  lemma RetryOther(s: State, i: nat, now: int, t: nat)
    requires i < |s.reqs| && t < |s.reqs| && t != i && Inv(s) && Law(s, s.reqs[t].ip4)
    ensures Waited(s, s.reqs[t], Retry(s, i, now), t, 0)
  {
    assert s.reqs[i].ip4 != s.reqs[t].ip4;
    AskedPush(s.log, Ask(s.reqs[i].iface, s.reqs[i].ip4), s.reqs[t].ip4);
    RetryConserves(s, i, now, s.reqs[t].ip4);
  }

  lemma RetrySelf(s: State, i: nat, now: int)
    requires i < |s.reqs| && Inv(s) && Law(s, s.reqs[i].ip4)
    ensures Waited(s, s.reqs[i], Retry(s, i, now), i, Due(s.reqs[i], now))
  {
    AskedPush(s.log, Ask(s.reqs[i].iface, s.reqs[i].ip4), s.reqs[i].ip4);
    RetryConserves(s, i, now, s.reqs[i].ip4);
  }

  lemma WaitedTwice(s: State, q: Pending, r: State, t: nat, n: nat, r': State, t': nat, n': nat)
    requires Waited(s, q, r, t, n) && Waited(r, r.reqs[t], r', t', n')
    ensures Waited(s, q, r', t', n + n')
  {
  }

  /** A request the pass has gone by keeps waiting as it is. */
  lemma {:induction false} PassLeaves(env: Env, s: State, i: nat, now: int, t: nat, r: State)
    requires EnvOK(env) && t < i <= |s.reqs| && Inv(s) && Law(s, s.reqs[t].ip4)
    requires SweepFrom(env, s, i, now) == Some(r)
    ensures Waited(s, s.reqs[t], r, t, 0)
    decreases Exhausted(s.reqs[i..]), |s.reqs| - i, 0
  {
    hide Inv, Law, Unlink, Retry, Exhausted, Drain, Ends, EnvOK;
    if i < |s.reqs| {
      if s.reqs[i].retries >= ARP_REQUEST_MAX_RETRIES {
        GiveUpOther(env, s, i, now, t);
        if i < |s.reqs| - 1 {
          GiveUpGoesOn(env, s, i, now, s.reqs[t].ip4);
          PassLeavesLater(env, s, s.reqs[t], Unlink(Drain(env, s, i, now), i), i, now, t, r);
        }
      } else {
        RetryOther(s, i, now, t);
        if i < |s.reqs| - 1 {
          RetryGoesOn(s, i, now, s.reqs[t].ip4);
          PassLeavesLater(env, s, s.reqs[t], Retry(s, i, now), i + 1, now, t, r);
        }
      }
    }
  }

  lemma {:induction false} PassLeavesLater(
      env: Env, s: State, q: Pending, s1: State, i: nat, now: int, t: nat, r: State)
    requires EnvOK(env) && t < i <= |s1.reqs| && Inv(s1) && Law(s1, q.ip4) && Waited(s, q, s1, t, 0)
    requires SweepFrom(env, s1, i, now) == Some(r)
    ensures Waited(s, q, r, t, 0)
    decreases Exhausted(s1.reqs[i..]), |s1.reqs| - i, 1
  {
    PassLeaves(env, s1, i, now, t, r);
    WaitedTwice(s, q, s1, t, 0, r, t, 0);
  }

  /** What the rest of the pass may rely on after giving up request i. */
  lemma GiveUpGoesOn(env: Env, s: State, i: nat, now: int, h: u32)
    requires EnvOK(env) && i < |s.reqs| && Inv(s) && Law(s, h) && s.reqs[i].retries >= ARP_REQUEST_MAX_RETRIES
    requires Ends(env, s.table, s.reqs[i].ip4, s.reqs[i].pkts)
    ensures var s1 := Unlink(Drain(env, s, i, now), i);
            Inv(s1) && Law(s1, h) && i <= |s1.reqs| && Exhausted(s1.reqs[i..]) < Exhausted(s.reqs[i..])
  {
    GiveUpKeeps(env, s, i, now);
    GiveUpConserves(env, s, i, now, h);
    GiveUpCounts(env, s, i, now);
  }

  lemma RetryGoesOn(s: State, i: nat, now: int, h: u32)
    requires i < |s.reqs| && Inv(s) && Law(s, h) && s.reqs[i].retries < ARP_REQUEST_MAX_RETRIES
    ensures var s1 := Retry(s, i, now);
            Inv(s1) && Law(s1, h) && |s1.reqs| == |s.reqs| && Exhausted(s1.reqs[i + 1..]) == Exhausted(s.reqs[i..])
  {
    RetryKeeps(s, i, now);
    RetryConserves(s, i, now, h);
    ExhaustedTail(s.reqs, Retry(s, i, now).reqs, i);
  }

  lemma GiveUpConserves(env: Env, s: State, i: nat, now: int, h: u32)
    requires EnvOK(env) && i < |s.reqs| && Inv(s) && Law(s, h)
    requires Ends(env, s.table, s.reqs[i].ip4, s.reqs[i].pkts)
    ensures Law(Unlink(Drain(env, s, i, now), i), h)
  {
    DrainConserves(env, s, i, now, h);
    DrainKeeps(env, s, i, now);
    UnlinkConserves(Drain(env, s, i, now), i, h);
  }

  function Due(q: Pending, now: int): nat {
    if now - q.sent >= 1 then 1 else 0
  }

  /** What a pass does to a request still ahead of it: one more try if it has tries left and a second has
      passed, and otherwise, its tries used up, every packet in its queue is reported. */
  ghost predicate Handled(s: State, q: Pending, r: State, now: int) {
    if q.retries >= ARP_REQUEST_MAX_RETRIES then ReportsAtLeast(s, r, q.ip4, q.pkts)
    else exists t: nat :: Waited(s, q, r, t, Due(q, now))
  }

  lemma HandledLater(s: State, q: Pending, s1: State, t: nat, r: State, now: int)
    requires Waited(s, q, s1, t, 0) && Handled(s1, s1.reqs[t], r, now)
    ensures Handled(s, q, r, now)
  {
    if q.retries >= ARP_REQUEST_MAX_RETRIES {
      assert s1.reqs[t].pkts == q.pkts + s1.reqs[t].pkts[|q.pkts|..];
    } else {
      var t': nat :| Waited(s1, s1.reqs[t], r, t', Due(q, now));
      WaitedTwice(s, q, s1, t, 0, r, t', Due(q, now));
    }
  }

  lemma ReportsGrow(s: State, r: State, r': State, h: u32, q: seq<Packet>)
    requires ReportsAtLeast(s, r, h, q) && r.log <= r'.log
    ensures ReportsAtLeast(s, r', h, q)
  {
    ProjectConcat(Reported, h, r.log, r'.log[|r.log|..]);
    assert r'.log == r.log + r'.log[|r.log|..];
  }

  lemma GiveUpSelf(env: Env, s: State, i: nat, now: int)
    requires EnvOK(env) && i < |s.reqs| && Inv(s) && Law(s, s.reqs[i].ip4)
    requires Ends(env, s.table, s.reqs[i].ip4, s.reqs[i].pkts)
    ensures ReportsAtLeast(s, Unlink(Drain(env, s, i, now), i), s.reqs[i].ip4, s.reqs[i].pkts)
  {
    DrainConserves(env, s, i, now, s.reqs[i].ip4);
    DrainKeeps(env, s, i, now);
    UnlinkConserves(Drain(env, s, i, now), i, s.reqs[i].ip4);
  }

  /** A pass that comes back has handled every request it had ahead of it, although it unlinks requests and
      appends new ones while it walks. */
  lemma {:induction false} PassHandles(env: Env, s: State, i: nat, now: int, t: nat, r: State)
    requires EnvOK(env) && i <= t < |s.reqs| && Inv(s) && Law(s, s.reqs[t].ip4)
    requires SweepFrom(env, s, i, now) == Some(r)
    ensures Handled(s, s.reqs[t], r, now)
    decreases Exhausted(s.reqs[i..]), |s.reqs| - i, 0
  {
    hide Inv, Law, Handled, Waited, Unlink, Retry, Exhausted, Drain, Ends, EnvOK;
    if t == i {
      HandledAtOnce(env, s, i, now, r);
    } else if s.reqs[i].retries >= ARP_REQUEST_MAX_RETRIES {
      GiveUpOther(env, s, i, now, t);
      GiveUpGoesOn(env, s, i, now, s.reqs[t].ip4);
      PassHandlesLater(env, s, s.reqs[t], Unlink(Drain(env, s, i, now), i), i, now, t - 1, r);
    } else {
      RetryOther(s, i, now, t);
      RetryGoesOn(s, i, now, s.reqs[t].ip4);
      PassHandlesLater(env, s, s.reqs[t], Retry(s, i, now), i + 1, now, t, r);
    }
  }

  lemma {:induction false} PassHandlesLater(
      env: Env, s: State, q: Pending, s1: State, i: nat, now: int, t: nat, r: State)
    requires EnvOK(env) && i <= t < |s1.reqs| && Inv(s1) && Law(s1, q.ip4) && Waited(s, q, s1, t, 0)
    requires SweepFrom(env, s1, i, now) == Some(r)
    ensures Handled(s, q, r, now)
    decreases Exhausted(s1.reqs[i..]), |s1.reqs| - i, 1
  {
    PassHandles(env, s1, i, now, t, r);
    HandledLater(s, q, s1, t, r, now);
  }

  lemma HandledAtOnce(env: Env, s: State, i: nat, now: int, r: State)
    requires EnvOK(env) && i < |s.reqs| && Inv(s) && Law(s, s.reqs[i].ip4)
    requires SweepFrom(env, s, i, now) == Some(r)
    ensures Handled(s, s.reqs[i], r, now)
  {
    var q := s.reqs[i];
    if q.retries >= ARP_REQUEST_MAX_RETRIES {
      GiveUpSelf(env, s, i, now);
      ReportsGrow(s, Unlink(Drain(env, s, i, now), i), r, q.ip4, q.pkts);
    } else {
      RetrySelf(s, i, now);
      if i < |s.reqs| - 1 {
        RetryGoesOn(s, i, now, q.ip4);
        PassLeaves(env, Retry(s, i, now), i + 1, now, i, r);
        WaitedTwice(s, q, Retry(s, i, now), i, Due(q, now), r, i, 0);
      }
      assert Waited(s, q, r, i, Due(q, now));
    }
  }
}
