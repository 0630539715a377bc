/** One pass of the sweep over the pending requests (arpcache_sweep), which appends to the list it walks. */
module SweepPass {
  import opened Types
  import opened ArpTable
  import opened Resolver
  import opened DrainWalk

  function Exhausted(reqs: seq<Pending>): nat {
    if reqs == [] then 0
    else (if reqs[0].retries >= ARP_REQUEST_MAX_RETRIES then 1 else 0) + Exhausted(reqs[1..])
  }

  function Losses(a: u32, q: seq<Packet>): (l: seq<Event>)
    ensures |l| == |q| && forall k :: 0 <= k < |q| ==> l[k] == Lost(a, q[k])
  {
    seq(|q|, i requires 0 <= i < |q| => Lost(a, q[i]))
  }

  /** Request i after its queue was walked: unlinked, with whatever its queue still holds. */
  function Unlink(s: State, i: nat): State
    requires i < |s.reqs|
  {
    s.(reqs := s.reqs[..i] + s.reqs[i + 1..], log := s.log + Losses(s.reqs[i].ip4, s.reqs[i].pkts))
  }

  /** A waiting request is asked for again once a second has passed; sent is not touched. */
  function Retry(s: State, i: nat, now: int): (r: State)
    requires i < |s.reqs|
    ensures |r.reqs| == |s.reqs| && r.reqs[i].retries >= s.reqs[i].retries
  {
    var q := s.reqs[i];
    if now - q.sent >= 1 then
      s.(reqs := s.reqs[i := q.(retries := q.retries + 1)], log := s.log + [Ask(q.iface, q.ip4)])
    else s
  }

  lemma ExhaustedGrown(a: seq<Pending>, b: seq<Pending>)
    requires |a| <= |b|
    requires forall k :: 0 <= k < |a| ==> b[k].retries == a[k].retries
    requires forall k :: |a| <= k < |b| ==> b[k].retries == 0
    ensures Exhausted(b) == Exhausted(a)
  {
    if b != [] {
      if a == [] {
        ExhaustedGrown([], b[1..]);
      } else {
        ExhaustedGrown(a[1..], b[1..]);
      }
    }
  }

  /** Draining and unlinking a request leaves one exhausted request fewer ahead of the walk. */
  lemma GiveUpCounts(env: Env, s: State, i: nat, now: int)
    requires EnvOK(env) && i < |s.reqs| && s.reqs[i].retries >= ARP_REQUEST_MAX_RETRIES
    requires Ends(env, s.table, s.reqs[i].ip4, s.reqs[i].pkts)
    ensures var r := Unlink(Drain(env, s, i, now), i).reqs;
            i <= |r| && Exhausted(r[i..]) + 1 == Exhausted(s.reqs[i..])
  {
    var d := Drain(env, s, i, now);
    var r := Unlink(d, i).reqs;
    assert r[i..] == d.reqs[i + 1..];
    assert s.reqs[i..][1..] == s.reqs[i + 1..];
    ExhaustedGrown(s.reqs[i + 1..], d.reqs[i + 1..]);
  }

  lemma ExhaustedTail(reqs: seq<Pending>, r: seq<Pending>, i: nat)
    requires i < |reqs| == |r| && reqs[i].retries < ARP_REQUEST_MAX_RETRIES
    requires forall k :: i < k < |reqs| ==> r[k] == reqs[k]
    ensures Exhausted(r[i + 1..]) == Exhausted(reqs[i..])
  {
    assert reqs[i..][1..] == r[i + 1..];
  }

  /** The outer loop from request i on. None: the pass never comes back, because a queue it reaches is
      walked for ever. The successor is fetched before the turn, so the pass stops after the request that
      was last when its turn began. */
  ghost function SweepFrom(env: Env, s: State, i: nat, now: int): (r: Option<State>)
    requires EnvOK(env) && i <= |s.reqs|
    ensures r.Some? ==> r.value.table == s.table && s.log <= r.value.log
    decreases Exhausted(s.reqs[i..]), |s.reqs| - i
  {
    if i == |s.reqs| then Some(s)
    else if s.reqs[i].retries >= ARP_REQUEST_MAX_RETRIES then
      if !Ends(env, s.table, s.reqs[i].ip4, s.reqs[i].pkts) then None
      else
        var s1 := Unlink(Drain(env, s, i, now), i);
        GiveUpCounts(env, s, i, now);
        if i == |s.reqs| - 1 then Some(s1) else SweepFrom(env, s1, i, now)
    else
      var s1 := Retry(s, i, now);
      ExhaustedTail(s.reqs, s1.reqs, i);
      if i == |s.reqs| - 1 then Some(s1) else SweepFrom(env, s1, i + 1, now)
  }

  /** arpcache_sweep, one round: age the table, then walk the requests. */
  ghost function Sweep(env: Env, s: State, now: int): (r: Option<State>)
    requires EnvOK(env)
    ensures r.Some? ==> r.value.table == AgeOut(s.table, now) && s.log <= r.value.log
  {
    SweepFrom(env, s.(table := AgeOut(s.table, now)), 0, now)
  }

  /** The two nested loops as they run, neither taking more than fuel turns. None: not ended by then. */
  ghost function Pass(env: Env, s: State, i: nat, now: int, fuel: nat): Option<State>
    requires i <= |s.reqs|
    decreases fuel
  {
    if i == |s.reqs| then Some(s)
    else if fuel == 0 then None
    else if s.reqs[i].retries >= ARP_REQUEST_MAX_RETRIES then
      match Walk(env, s, i, now, fuel - 1)
      case None => None
      case Some(d) =>
        WalkGrows(env, s, i, now, fuel - 1);
        if i == |s.reqs| - 1 then Some(Unlink(d, i)) else Pass(env, Unlink(d, i), i, now, fuel - 1)
    else if i == |s.reqs| - 1 then Some(Retry(s, i, now))
    else Pass(env, Retry(s, i, now), i + 1, now, fuel - 1)
  }

  lemma WalkGrows(env: Env, s: State, i: nat, now: int, fuel: nat)
    requires i < |s.reqs|
    ensures Walk(env, s, i, now, fuel).Some? ==> |s.reqs| <= |Walk(env, s, i, now, fuel).value.reqs|
    decreases fuel
  {
    if s.reqs[i].pkts != [] && fuel > 0 {
      WalkGrows(env, Visit(env, s, i, now), i, now, fuel - 1);
    }
  }

  /** One turn of the outer loop on an exhausted request whose queue the inner loop finishes. */
  lemma PassGivesUp(env: Env, s: State, i: nat, now: int, fuel: nat)
    requires EnvOK(env) && i < |s.reqs| && s.reqs[i].retries >= ARP_REQUEST_MAX_RETRIES && fuel > 0
    requires Ends(env, s.table, s.reqs[i].ip4, s.reqs[i].pkts)
    requires Walk(env, s, i, now, fuel - 1) == Some(Drain(env, s, i, now))
    ensures i <= |Unlink(Drain(env, s, i, now), i).reqs|
    ensures Pass(env, s, i, now, fuel)
            == (var s1 := Unlink(Drain(env, s, i, now), i);
                if i == |s.reqs| - 1 then Some(s1) else Pass(env, s1, i, now, fuel - 1))
  {
  }

  /** Enough turns for a pass that comes back. */
  ghost function PassTurns(env: Env, s: State, i: nat, now: int): nat
    requires EnvOK(env) && i <= |s.reqs|
    requires SweepFrom(env, s, i, now).Some?
    decreases Exhausted(s.reqs[i..]), |s.reqs| - i
  {
    if i == |s.reqs| then 0
    else if s.reqs[i].retries >= ARP_REQUEST_MAX_RETRIES then
      GiveUpCounts(env, s, i, now);
      1 + Turns(env, s.table, s.reqs[i].ip4, s.reqs[i].pkts)
      + if i == |s.reqs| - 1 then 0 else PassTurns(env, Unlink(Drain(env, s, i, now), i), i, now)
    else
      ExhaustedTail(s.reqs, Retry(s, i, now).reqs, i);
      1 + if i == |s.reqs| - 1 then 0 else PassTurns(env, Retry(s, i, now), i + 1, now)
  }

  lemma GiveUpTurn(env: Env, s: State, i: nat, now: int, fuel: nat)
    requires EnvOK(env) && i < |s.reqs| && s.reqs[i].retries >= ARP_REQUEST_MAX_RETRIES
    requires SweepFrom(env, s, i, now).Some? && PassTurns(env, s, i, now) <= fuel
    ensures fuel > 0 && Walk(env, s, i, now, fuel - 1) == Some(Drain(env, s, i, now))
    ensures i < |s.reqs| - 1 ==> i <= |Unlink(Drain(env, s, i, now), i).reqs|
    ensures i < |s.reqs| - 1 ==> SweepFrom(env, Unlink(Drain(env, s, i, now), i), i, now).Some?
    ensures i < |s.reqs| - 1 ==> PassTurns(env, Unlink(Drain(env, s, i, now), i), i, now) <= fuel - 1
  {
    WalkReachesDrain(env, s, i, now, fuel - 1);
  }

  lemma {:induction false} PassReaches(env: Env, s: State, i: nat, now: int, fuel: nat)
    requires EnvOK(env) && i <= |s.reqs|
    requires SweepFrom(env, s, i, now).Some? && PassTurns(env, s, i, now) <= fuel
    ensures Pass(env, s, i, now, fuel) == SweepFrom(env, s, i, now)
    decreases fuel
  {
    if i < |s.reqs| {
      if s.reqs[i].retries >= ARP_REQUEST_MAX_RETRIES {
        GiveUpTurn(env, s, i, now, fuel);
        PassGivesUp(env, s, i, now, fuel);
        if i < |s.reqs| - 1 {
          PassReaches(env, Unlink(Drain(env, s, i, now), i), i, now, fuel - 1);
        }
      } else if i < |s.reqs| - 1 {
        PassReaches(env, Retry(s, i, now), i + 1, now, fuel - 1);
      }
    }
  }

  /** A walk that ended, ended with the drained state. */
  lemma {:induction false} WalkAgrees(env: Env, s: State, i: nat, now: int, fuel: nat)
    requires EnvOK(env) && i < |s.reqs| && Walk(env, s, i, now, fuel).Some?
    requires Ends(env, s.table, s.reqs[i].ip4, s.reqs[i].pkts)
    ensures Walk(env, s, i, now, fuel).value == Drain(env, s, i, now)
    decreases fuel
  {
    var q := s.reqs[i];
    if |q.pkts| > 1 {
      VisitQueue(env, s, i, now);
      TurnsDecrease(env, s.table, q.ip4, q.pkts, s.draws);
      WalkAgrees(env, Visit(env, s, i, now), i, now, fuel - 1);
    }
  }

  /** A pass that came back had given up request i properly. */
  lemma PassGaveUp(env: Env, s: State, i: nat, now: int, fuel: nat)
    requires EnvOK(env) && i < |s.reqs| && s.reqs[i].retries >= ARP_REQUEST_MAX_RETRIES && fuel > 0
    requires Pass(env, s, i, now, fuel).Some?
    ensures Ends(env, s.table, s.reqs[i].ip4, s.reqs[i].pkts)
    ensures Walk(env, s, i, now, fuel - 1) == Some(Drain(env, s, i, now))
  {
    if !Ends(env, s.table, s.reqs[i].ip4, s.reqs[i].pkts) {
      WalkNeverEnds(env, s, i, now, fuel - 1);
    }
    WalkAgrees(env, s, i, now, fuel - 1);
  }

  lemma {:induction false} PassAgrees(env: Env, s: State, i: nat, now: int, fuel: nat)
    requires EnvOK(env) && i <= |s.reqs|
    requires Pass(env, s, i, now, fuel).Some?
    ensures Pass(env, s, i, now, fuel) == SweepFrom(env, s, i, now)
    decreases fuel
  {
    if i < |s.reqs| {
      if s.reqs[i].retries >= ARP_REQUEST_MAX_RETRIES {
        PassGaveUp(env, s, i, now, fuel);
        PassGivesUp(env, s, i, now, fuel);
        if i < |s.reqs| - 1 {
          PassAgrees(env, Unlink(Drain(env, s, i, now), i), i, now, fuel - 1);
        }
      } else if i < |s.reqs| - 1 {
        PassAgrees(env, Retry(s, i, now), i + 1, now, fuel - 1);
      }
    }
  }

  /** The two loops come back, with some number of turns, exactly when SweepFrom has a result; and then that
      result is the state they leave. */
  lemma {:induction false} PassExactly(env: Env, s: State, i: nat, now: int)
    requires EnvOK(env) && i <= |s.reqs|
    ensures (exists fuel: nat :: Pass(env, s, i, now, fuel).Some?) <==> SweepFrom(env, s, i, now).Some?
    ensures SweepFrom(env, s, i, now).Some? ==>
              exists fuel: nat :: Pass(env, s, i, now, fuel) == SweepFrom(env, s, i, now)
  {
    if SweepFrom(env, s, i, now).Some? {
      var fuel := PassTurns(env, s, i, now);
      PassReaches(env, s, i, now, fuel);
      assert Pass(env, s, i, now, fuel) == SweepFrom(env, s, i, now);
    } else {
      forall fuel: nat ensures Pass(env, s, i, now, fuel).None? {
        if Pass(env, s, i, now, fuel).Some? {
          PassAgrees(env, s, i, now, fuel);
        }
      }
    }
  }

  /** A pass ends if no exhausted request waits for one of the router's own addresses. */
  lemma {:induction false} PassEnds(env: Env, s: State, i: nat, now: int)
    requires EnvOK(env) && i <= |s.reqs|
    requires forall k :: i <= k < |s.reqs| && Own(env, s.reqs[k].ip4) ==> s.reqs[k].retries < ARP_REQUEST_MAX_RETRIES
    ensures SweepFrom(env, s, i, now).Some?
    decreases Exhausted(s.reqs[i..]), |s.reqs| - i
  {
    if i < |s.reqs| {
      if s.reqs[i].retries >= ARP_REQUEST_MAX_RETRIES {
        GiveUpCounts(env, s, i, now);
        var d := Drain(env, s, i, now);
        var s1 := Unlink(d, i);
        forall k | i <= k < |s1.reqs| && Own(env, s1.reqs[k].ip4)
          ensures s1.reqs[k].retries < ARP_REQUEST_MAX_RETRIES
        {
          assert s1.reqs[k] == d.reqs[k + 1];
        }
        PassEnds(env, s1, i, now);
      } else if i < |s.reqs| - 1 {
        ExhaustedTail(s.reqs, Retry(s, i, now).reqs, i);
        PassEnds(env, Retry(s, i, now), i + 1, now);
      }
    }
  }
}
