/** When the walk over an exhausted queue comes back, and when it leaves a packet behind.
    The walk re-enters the resolver: a report for the address being drained is appended to the very queue
    that is being walked. */
module DrainWalk {
  import opened Types
  import opened ArpTable
  import opened Resolver

  /** The inner loop as it runs, for at most fuel turns. None: it has not ended by then. */
  ghost function Walk(env: Env, s: State, i: nat, now: int, fuel: nat): Option<State>
    requires i < |s.reqs|
    decreases fuel
  {
    if s.reqs[i].pkts == [] then Some(s)
    else if fuel == 0 then None
    else
      var s1 := Visit(env, s, i, now);
      if |s.reqs[i].pkts| == 1 then Some(s1) else Walk(env, s1, i, now, fuel - 1)
  }

  lemma {:induction false} WalkReachesDrain(env: Env, s: State, i: nat, now: int, fuel: nat)
    requires EnvOK(env) && i < |s.reqs|
    requires Ends(env, s.table, s.reqs[i].ip4, s.reqs[i].pkts)
    requires Turns(env, s.table, s.reqs[i].ip4, s.reqs[i].pkts) <= fuel
    ensures Walk(env, s, i, now, fuel) == Some(Drain(env, s, i, now))
    decreases fuel
  {
    var q := s.reqs[i];
    if |q.pkts| > 1 {
      VisitQueue(env, s, i, now);
      TurnsDecrease(env, s.table, q.ip4, q.pkts, s.draws);
      WalkReachesDrain(env, Visit(env, s, i, now), i, now, fuel - 1);
    }
  }

  /** Two packets that come back keep each other alive: each turn that removes one appends one. */
  lemma {:induction false} WalkNeverEnds(env: Env, s: State, i: nat, now: int, fuel: nat)
    requires EnvOK(env) && i < |s.reqs|
    requires !Ends(env, s.table, s.reqs[i].ip4, s.reqs[i].pkts)
    ensures Walk(env, s, i, now, fuel) == None
    decreases fuel
  {
    if fuel > 0 {
      var a, q := s.reqs[i].ip4, s.reqs[i].pkts;
      var q' := NextQueue(env, s.table, a, q, s.draws);
      VisitQueue(env, s, i, now);
      if env.src(q[0]) == a {
        var e := env.report(q[0], env.route(a).value, s.draws);
        assert env.src(e) == a;
        assert q' == q[1..] + [e];
        FromSelfSplit(env, a, q[1..], [e]);
        assert FromSelf(env, a, [e]) == 1;
      } else {
        assert q' == q[1..];
      }
      WalkNeverEnds(env, Visit(env, s, i, now), i, now, fuel - 1);
    }
  }

  /** The walk ends if and only if it is not the case that the address is unresolved, is one of the router's
      own, and two queued packets carry it as their source. */
  lemma {:induction false} WalkEndsExactly(env: Env, s: State, i: nat, now: int)
    requires EnvOK(env) && i < |s.reqs|
    ensures (exists fuel: nat :: Walk(env, s, i, now, fuel).Some?)
            <==> !(Lookup(s.table, s.reqs[i].ip4).None? && Own(env, s.reqs[i].ip4)
                   && FromSelf(env, s.reqs[i].ip4, s.reqs[i].pkts) >= 2)
  {
    if Ends(env, s.table, s.reqs[i].ip4, s.reqs[i].pkts) {
      var fuel := Turns(env, s.table, s.reqs[i].ip4, s.reqs[i].pkts);
      WalkReachesDrain(env, s, i, now, fuel);
      assert Walk(env, s, i, now, fuel).Some?;
    } else {
      forall fuel: nat ensures Walk(env, s, i, now, fuel).None? {
        WalkNeverEnds(env, s, i, now, fuel);
      }
    }
  }

  /** The queue is empty when the walk has ended. Every packet queued when the walk begins is reported by it
      in any case (Conservation.DrainConserves); what can stay behind is a report that came back. */
  ghost predicate LeavesNothing(env: Env, table: seq<Entry>, a: u32, q: seq<Packet>) {
    && Returns(env, table, a) && q != [] ==>
      || FromSelf(env, a, q) == 0
      || (!Own(env, a) && !(FromSelf(env, a, q) == 1 && env.src(q[|q| - 1]) == a))
  }

  lemma LeavesNothingStep(env: Env, table: seq<Entry>, a: u32, q: seq<Packet>, n: nat)
    requires EnvOK(env) && |q| > 1 && Ends(env, table, a, q)
    ensures LeavesNothing(env, table, a, NextQueue(env, table, a, q, n)) <==> LeavesNothing(env, table, a, q)
  {
    var q' := NextQueue(env, table, a, q, n);
    if Returns(env, table, a) {
      assert q == [q[0]] + q[1..];
      if env.src(q[0]) == a {
        var e := env.report(q[0], env.route(a).value, n);
        assert q' == q[1..] + [e];
        FromSelfSplit(env, a, q[1..], [e]);
        assert FromSelf(env, a, [e]) == if Own(env, a) then 1 else 0;
        assert q'[|q'| - 1] == e;
        LastFromSelf(env, a, q[1..]);
      } else {
        assert q' == q[1..];
        assert q'[|q'| - 1] == q[|q| - 1];
      }
    }
  }

  lemma LastFromSelf(env: Env, a: u32, q: seq<Packet>)
    requires q != []
    ensures env.src(q[|q| - 1]) == a ==> FromSelf(env, a, q) >= 1
  {
    FromSelfSplit(env, a, q[..|q| - 1], [q[|q| - 1]]);
    assert q == q[..|q| - 1] + [q[|q| - 1]];
  }

  /** The queue that is unlinked with its request after the walk is empty if and only if reports for the
      address do not come back (it is resolved or has no route), or no packet of it carries the address as its
      source, or the address is not the router's own and such a packet is not only the last one. At most one
      packet is lost, and it is a report, sent from the address of the interface towards the address. */
  lemma {:induction false} LossExactly(env: Env, s: State, i: nat, now: int)
    requires EnvOK(env) && i < |s.reqs|
    requires Ends(env, s.table, s.reqs[i].ip4, s.reqs[i].pkts)
    ensures Drain(env, s, i, now).reqs[i].pkts == []
            <==> LeavesNothing(env, s.table, s.reqs[i].ip4, s.reqs[i].pkts)
    ensures var left := Drain(env, s, i, now).reqs[i].pkts;
            |left| <= 1
            && (left != [] ==> env.route(s.reqs[i].ip4).Some? && env.src(left[0]) == env.route(s.reqs[i].ip4).value.ip)
    decreases Turns(env, s.table, s.reqs[i].ip4, s.reqs[i].pkts)
  {
    var a, q := s.reqs[i].ip4, s.reqs[i].pkts;
    if q != [] {
      VisitQueue(env, s, i, now);
      if |q| > 1 {
        TurnsDecrease(env, s.table, a, q, s.draws);
        LeavesNothingStep(env, s.table, a, q, s.draws);
        LossExactly(env, Visit(env, s, i, now), i, now);
      } else {
        assert FromSelf(env, a, q) == if env.src(q[0]) == a then 1 else 0;
      }
    }
  }
}
