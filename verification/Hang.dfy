/** The documented promise that every round of the sweep runs to its end, and where the code breaks it. */
module Hang {
  import opened Types
  import opened ArpTable
  import opened Resolver
  import opened SweepPass
  import opened Invariant
  import opened Progress
  import opened Conservation
  import opened Runs
  import opened BoundedWait
  import opened LoneRequests

  /** An exhausted request for one of the router's own addresses, with two packets from that address. */
  ghost predicate Stuck(env: Env, table: seq<Entry>, q: Pending) {
    && Lookup(table, q.ip4).None? && Own(env, q.ip4)
    && FromSelf(env, q.ip4, q.pkts) >= 2
  }

  lemma StuckLonger(env: Env, table: seq<Entry>, q: Pending, q': Pending)
    requires Stuck(env, table, q) && q'.ip4 == q.ip4 && q.pkts <= q'.pkts
    ensures Stuck(env, table, q')
  {
    FromSelfSplit(env, q.ip4, q.pkts, q'.pkts[|q.pkts|..]);
    assert q'.pkts == q.pkts + q'.pkts[|q.pkts|..];
  }

  /** A pass that has such a request ahead of it never comes back, whatever it does on the way there. */
  lemma {:induction false} PassHangs(env: Env, s: State, i: nat, now: int, t: nat)
    requires EnvOK(env) && i <= t < |s.reqs|
    requires Stuck(env, s.table, s.reqs[t]) && s.reqs[t].retries >= ARP_REQUEST_MAX_RETRIES
    ensures SweepFrom(env, s, i, now).None?
    decreases Exhausted(s.reqs[i..]), |s.reqs| - i
  {
    if i < t {
      if s.reqs[i].retries >= ARP_REQUEST_MAX_RETRIES {
        if Ends(env, s.table, s.reqs[i].ip4, s.reqs[i].pkts) {
          var d := Drain(env, s, i, now);
          GiveUpCounts(env, s, i, now);
          assert Unlink(d, i).reqs[t - 1] == d.reqs[t];
          StuckLonger(env, s.table, s.reqs[t], d.reqs[t]);
          PassHangs(env, Unlink(d, i), i, now, t - 1);
        }
      } else {
        ExhaustedTail(s.reqs, Retry(s, i, now).reqs, i);
        PassHangs(env, Retry(s, i, now), i + 1, now, t);
      }
    }
  }

  lemma TickHangs(env: Env, s: State, now: int, t: nat)
    requires EnvOK(env) && |s.table| == MAX_ARP_SIZE && t < |s.reqs|
    requires Stuck(env, s.table, s.reqs[t]) && s.reqs[t].retries >= ARP_REQUEST_MAX_RETRIES
    ensures Sweep(env, s, now).None?
  {
    LookupAfterAgeOut(s.table, now, s.reqs[t].ip4);
    PassHangs(env, s.(table := AgeOut(s.table, now)), 0, now, t);
  }

  /** Once two such packets wait for one of the router's own addresses, the run ends in a sweep round that
      never comes back, unless somebody else answers for the router's address within six rounds. */
  lemma {:induction false} RunHangs(env: Env, s: State, ops: seq<Op>, t: nat, clock: int)
    requires EnvOK(env) && Inv(s) && t < |s.reqs| && Law(s, s.reqs[t].ip4)
    requires NoReply(ops, s.reqs[t].ip4) && Clocked(ops, clock)
    requires s.reqs[t].retries > 0 ==> s.reqs[t].sent < clock
    requires Stuck(env, s.table, s.reqs[t])
    requires s.reqs[t].retries + Effective(ops, s.reqs[t].sent) > ARP_REQUEST_MAX_RETRIES
    ensures RunFrom(env, s, ops).None?
    decreases |ops|, 1
  {
    if ops[0].Tick? && s.reqs[t].retries >= ARP_REQUEST_MAX_RETRIES {
      TickHangs(env, s, ops[0].now, t);
    } else if Step(env, s, ops[0]).Some? {
      var t' := StepAdvances(env, s, ops[0], t);
      RestHangs(env, s, s.reqs[t], Step(env, s, ops[0]).value, ops, t', clock);
    }
  }

  lemma {:induction false} RestHangs(
      env: Env, s: State, q: Pending, s1: State, ops: seq<Op>, t: nat, clock: int)
    requires EnvOK(env) && Inv(s1) && Law(s1, q.ip4) && ops != []
    requires NoReply(ops, q.ip4) && Clocked(ops, clock) && (q.retries > 0 ==> q.sent < clock)
    requires Waited(s, q, s1, t, if ops[0].Tick? then Due(q, ops[0].now) else 0)
    requires Stuck(env, s.table, q) && q.retries + Effective(ops, q.sent) > ARP_REQUEST_MAX_RETRIES
    ensures RunFrom(env, s1, ops[1..]).None?
    decreases |ops|, 0
  {
    CountsAdvance(ops, q, s1.reqs[t], clock);
    assert Lookup(s1.table, s1.reqs[t].ip4).None?;
    StuckLonger(env, s1.table, q, s1.reqs[t]);
    RunHangs(env, s1, ops[1..], t, ops[0].now);
  }

  // ---------------------------------------------------------------------------------------------
  // Which routers can hang

  lemma {:induction false} TicksCount(first: int, n: nat, sent: int, a: u32)
    requires sent < first
    ensures Effective(Ticks(first, n), sent) == n
    ensures Clocked(Ticks(first, n), first) && NoReply(Ticks(first, n), a)
    decreases n
  {
    if n > 0 {
      TicksTail(first, n);
      TicksCount(first + 1, n - 1, sent, a);
      ClockedLater(Ticks(first + 1, n - 1), first + 1, first);
    }
  }

  /** A request of the endless kind, not yet retried: six rounds are the end. */
  lemma StuckHangs(env: Env, s: State, t: nat, first: int)
    requires EnvOK(env) && Inv(s) && t < |s.reqs| && Law(s, s.reqs[t].ip4) && Stuck(env, s.table, s.reqs[t])
    requires s.reqs[t].retries == 0 && s.reqs[t].sent < first
    ensures RunFrom(env, s, Ticks(first, 6)) == None
  {
    TicksCount(first, 6, s.reqs[t].sent, s.reqs[t].ip4);
    RunHangs(env, s, Ticks(first, 6), t, first);
  }

  lemma StuckPair(env: Env, table: seq<Entry>, q: Pending)
    requires Lookup(table, q.ip4).None? && Own(env, q.ip4) && |q.pkts| == 2
    requires env.src(q.pkts[0]) == q.ip4 && env.src(q.pkts[1]) == q.ip4
    ensures Stuck(env, table, q)
  {
    assert q.pkts[1..][0] == q.pkts[1];
  }

  /** Two packets from one of the router's own addresses wait for that address: six rounds are the end. */
  lemma {:induction false} TwoWait(env: Env, first: Op, second: Op)
    requires EnvOK(env) && first.Send? && second.Send? && first.hop == second.hop && first.now == 0
    requires Own(env, first.hop) && env.src(first.pkt) == first.hop && env.src(second.pkt) == first.hop
    ensures RunFrom(env, INIT, [first, second] + Ticks(1, 6)) == None
  {
    hide RunFrom, EnvOK, Own;
    var s2 := BothQueued(env, first, second);
    InitHolds(first.hop);
    RunKeeps(env, INIT, [first, second], first.hop);
    StuckPair(env, s2.table, s2.reqs[0]);
    StuckHangs(env, s2, 0, 1);
    RunConcat(env, INIT, [first, second], Ticks(1, 6));
  }

  /** Two packets from one of the router's own addresses wait for another one, and nobody answers. After six
      rounds their reports, from that address, wait for that address; after six more it is the end. */
  lemma {:induction false} TwoWaitElsewhere(env: Env, first: Op, second: Op, m: u32)
    requires EnvOK(env) && first.Send? && second.Send? && first.hop == second.hop != m && first.now == 0
    requires Own(env, m) && env.src(first.pkt) == m && env.src(second.pkt) == m
    ensures RunFrom(env, INIT, [first, second] + Ticks(1, 12)) == None
  {
    hide RunFrom, EnvOK, Inv, Law, Stuck;
    var start := [first, second];
    var s2 := BothQueued(env, first, second);
    var s7 := SixthRound(env, s2, s2.reqs[0], 1);
    var s8 := TwoGivenUp(env, s7, s7.reqs[0], m, 6);
    RunConcat(env, INIT, start, Ticks(1, 6));
    InitHolds(m);
    RunKeeps(env, INIT, start + Ticks(1, 6), m);
    StuckPair(env, s8.table, s8.reqs[0]);
    StuckHangs(env, s8, 0, 7);
    RunConcat(env, INIT, start + Ticks(1, 6), Ticks(7, 6));
    assert (start + Ticks(1, 6)) + Ticks(7, 6) == start + Ticks(1, 12);
  }

  lemma {:induction false} RunEnds(env: Env, s: State, ops: seq<Op>)
    requires EnvOK(env) && |s.table| == MAX_ARP_SIZE
    requires forall a: u32 :: !Own(env, a)
    ensures RunFrom(env, s, ops).Some?
    decreases |ops|
  {
    if ops != [] {
      if ops[0].Tick? {
        PassEnds(env, s.(table := AgeOut(s.table, ops[0].now)), 0, ops[0].now);
      }
      RunEnds(env, Step(env, s, ops[0]).value, ops[1..]);
    }
  }

  /** A router whose sweep comes back in every run is exactly one that never sends to an address from that
      same address: one without a route to any of its own addresses through the interface that has it. */
  lemma {:induction false} NeverHangsExactly(env: Env)
    requires EnvOK(env)
    ensures (forall ops: seq<Op> :: RunFrom(env, INIT, ops).Some?) <==> forall a: u32 :: !Own(env, a)
  {
    if a: u32 :| Own(env, a) {
      var iface := env.route(a).value;
      var r := env.report([], iface, 0);
      assert env.src(r) == a;
      var first := Send(iface, a, r, 0, 0);
      TwoWait(env, first, first);
      var ops := [first, first] + Ticks(1, 6);
      assert !RunFrom(env, INIT, ops).Some?;
    } else {
      forall ops: seq<Op> ensures RunFrom(env, INIT, ops).Some? {
        RunEnds(env, INIT, ops);
      }
    }
  }
}
