/** A request that waits alone while nobody answers: the one-second rounds of the sweep, worked through. */
module LoneRequests {
  import opened Types
  import opened ArpTable
  import opened Resolver
  import opened DrainWalk
  import opened SweepPass
  import opened Runs

  /** n rounds, one a second. */
  function Ticks(first: int, n: nat): (ops: seq<Op>)
    ensures |ops| == n && forall k :: 0 <= k < n ==> ops[k] == Tick(first + k)
  {
    seq(n, k requires 0 <= k < n => Tick(first + k))
  }

  lemma TicksTail(first: int, n: nat)
    requires n > 0
    ensures Ticks(first, n) == [Tick(first)] + Ticks(first + 1, n - 1)
    ensures Ticks(first, n)[1..] == Ticks(first + 1, n - 1)
  {
  }

  ghost predicate Silent(table: seq<Entry>) {
    |table| == MAX_ARP_SIZE && forall a: u32 :: Lookup(table, a).None?
  }

  ghost predicate Lone(s: State, q: Pending) {
    s.reqs == [q] && Silent(s.table)
  }

  lemma SilentAgeOut(table: seq<Entry>, now: int)
    requires Silent(table)
    ensures Silent(AgeOut(table, now))
  {
    forall a: u32 ensures Lookup(AgeOut(table, now), a).None? {
      LookupAfterAgeOut(table, now, a);
    }
  }

  lemma FirstQueued(env: Env, first: Op) returns (s1: State)
    requires EnvOK(env) && first.Send?
    ensures RunFrom(env, INIT, [first]) == Some(s1)
    ensures Lone(s1, Pending(first.hop, first.iface, first.now, 0, [first.pkt]))
  {
    s1 := Step(env, INIT, first).value;
    assert !Waits(INIT.reqs, first.hop);
    RunOne(env, INIT, first);
  }

  lemma SecondQueued(env: Env, s1: State, q: Pending, second: Op) returns (s2: State)
    requires EnvOK(env) && second.Send? && second.hop == q.ip4 && Lone(s1, q)
    ensures RunFrom(env, s1, [second]) == Some(s2) && Lone(s2, q.(pkts := q.pkts + [second.pkt]))
  {
    s2 := Step(env, s1, second).value;
    assert Waits(s1.reqs, second.hop) by {
      assert s1.reqs[0].ip4 == second.hop;
    }
    assert s2.reqs[0] == Push(s1.reqs[0], second.hop, second.pkt);
    RunOne(env, s1, second);
  }

  lemma BothQueued(env: Env, first: Op, second: Op) returns (s2: State)
    requires EnvOK(env) && first.Send? && second.Send? && first.hop == second.hop
    ensures RunFrom(env, INIT, [first, second]) == Some(s2)
    ensures Lone(s2, Pending(first.hop, first.iface, first.now, 0, [first.pkt, second.pkt]))
  {
    hide RunFrom, EnvOK;
    var s1 := FirstQueued(env, first);
    s2 := SecondQueued(env, s1, s1.reqs[0], second);
    assert [first.pkt] + [second.pkt] == [first.pkt, second.pkt];
    assert [first] + [second] == [first, second];
    RunConcat(env, INIT, [first], [second]);
  }

  lemma LoneRetried(env: Env, s: State, q: Pending, now: int)
    requires EnvOK(env) && Lone(s, q) && q.retries < ARP_REQUEST_MAX_RETRIES && q.sent < now
    ensures Sweep(env, s, now).Some? && Lone(Sweep(env, s, now).value, q.(retries := q.retries + 1))
  {
    SilentAgeOut(s.table, now);
  }

  lemma {:induction false} LoneWaits(env: Env, s: State, q: Pending, first: int, n: nat) returns (r: State)
    requires EnvOK(env) && Lone(s, q) && q.retries + n <= ARP_REQUEST_MAX_RETRIES && q.sent < first
    ensures RunFrom(env, s, Ticks(first, n)) == Some(r) && Lone(r, q.(retries := q.retries + n))
    decreases n
  {
    assert |s.table| == MAX_ARP_SIZE;
    hide EnvOK, Sweep, Lone;
    r := s;
    if n > 0 {
      TicksTail(first, n);
      LoneRetried(env, s, q, first);
      StepTableSize(env, s, Tick(first));
      r := LoneWaits(env, Sweep(env, s, first).value, q.(retries := q.retries + 1), first + 1, n - 1);
    }
  }

  /** Five rounds retry it; the sixth is a round on this state. */
  lemma {:induction false} SixthRound(env: Env, s: State, q: Pending, first: int) returns (r: State)
    requires EnvOK(env) && Lone(s, q) && q.retries == 0 && q.sent < first
    ensures Lone(r, q.(retries := 5)) && RunFrom(env, s, Ticks(first, 6)) == Sweep(env, r, first + 5)
  {
    hide EnvOK, Sweep, RunFrom;
    r := LoneWaits(env, s, q, first, 5);
    assert Ticks(first, 6) == Ticks(first, 5) + [Tick(first + 5)];
    RunConcat(env, s, Ticks(first, 5), [Tick(first + 5)]);
    RunOne(env, r, Tick(first + 5));
  }

  /** One packet: it is given up first of all. If it came from the address it waits for, and that has a route,
      the report for it is lost. */
  lemma OneGivenUp(env: Env, s: State, q: Pending, now: int)
    requires EnvOK(env) && Lone(s, q) && |q.pkts| == 1 && q.retries >= ARP_REQUEST_MAX_RETRIES
    ensures Sweep(env, s, now).Some?
    ensures var log := Sweep(env, s, now).value.log;
            && |s.log| < |log| && log[|s.log|] == GiveUp(q.ip4, q.pkts[0])
            && (env.src(q.pkts[0]) == q.ip4 && env.route(q.ip4).Some? ==> exists k :: 0 <= k < |log| && log[k].Lost?)
  {
    var aged := s.(table := AgeOut(s.table, now));
    SilentAgeOut(s.table, now);
    assert q.pkts == [q.pkts[0]] && q.pkts[1..] == [];
    LossExactly(env, aged, 0, now);
    var d := Drain(env, aged, 0, now);
    OneDrained(env, aged, q, now);
    if d.reqs[0].pkts != [] {
      assert Unlink(d, 0).log[|d.log|] == Lost(d.reqs[0].ip4, d.reqs[0].pkts[0]);
    }
  }

  lemma OneDrained(env: Env, s: State, q: Pending, now: int)
    requires EnvOK(env) && s.reqs == [q] && |q.pkts| == 1 && Ends(env, s.table, q.ip4, q.pkts)
    ensures |s.log| < |Drain(env, s, 0, now).log| && Drain(env, s, 0, now).log[|s.log|] == GiveUp(q.ip4, q.pkts[0])
  {
  }

  /** Two packets from an address m other than the one they wait for: their reports then wait for m, sent from
      the interface towards m. */
  lemma TwoGivenUp(env: Env, s: State, q: Pending, m: u32, now: int) returns (r: State)
    requires EnvOK(env) && Lone(s, q) && |q.pkts| == 2 && q.retries >= ARP_REQUEST_MAX_RETRIES
    requires env.src(q.pkts[0]) == m && env.src(q.pkts[1]) == m && q.ip4 != m && env.route(m).Some?
    ensures Sweep(env, s, now) == Some(r) && |r.reqs| == 1 && |r.reqs[0].pkts| == 2
    ensures Lone(r, Pending(m, env.route(m).value, now, 0, r.reqs[0].pkts))
    ensures forall k :: 0 <= k < 2 ==> env.src(r.reqs[0].pkts[k]) == env.route(m).value.ip
  {
    var aged, iface := s.(table := AgeOut(s.table, now)), env.route(m).value;
    SilentAgeOut(s.table, now);
    assert q.pkts[1..] == [q.pkts[1]];
    var s1, e1 := FirstReported(env, aged, q, m, now);
    var s2, e2 := SecondReported(env, s1, q.(pkts := [q.pkts[1]]), Pending(m, iface, now, 0, [e1]), now);
    r := Unlink(s2, 0);
    assert Drain(env, aged, 0, now) == s2;
  }

  lemma FirstReported(env: Env, s: State, q: Pending, m: u32, now: int) returns (r: State, e: Packet)
    requires EnvOK(env) && Lone(s, q) && q.pkts != [] && env.src(q.pkts[0]) == m != q.ip4 && env.route(m).Some?
    ensures r == Visit(env, s, 0, now) && r.table == s.table && env.src(e) == env.route(m).value.ip
    ensures r.reqs == [q.(pkts := q.pkts[1..]), Pending(m, env.route(m).value, now, 0, [e])]
  {
    e := env.report(q.pkts[0], env.route(m).value, s.draws);
    r := Visit(env, s, 0, now);
    assert !Waits(s.reqs, m);
  }

  lemma SecondReported(env: Env, s: State, q: Pending, b: Pending, now: int) returns (r: State, e: Packet)
    requires EnvOK(env) && s.reqs == [q, b] && Silent(s.table) && |q.pkts| == 1
    requires env.src(q.pkts[0]) == b.ip4 != q.ip4 && env.route(b.ip4).Some?
    ensures r == Visit(env, s, 0, now) && r.table == s.table && env.src(e) == env.route(b.ip4).value.ip
    ensures r.reqs == [q.(pkts := []), b.(pkts := b.pkts + [e])]
  {
    e := env.report(q.pkts[0], env.route(b.ip4).value, s.draws);
    r := Visit(env, s, 0, now);
    assert s.reqs[1].ip4 == b.ip4;
    assert Waits(s.reqs, b.ip4);
  }
}
