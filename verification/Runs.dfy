/** Whole runs of the resolver: any sequence of submissions, learned mappings and sweep rounds, each atomic
    and with one clock reading. */
module Runs {
  import opened Types
  import opened ArpTable
  import opened Resolver
  import opened SweepPass
  import opened Invariant
  import opened Conservation

  /** Send: the forwarding path or an ICMP reply submits a frame, having drawn some random ids to build it.
      Receive: an ARP packet teaches a mapping. Tick: one round of the sweep. */
  datatype Op =
    | Send(iface: Iface, hop: u32, pkt: Packet, drawn: nat, now: int)
    | Receive(ip: u32, mac: Mac, now: int)
    | Tick(now: int)

  /** None: the operation does not come back. */
  ghost function Step(env: Env, s: State, op: Op): (r: Option<State>)
    requires EnvOK(env) && |s.table| == MAX_ARP_SIZE
    ensures r.Some? ==> |r.value.table| == MAX_ARP_SIZE
    ensures r.None? ==> op.Tick?
  {
    match op
    case Send(iface, hop, pkt, drawn, now) =>
      Some(SubmitFrame(s.(draws := s.draws + drawn), iface, hop, pkt, now))
    case Receive(ip, mac, now) => Some(Learn(s, ip, mac, now))
    case Tick(now) => Sweep(env, s, now)
  }

  ghost function RunFrom(env: Env, s: State, ops: seq<Op>): (r: Option<State>)
    requires EnvOK(env) && |s.table| == MAX_ARP_SIZE
    ensures r.Some? ==> |r.value.table| == MAX_ARP_SIZE
    decreases |ops|
  {
    if ops == [] then Some(s)
    else
      match Step(env, s, ops[0])
      case None => None
      case Some(s1) => RunFrom(env, s1, ops[1..])
  }

  ghost predicate Reaches(env: Env, ops: seq<Op>, s: State) {
    EnvOK(env) && RunFrom(env, INIT, ops) == Some(s)
  }

  lemma {:induction false} RunConcat(env: Env, s: State, a: seq<Op>, b: seq<Op>)
    requires EnvOK(env) && |s.table| == MAX_ARP_SIZE
    ensures RunFrom(env, s, a + b)
            == match RunFrom(env, s, a) case None => None case Some(s1) => RunFrom(env, s1, b)
    decreases |a|
  {
    hide EnvOK, Step;
    if a == [] {
      assert a + b == b;
    } else {
      assert (a + b)[0] == a[0] && (a + b)[1..] == a[1..] + b;
      if Step(env, s, a[0]).Some? {
        StepTableSize(env, s, a[0]);
        RunConcat(env, Step(env, s, a[0]).value, a[1..], b);
      }
    }
  }

  lemma StepTableSize(env: Env, s: State, op: Op)
    requires EnvOK(env) && |s.table| == MAX_ARP_SIZE
    ensures Step(env, s, op).Some? ==> |Step(env, s, op).value.table| == MAX_ARP_SIZE
  {
  }

  lemma RunOne(env: Env, s: State, op: Op)
    requires EnvOK(env) && |s.table| == MAX_ARP_SIZE
    ensures RunFrom(env, s, [op]) == Step(env, s, op)
  {
    hide Step, EnvOK;
    assert [op][1..] == [];
    StepTableSize(env, s, op);
  }

  // ---------------------------------------------------------------------------------------------
  // Invariant and conservation

  lemma StepKeeps(env: Env, s: State, op: Op)
    requires EnvOK(env) && Inv(s) && Step(env, s, op).Some?
    ensures Inv(Step(env, s, op).value)
  {
    match op
    case Send(iface, hop, pkt, drawn, now) =>
      SubmitKeeps(s.(draws := s.draws + drawn), iface, hop, pkt, now, -1);
    case Receive(ip, mac, now) => LearnKeeps(s, ip, mac, now);
    case Tick(now) => SweepKeeps(env, s, now);
  }

  lemma StepConserves(env: Env, s: State, op: Op, h: u32)
    requires EnvOK(env) && Inv(s) && Law(s, h) && Step(env, s, op).Some?
    ensures Law(Step(env, s, op).value, h)
  {
    match op
    case Send(iface, hop, pkt, drawn, now) =>
      var s0 := s.(draws := s.draws + drawn);
      SubmitMoves(s0, iface, hop, pkt, now, h);
      LawMoved(s0, SubmitFrame(s0, iface, hop, pkt, now), h, if h == hop then [pkt] else []);
    case Receive(ip, mac, now) => LearnConserves(s, ip, mac, now, h);
    case Tick(now) =>
      AgeOutKeeps(s, now);
      SweepFromConserves(env, s.(table := AgeOut(s.table, now)), 0, now, h);
  }

  lemma {:induction false} RunKeeps(env: Env, s: State, ops: seq<Op>, h: u32)
    requires EnvOK(env) && Inv(s) && Law(s, h) && RunFrom(env, s, ops).Some?
    ensures Inv(RunFrom(env, s, ops).value) && Law(RunFrom(env, s, ops).value, h)
    decreases |ops|
  {
    if ops != [] {
      StepKeeps(env, s, ops[0]);
      StepConserves(env, s, ops[0], h);
      RunKeeps(env, Step(env, s, ops[0]).value, ops[1..], h);
    }
  }

  lemma InitHolds(h: u32)
    ensures Inv(INIT) && Law(INIT, h)
  {
    assert !Waits(INIT.reqs, h);
  }

  /** In every reachable state no address is both resolvable and pending, no address has two requests, every
      request has something queued and at most five retries. */
  lemma {:induction false} ReachableInvariant(env: Env, ops: seq<Op>, s: State)
    requires Reaches(env, ops, s)
    ensures forall k :: 0 <= k < |s.reqs| ==> Lookup(s.table, s.reqs[k].ip4) == None
    ensures forall j, k :: 0 <= j < k < |s.reqs| ==> s.reqs[j].ip4 != s.reqs[k].ip4
    ensures forall k :: 0 <= k < |s.reqs| ==> s.reqs[k].pkts != [] && 0 <= s.reqs[k].retries <= 5
  {
    InitHolds(0);
    RunKeeps(env, INIT, ops, 0);
    assert forall k :: 0 <= k < |s.reqs| ==> Waiting(s.reqs[k]);
  }

  /** Per next hop, over every run: the frames submitted, in order, are the frames settled, in order,
      followed by the frames that wait. */
  lemma {:induction false} AllAccountedInOrder(env: Env, ops: seq<Op>, s: State, h: u32)
    requires Reaches(env, ops, s)
    ensures Project(Handed, h, s.log) == Project(Settled, h, s.log) + Queue(s.reqs, h)
    ensures forall k :: 0 <= k < |s.reqs| && s.reqs[k].ip4 == h ==> Queue(s.reqs, h) == s.reqs[k].pkts
  {
    InitHolds(h);
    RunKeeps(env, INIT, ops, h);
    forall k | 0 <= k < |s.reqs| && s.reqs[k].ip4 == h ensures Queue(s.reqs, h) == s.reqs[k].pkts {
      QueueAt(s.reqs, k);
    }
  }

  lemma StepLog(env: Env, s: State, op: Op)
    requires EnvOK(env) && |s.table| == MAX_ARP_SIZE && Step(env, s, op).Some?
    ensures s.log <= Step(env, s, op).value.log
  {
  }

  lemma {:induction false} RunLog(env: Env, s: State, ops: seq<Op>)
    requires EnvOK(env) && |s.table| == MAX_ARP_SIZE && RunFrom(env, s, ops).Some?
    ensures s.log <= RunFrom(env, s, ops).value.log
    decreases |ops|
  {
    if ops != [] {
      StepLog(env, s, ops[0]);
      RunLog(env, Step(env, s, ops[0]).value, ops[1..]);
    }
  }

  // ---------------------------------------------------------------------------------------------
  // The table along a run

  function TableEffect(op: Op): seq<TableOp> {
    match op
    case Send(_, _, _, _, _) => []
    case Receive(ip, mac, now) => [Learned(ip, mac, now)]
    case Tick(now) => [Swept(now)]
  }

  /** What a run does to the table. */
  function TableOps(ops: seq<Op>): seq<TableOp> {
    if ops == [] then [] else TableEffect(ops[0]) + TableOps(ops[1..])
  }

  lemma StepTable(env: Env, s: State, op: Op, h: seq<TableOp>)
    requires EnvOK(env) && s.table == Table(h) && Step(env, s, op).Some?
    ensures Step(env, s, op).value.table == Table(h + TableEffect(op))
  {
    if op.Send? {
      assert h + [] == h;
    } else {
      assert (h + TableEffect(op))[..|h|] == h;
    }
  }

  lemma {:induction false} RunTable(env: Env, s: State, ops: seq<Op>, h: seq<TableOp>)
    requires EnvOK(env) && s.table == Table(h) && RunFrom(env, s, ops).Some?
    ensures RunFrom(env, s, ops).value.table == Table(h + TableOps(ops))
    decreases |ops|
  {
    if ops == [] {
      assert h + [] == h;
    } else {
      StepTable(env, s, ops[0], h);
      RunTable(env, Step(env, s, ops[0]).value, ops[1..], h + TableEffect(ops[0]));
      Regroup(h, TableEffect(ops[0]), TableOps(ops[1..]));
    }
  }

  /** The resolver answers for an address exactly when, in the run so far, it was learned, fewer than 32
      absent addresses were learned since it was placed, and no sweep found its newest mapping too old; and
      the answer is the hardware address of the newest mapping. */
  lemma {:induction false} RunLookup(env: Env, ops: seq<Op>, s: State, ip: u32)
    requires Reaches(env, ops, s)
    ensures Lookup(s.table, ip)
            == (var r := RecordOf(TableOps(ops), ip); if Resident(r) && r.value.live then Some(r.value.mac) else None)
    ensures Lookup(s.table, ip).Some? ==>
              && Newest(TableOps(ops), ip).Some? && Newest(TableOps(ops), ip).value.Learned?
              && Lookup(s.table, ip) == Some(Newest(TableOps(ops), ip).value.mac)
  {
    RunTable(env, INIT, ops, []);
    assert [] + TableOps(ops) == TableOps(ops);
    LookupLaw(TableOps(ops), ip);
    if Lookup(s.table, ip).Some? {
      HitReturnsNewest(TableOps(ops), ip);
    }
  }

  // ---------------------------------------------------------------------------------------------
  // Staleness

  /** The clock never runs back, and a sweep round is never more than d seconds away. */
  predicate Timely(h: seq<TableOp>, d: int, clock: int, sweep: int) {
    h != [] ==>
      && clock <= h[0].now <= sweep + d
      && Timely(h[1..], d, h[0].now, if h[0].Swept? then h[0].now else sweep)
  }

  function LastSweep(h: seq<TableOp>, sweep: int): int {
    if h == [] then sweep else LastSweep(h[1..], if h[0].Swept? then h[0].now else sweep)
  }

  /** Every valid slot was written no longer than the timeout before the last sweep. */
  ghost predicate Recent(es: seq<Entry>, sweep: int) {
    forall k :: 0 <= k < |es| && es[k].valid ==> sweep - es[k].added <= ARP_ENTRY_TIMEOUT
  }

  lemma {:induction false} TableRecent(before: seq<TableOp>, h: seq<TableOp>, d: int, clock: int, sweep: int)
    requires Timely(h, d, clock, sweep) && sweep <= clock
    requires Recent(Table(before), sweep)
    ensures Recent(Table(before + h), LastSweep(h, sweep))
    decreases |h|
  {
    if h == [] {
      assert before + h == before;
    } else {
      var next := before + [h[0]];
      assert next[..|before|] == before;
      assert next + h[1..] == before + h;
      var sweep' := if h[0].Swept? then h[0].now else sweep;
      assert Recent(Table(next), sweep');
      TableRecent(next, h[1..], d, h[0].now, sweep');
    }
  }

  /** A hit at time t is backed by a mapping learned no earlier than t - (15 + d), although lookup never
      looks at an age. */
  lemma {:induction false} HitIsFresh(env: Env, ops: seq<Op>, s: State, ip: u32, start: int, d: int, t: int)
    requires Reaches(env, ops, s) && Timely(TableOps(ops), d, start, start)
    requires t <= LastSweep(TableOps(ops), start) + d
    requires Lookup(s.table, ip).Some?
    ensures Newest(TableOps(ops), ip).Some? && Newest(TableOps(ops), ip).value.Learned?
    ensures Newest(TableOps(ops), ip).value.now >= t - (15 + d)
  {
    var h := TableOps(ops);
    RunTable(env, INIT, ops, []);
    assert [] + h == h;
    TableRecent([], h, d, start, start);
    RecentHit(h, ip, LastSweep(h, start));
  }

  /** Where no valid slot is older than the timeout, no hit rests on an older mapping. */
  lemma RecentHit(h: seq<TableOp>, ip: u32, sweep: int)
    requires Recent(Table(h), sweep) && Lookup(Table(h), ip).Some?
    ensures Newest(h, ip).Some? && Newest(h, ip).value.Learned? && sweep - Newest(h, ip).value.now <= 15
  {
    hide RecordOf, Newest, Table;
    HitReturnsNewest(h, ip);
    RecordIsNewest(h, ip);
    SlotLaw(h);
    var k :| 0 <= k < MAX_ARP_SIZE && Matches(Table(h)[k], ip);
    assert SlotAgrees(Table(h)[k], k, h);
  }
}
