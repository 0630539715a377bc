/** How long a request can wait. */
module BoundedWait {
  import opened Types
  import opened ArpTable
  import opened Resolver
  import opened Invariant
  import opened Conservation
  import opened Progress
  import opened Runs
  import opened Opening

  predicate NoReply(ops: seq<Op>, a: u32) {
    ops != [] ==> !(ops[0].Receive? && ops[0].ip == a) && NoReply(ops[1..], a)
  }

  /** The clock never runs back. */
  predicate Clocked(ops: seq<Op>, clock: int) {
    ops != [] ==> clock <= ops[0].now && Clocked(ops[1..], ops[0].now)
  }

  /** Sweep rounds at least one second after the request was first sent. */
  function Effective(ops: seq<Op>, sent: int): nat {
    if ops == [] then 0
    else (if ops[0].Tick? && ops[0].now - sent >= 1 then 1 else 0) + Effective(ops[1..], sent)
  }

  function Rounds(ops: seq<Op>): nat {
    if ops == [] then 0 else (if ops[0].Tick? then 1 else 0) + Rounds(ops[1..])
  }

  /** Each sweep round reads a later clock than the one before. */
  predicate Ticking(ops: seq<Op>, last: Option<int>) {
    ops != [] ==>
      && (ops[0].Tick? && last.Some? ==> last.value < ops[0].now)
      && Ticking(ops[1..], if ops[0].Tick? then Some(ops[0].now) else last)
  }

  /** Only the first round can fall into the second in which the request was opened. */
  lemma {:induction false} RoundsAreEffective(ops: seq<Op>, sent: int, last: Option<int>)
    requires Clocked(ops, sent) && Ticking(ops, last)
    requires last.Some? ==> sent <= last.value
    ensures last.Some? ==> Effective(ops, sent) == Rounds(ops)
    ensures Rounds(ops) <= Effective(ops, sent) + 1
  {
    if ops != [] {
      ClockedLater(ops[1..], ops[0].now, sent);
      RoundsAreEffective(ops[1..], sent, if ops[0].Tick? then Some(ops[0].now) else last);
    }
  }

  lemma ClockedLater(ops: seq<Op>, clock: int, earlier: int)
    requires Clocked(ops, clock) && earlier <= clock
    ensures Clocked(ops, earlier)
  {
  }

  // ---------------------------------------------------------------------------------------------
  // One request through a run

  lemma SendLeaves(env: Env, s: State, op: Op, t: nat)
    requires EnvOK(env) && Inv(s) && t < |s.reqs| && Law(s, s.reqs[t].ip4) && op.Send?
    ensures Waited(s, s.reqs[t], Step(env, s, op).value, t, 0)
  {
    var h, s0 := s.reqs[t].ip4, s.(draws := s.draws + op.drawn);
    SubmitAsks(s0, op.iface, op.hop, op.pkt, op.now, h);
    SubmitMoves(s0, op.iface, op.hop, op.pkt, op.now, h);
    assert Waits(s.reqs, h);
  }

  lemma WithoutKeepsPlace(reqs: seq<Pending>, ip: u32, q: Pending) returns (t: nat)
    requires Distinct(reqs) && q in reqs && q.ip4 != ip
    ensures t < |Without(reqs, ip)| && Without(reqs, ip)[t] == q
  {
    WithoutFacts(reqs, ip);
    assert q in Without(reqs, ip);
    t :| 0 <= t < |Without(reqs, ip)| && Without(reqs, ip)[t] == q;
  }

  lemma ReceiveLeaves(env: Env, s: State, op: Op, t: nat) returns (t': nat)
    requires EnvOK(env) && Inv(s) && t < |s.reqs| && Law(s, s.reqs[t].ip4)
    requires op.Receive? && op.ip != s.reqs[t].ip4
    ensures Waited(s, s.reqs[t], Step(env, s, op).value, t', 0)
  {
    t' := WithoutKeepsPlace(s.reqs, op.ip, s.reqs[t]);
    FlushedIsSent(s.reqs, op.ip, op.mac);
    AskedSilent(s.log, Flushed(s.reqs, op.ip, op.mac), s.reqs[t].ip4);
    LearnConserves(s, op.ip, op.mac, op.now, s.reqs[t].ip4);
  }

  lemma TickHandles(env: Env, s: State, op: Op, t: nat)
    requires EnvOK(env) && Inv(s) && t < |s.reqs| && Law(s, s.reqs[t].ip4)
    requires op.Tick? && Step(env, s, op).Some?
    ensures Handled(s, s.reqs[t], Step(env, s, op).value, op.now)
  {
    var aged := s.(table := AgeOut(s.table, op.now));
    AgeOutKeeps(s, op.now);
    PassHandles(env, aged, 0, op.now, t, Step(env, s, op).value);
    HandledFrom(aged, s, s.reqs[t], Step(env, s, op).value, op.now);
  }

  lemma HandledFrom(aged: State, s: State, q: Pending, r: State, now: int)
    requires aged.log == s.log && Handled(aged, q, r, now)
    ensures Handled(s, q, r, now)
  {
    if q.retries < ARP_REQUEST_MAX_RETRIES {
      var t: nat :| Waited(aged, q, r, t, Due(q, now));
      assert Waited(s, q, r, t, Due(q, now));
    }
  }

  /** What one step does to a request that gets no reply. */
  ghost predicate Followed(s: State, q: Pending, r: State, op: Op) {
    if op.Tick? then Handled(s, q, r, op.now) else exists t: nat :: Waited(s, q, r, t, 0)
  }

  lemma StepFollows(env: Env, s: State, op: Op, t: nat)
    requires EnvOK(env) && Inv(s) && t < |s.reqs| && Law(s, s.reqs[t].ip4)
    requires !(op.Receive? && op.ip == s.reqs[t].ip4) && Step(env, s, op).Some?
    ensures Followed(s, s.reqs[t], Step(env, s, op).value, op)
  {
    match op
    case Send(_, _, _, _, _) => SendLeaves(env, s, op, t);
    case Receive(_, _, _) => var t' := ReceiveLeaves(env, s, op, t);
    case Tick(_) => TickHandles(env, s, op, t);
  }

  /** The fate of a request without reply: with n rounds behind it that count, it has been asked for n more
      times and still waits; once its tries are used up, its packets have been reported. */
  ghost predicate Fate(s: State, q: Pending, r: State, n: nat) {
    if q.retries + n <= ARP_REQUEST_MAX_RETRIES then exists t: nat :: Waited(s, q, r, t, n)
    else ReportsAtLeast(s, r, q.ip4, q.pkts)
  }

  lemma FateLater(s: State, q: Pending, s1: State, t: nat, n: nat, r: State, m: nat, total: nat)
    requires Waited(s, q, s1, t, n) && Fate(s1, s1.reqs[t], r, m) && total == n + m
    ensures Fate(s, q, r, total)
  {
    var q1 := s1.reqs[t];
    if q1.retries + m <= ARP_REQUEST_MAX_RETRIES {
      var t': nat :| Waited(s1, q1, r, t', m);
      WaitedTwice(s, q, s1, t, n, r, t', m);
    } else {
      assert q1.pkts == q.pkts + q1.pkts[|q.pkts|..];
    }
  }

  /** Either the step reports the whole queue, or the request goes on waiting at some place of the list. */
  lemma StepAdvances(env: Env, s: State, op: Op, t: nat) returns (t': nat)
    requires EnvOK(env) && Inv(s) && t < |s.reqs| && Law(s, s.reqs[t].ip4)
    requires !(op.Receive? && op.ip == s.reqs[t].ip4) && Step(env, s, op).Some?
    ensures Inv(Step(env, s, op).value) && Law(Step(env, s, op).value, s.reqs[t].ip4)
    ensures if op.Tick? && s.reqs[t].retries >= ARP_REQUEST_MAX_RETRIES then
              ReportsAtLeast(s, Step(env, s, op).value, s.reqs[t].ip4, s.reqs[t].pkts)
            else Waited(s, s.reqs[t], Step(env, s, op).value, t', if op.Tick? then Due(s.reqs[t], op.now) else 0)
  {
    var q, s1 := s.reqs[t], Step(env, s, op).value;
    StepFollows(env, s, op, t);
    StepKeeps(env, s, op);
    StepConserves(env, s, op, q.ip4);
    t' := 0;
    if !(op.Tick? && q.retries >= ARP_REQUEST_MAX_RETRIES) {
      t' :| Waited(s, q, s1, t', if op.Tick? then Due(q, op.now) else 0);
    }
  }

  /** The run goes on from a step that reported the whole queue. */
  lemma FateSettled(env: Env, s: State, s1: State, ops: seq<Op>, q: Pending, n: nat)
    requires EnvOK(env) && |s1.table| == MAX_ARP_SIZE && RunFrom(env, s1, ops).Some?
    requires ReportsAtLeast(s, s1, q.ip4, q.pkts) && q.retries + n > ARP_REQUEST_MAX_RETRIES
    ensures Fate(s, q, RunFrom(env, s1, ops).value, n)
  {
    RunLog(env, s1, ops);
    ReportsGrow(s, s1, RunFrom(env, s1, ops).value, q.ip4, q.pkts);
  }

  /** The parts of the induction that are about clocks and counts only. */
  lemma CountsAdvance(ops: seq<Op>, q: Pending, q1: Pending, clock: int)
    requires ops != [] && Clocked(ops, clock) && NoReply(ops, q.ip4)
    requires q.retries > 0 ==> q.sent < clock
    requires q1 == q.(retries := q.retries + if ops[0].Tick? then Due(q, ops[0].now) else 0, pkts := q1.pkts)
    ensures Clocked(ops[1..], ops[0].now) && NoReply(ops[1..], q.ip4)
    ensures q1.retries > 0 ==> q1.sent < ops[0].now
    ensures Effective(ops, q.sent) == (if ops[0].Tick? then Due(q, ops[0].now) else 0) + Effective(ops[1..], q.sent)
  {
  }

  lemma LastRoundCounts(ops: seq<Op>, q: Pending, clock: int)
    requires ops != [] && Clocked(ops, clock) && ops[0].Tick?
    requires q.retries >= ARP_REQUEST_MAX_RETRIES && q.sent < clock
    ensures q.retries + Effective(ops, q.sent) > ARP_REQUEST_MAX_RETRIES
  {
  }

  lemma FateNow(s: State, t: nat)
    requires t < |s.reqs|
    ensures Fate(s, s.reqs[t], s, 0) || s.reqs[t].retries > ARP_REQUEST_MAX_RETRIES
  {
    assert Waited(s, s.reqs[t], s, t, 0);
  }

  lemma {:induction false} RunFate(env: Env, s: State, ops: seq<Op>, t: nat, clock: int, r: State)
    requires EnvOK(env) && Inv(s) && t < |s.reqs| && Law(s, s.reqs[t].ip4)
    requires NoReply(ops, s.reqs[t].ip4) && Clocked(ops, clock)
    requires s.reqs[t].retries > 0 ==> s.reqs[t].sent < clock
    requires RunFrom(env, s, ops) == Some(r)
    ensures Fate(s, s.reqs[t], r, Effective(ops, s.reqs[t].sent))
    decreases |ops|, 1
  {
    if ops == [] {
      FateNow(s, t);
    } else {
      var s1 := Step(env, s, ops[0]).value;
      var t' := StepAdvances(env, s, ops[0], t);
      if ops[0].Tick? && s.reqs[t].retries >= ARP_REQUEST_MAX_RETRIES {
        LastRoundCounts(ops, s.reqs[t], clock);
        FateSettled(env, s, s1, ops[1..], s.reqs[t], Effective(ops, s.reqs[t].sent));
      } else {
        RestFate(env, s, s.reqs[t], s1, ops, t', clock, r);
      }
    }
  }

  lemma {:induction false} RestFate(
      env: Env, s: State, q: Pending, s1: State, ops: seq<Op>, t: nat, clock: int, r: State)
    requires EnvOK(env) && Inv(s1) && Law(s1, q.ip4) && ops != []
    requires NoReply(ops, q.ip4) && Clocked(ops, clock) && (q.retries > 0 ==> q.sent < clock)
    requires Waited(s, q, s1, t, if ops[0].Tick? then Due(q, ops[0].now) else 0)
    requires RunFrom(env, s1, ops[1..]) == Some(r)
    ensures Fate(s, q, r, Effective(ops, q.sent))
    decreases |ops|, 0
  {
    CountsAdvance(ops, q, s1.reqs[t], clock);
    RunFate(env, s1, ops[1..], t, ops[0].now, r);
    FateLater(s, q, s1, t, if ops[0].Tick? then Due(q, ops[0].now) else 0,
              r, Effective(ops[1..], q.sent), Effective(ops, q.sent));
  }

  /** The opening step: a request for h is there after it and was not before. */
  ghost predicate Opens(env: Env, s: State, op: Op, h: u32)
    requires EnvOK(env) && |s.table| == MAX_ARP_SIZE
  {
    !Waits(s.reqs, h) && Step(env, s, op).Some? && Waits(Step(env, s, op).value.reqs, h)
  }

  lemma SendOpensItsHop(env: Env, s: State, op: Op, h: u32)
    requires EnvOK(env) && Inv(s) && op.Send? && Opens(env, s, op, h)
    ensures h == op.hop && Queue(Step(env, s, op).value.reqs, h) == [op.pkt]
  {
    SubmitMoves(s.(draws := s.draws + op.drawn), op.iface, op.hop, op.pkt, op.now, h);
  }

  /** Every wait ends. Let any step open a request for an address that never answers: a submission, or a sweep
      round whose reports go to an address nobody has asked for yet. Everything then queued is reported
      unreachable within seven sweep rounds, six if a round opened the request. Until then the request is
      pending with one retry, and one more ARP request, per round that counts: at most six ARP requests in
      all. The round that opens a request does not count. */
  lemma {:induction false} WaitIsBounded(env: Env, s: State, op: Op, ops: seq<Op>, h: u32)
    requires EnvOK(env) && Inv(s) && Law(s, h) && Opens(env, s, op, h)
    requires NoReply(ops, h) && Clocked(ops, op.now) && Ticking(ops, if op.Tick? then Some(op.now) else None)
    requires RunFrom(env, s, [op] + ops).Some?
    ensures var waiting := Queue(Step(env, s, op).value.reqs, h);
            var r, n := RunFrom(env, s, [op] + ops).value, Effective(ops, op.now);
            && waiting != [] && (op.Send? ==> h == op.hop && waiting == [op.pkt])
            && (Rounds(ops) >= (if op.Tick? then 6 else 7) ==> n >= 6)
            && (n >= 6 ==> Project(Reported, h, s.log) + waiting <= Project(Reported, h, r.log))
            && (n <= 5 ==> && Asked(r.log, h) == Asked(s.log, h) + 1 + n
                           && Project(Reported, h, r.log) == Project(Reported, h, s.log)
                           && exists t, iface :: 0 <= t < |r.reqs| && waiting <= r.reqs[t].pkts
                                && OpeningIface(env, op, h) == Some(iface)
                                && r.reqs[t] == Pending(h, iface, op.now, n, r.reqs[t].pkts))
  {
    hide Law, Asked, Project, Ticking, Clocked, NoReply;
    var s1 := Step(env, s, op).value;
    assert ([op] + ops)[1..] == ops;
    StepKeeps(env, s, op);
    StepConserves(env, s, op, h);
    StepOpens(env, s, op, h);
    if op.Send? {
      SendOpensItsHop(env, s, op, h);
    }
    var t: nat :| OpenedAt(s, s1, h, OpeningIface(env, op, h), op.now, t);
    QueueAt(s1.reqs, t);
    RunFate(env, s1, ops, t, op.now, RunFrom(env, s1, ops).value);
    RoundsAreEffective(ops, op.now, if op.Tick? then Some(op.now) else None);
  }
}
