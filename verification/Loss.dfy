/** The documented promise that whoever sent a packet that is given up is told. It fails in two ways: a packet can
    be unlinked while it is queued, and nothing is sent for a packet whose source has no route. */
module Loss {
  import opened Types
  import opened Resolver
  import opened SweepPass
  import opened Runs
  import opened Sources
  import opened LoneRequests

  /** No packet was unlinked without icmp_send_packet having been called for it. */
  predicate LosesNothing(log: seq<Event>) {
    forall k :: 0 <= k < |log| ==> !log[k].Lost?
  }

  /** Nor was it called for a packet whose source has no route, for which it sends nothing: every packet that
      left the queues unsent has had its report submitted (Reporting.RunInforms). */
  ghost predicate Told(env: Env, log: seq<Event>) {
    LosesNothing(log) && forall k :: 0 <= k < |log| && log[k].GiveUp? ==> env.route(env.src(log[k].pkt)).Some?
  }

  /** The frame is not submitted for the very address it comes from, or that address has no route. */
  predicate CleanFor(env: Env, hop: u32, pkt: Packet) {
    env.route(hop).Some? ==> env.src(pkt) != hop
  }

  ghost predicate NoneOwn(env: Env) {
    forall a: u32 :: !Own(env, a)
  }

  /** A run whose submissions are clean, of a router that never sends to an address from that same address,
      comes back and loses nothing. */
  lemma {:induction false} CleanRunLosesNothing(env: Env, ops: seq<Op>)
    requires EnvOK(env) && NoneOwn(env)
    requires forall k :: 0 <= k < |ops| && ops[k].Send? ==> CleanFor(env, ops[k].hop, ops[k].pkt)
    ensures RunFrom(env, INIT, ops).Some? && LosesNothing(RunFrom(env, INIT, ops).value.log)
  {
    var good := (h: u32, x: u32) => env.route(h).Some? ==> x != h;
    forall h: u32, x: u32 ensures Inherits(env, good, h, x) {
      assert !Own(env, x);
    }
    RunGood(env, good, INIT, ops);
    var log := RunFrom(env, INIT, ops).value.log;
    assert forall k :: 0 <= k < |log| ==> EventGood(env, good, log[k]);
  }

  /** If, moreover, every submitted frame comes from an address with a route, and the interface towards any
      address has an address with a route, then everyone is told. */
  lemma {:induction false} RoutedRunTellsAll(env: Env, ops: seq<Op>)
    requires EnvOK(env) && NoneOwn(env)
    requires forall a: u32 :: env.route(a).Some? ==> env.route(env.route(a).value.ip).Some?
    requires forall k :: 0 <= k < |ops| && ops[k].Send? ==>
               CleanFor(env, ops[k].hop, ops[k].pkt) && env.route(env.src(ops[k].pkt)).Some?
    ensures RunFrom(env, INIT, ops).Some? && Told(env, RunFrom(env, INIT, ops).value.log)
  {
    var good := (h: u32, x: u32) => (env.route(h).Some? ==> x != h) && env.route(x).Some?;
    forall h: u32, x: u32 ensures Inherits(env, good, h, x) {
      assert !Own(env, x);
    }
    RunGood(env, good, INIT, ops);
    var log := RunFrom(env, INIT, ops).value.log;
    assert forall k :: 0 <= k < |log| ==> EventGood(env, good, log[k]);
  }

  // ---------------------------------------------------------------------------------------------
  // One packet is enough

  lemma OneRunsOut(env: Env, op: Op) returns (s: State)
    requires EnvOK(env) && op.Send? && op.now == 0
    ensures Lone(s, Pending(op.hop, op.iface, 0, 5, [op.pkt]))
    ensures RunFrom(env, INIT, [op] + Ticks(1, 6)) == Sweep(env, s, 6)
  {
    hide EnvOK, RunFrom, Sweep;
    var s1 := FirstQueued(env, op);
    RunConcat(env, INIT, [op], Ticks(1, 6));
    s := SixthRound(env, s1, s1.reqs[0], 1);
  }

  /** One frame submitted for the address it comes from, if that address has a route: its report comes back
      into its own queue, and the sixth round drops it with the request. */
  lemma {:induction false} OneIsLost(env: Env, op: Op)
    requires EnvOK(env) && op.Send? && op.now == 0 && !CleanFor(env, op.hop, op.pkt)
    ensures RunFrom(env, INIT, [op] + Ticks(1, 6)).Some?
    ensures !LosesNothing(RunFrom(env, INIT, [op] + Ticks(1, 6)).value.log)
  {
    hide EnvOK, RunFrom, Sweep;
    var s := OneRunsOut(env, op);
    OneGivenUp(env, s, s.reqs[0], 6);
  }

  /** One frame from an address without a route, if nobody answers for its next hop: the sixth round gives it up
      and tells nobody. */
  lemma {:induction false} OneIsSilent(env: Env, op: Op)
    requires EnvOK(env) && op.Send? && op.now == 0 && env.route(env.src(op.pkt)).None?
    ensures RunFrom(env, INIT, [op] + Ticks(1, 6)).Some?
    ensures !Told(env, RunFrom(env, INIT, [op] + Ticks(1, 6)).value.log)
  {
    hide EnvOK, RunFrom, Sweep;
    var s := OneRunsOut(env, op);
    OneGivenUp(env, s, s.reqs[0], 6);
  }
}
