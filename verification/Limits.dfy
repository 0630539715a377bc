/** Things this router does not always do, and exactly which routers always do them: come back from every round of
    the sweep, keep every packet queued until it is dealt with, and tell the sender of what it gives up. */
module Limits {
  import opened Types
  import opened Packets
  import opened IpHeaders
  import opened Routing
  import opened Forwarding
  import opened Icmp
  import opened Checksums
  import opened ArpTable
  import opened Resolver
  import opened SweepPass
  import opened Runs
  import opened Sources
  import opened LoneRequests
  import opened Hang
  import opened Loss
  import opened RouterEnvs
  import opened Systems

  // ---------------------------------------------------------------------------------------------
  // Rounds after a start

  /** n rounds, one a second. */
  function Timers(first: int, n: nat): (inputs: seq<Input>)
    ensures |inputs| == n && forall k :: 0 <= k < n ==> inputs[k] == Timer(first + k)
  {
    seq(n, k requires 0 <= k < n => Timer(first + k))
  }

  lemma {:induction false} ServeConcat(c: Config, s: State, a: seq<Input>, b: seq<Input>)
    requires |s.table| == MAX_ARP_SIZE && AllWellFormed(a) && AllWellFormed(b)
    ensures AllWellFormed(a + b) && (Serve(c, s, a).Some? ==> |Serve(c, s, a).value.table| == MAX_ARP_SIZE)
    ensures Serve(c, s, a + b) == match Serve(c, s, a) case None => None case Some(s1) => Serve(c, s1, b)
    decreases |a|
  {
    hide Handle, Config.Environment;
    if a == [] {
      assert a + b == b;
    } else {
      assert (a + b)[0] == a[0] && (a + b)[1..] == a[1..] + b;
      HandleIsStep(c, s, a[0]);
      if Handle(c, s, a[0]).Some? {
        ServeConcat(c, Handle(c, s, a[0]).value, a[1..], b);
      }
    }
  }

  lemma {:induction false} TimersAreTicks(c: Config, s: State, inputs: seq<Input>, ops: seq<Op>)
    requires |s.table| == MAX_ARP_SIZE && |inputs| == |ops|
    requires forall k :: 0 <= k < |ops| ==> inputs[k].Timer? && ops[k] == Tick(inputs[k].now)
    ensures AllWellFormed(inputs) && Serve(c, s, inputs) == RunFrom(c.Environment(), s, ops)
    decreases |ops|
  {
    hide Sweep, Config.Environment;
    if ops != [] {
      assert Handle(c, s, inputs[0]) == Step(c.Environment(), s, ops[0]);
      match Step(c.Environment(), s, ops[0]) {
        case None =>
        case Some(s1) => TimersAreTicks(c, s1, inputs[1..], ops[1..]);
      }
    }
  }

  /** A start that amounts to some submissions, followed by rounds. */
  lemma StartThenRounds(c: Config, start: seq<Input>, n: nat)
    requires AllWellFormed(start)
    ensures AllWellFormed(start + Timers(1, n))
    ensures Serve(c, INIT, start + Timers(1, n)) == RunFrom(c.Environment(), INIT, OpsOf(c, INIT, start) + Ticks(1, n))
  {
    hide Config.Environment, Serve, RunFrom, OpsOf, EnvOK;
    var ops := OpsOf(c, INIT, start);
    ServingIsRunning(c, INIT, start);
    RunConcat(c.Environment(), INIT, ops, Ticks(1, n));
    TimersAreTicks(c, INIT, Timers(1, n), Ticks(1, n));
    ServeConcat(c, INIT, start, Timers(1, n));
    if Serve(c, INIT, start).Some? {
      TimersAreTicks(c, Serve(c, INIT, start).value, Timers(1, n), Ticks(1, n));
    }
  }

  // ---------------------------------------------------------------------------------------------
  // Received packets that do it

  /** A 42-byte IP packet from one address to another, TTL 64. */
  function Probe(from: u32, to: u32): (p: Packet)
    ensures |p| == 42
  {
    seq(14, i => 0) + [0x45] + seq(7, i => 0) + [64, IPPROTO_ICMP, 0, 0] + BE32(from) + BE32(to) + seq(8, i => 0)
  }

  lemma ProbeFacts(from: u32, to: u32)
    ensures var p := Probe(from, to);
            HasHeader(p) && EchoFits(p) && Src(p) == from && Dst(p) == to && Ttl(p) == 64
  {
    var p := Probe(from, to);
    assert p[14] == 0x45 && p[22] == 64;
    assert p[26..30] == BE32(from) && p[30..34] == BE32(to);
    U32RoundTrip(p, 26, from);
    U32RoundTrip(p, 30, to);
  }

  /** A packet to the interface it arrives on, whose source is routed, is answered for that source, from the
      address of the interface towards it. */
  lemma LocalAnswer(c: Config, draws: nat, iface: Iface, p: Packet, now: int, out: Iface)
    requires WellFormed(IpIn(iface, p, now)) && Dst(p) == iface.ip
    requires RouteOf(c.table, Src(p)) == Some(out)
    ensures var ops := OpOf(c, draws, IpIn(iface, p, now));
            && |ops| == 1 && ops[0].Send? && ops[0].hop == Src(p) && ops[0].now == now
            && c.Environment().src(ops[0].pkt) == out.ip
  {
    hide Framed, IcmpPacket, EchoReply;
    IcmpPacketAnswers(c.order, p, ICMP_ECHOREPLY, 0, out, c.draw(draws));
  }

  /** A relayed packet is submitted for its next hop with the source it came with. */
  lemma RelayKeepsSource(c: Config, draws: nat, iface: Iface, p: Packet, now: int, k: nat)
    requires WellFormed(IpIn(iface, p, now)) && Dst(p) != iface.ip && Ttl(p) >= 2 && Lpm(c.table, Dst(p)) == Some(k)
    ensures var ops := OpOf(c, draws, IpIn(iface, p, now));
            && |ops| == 1 && ops[0].Send? && ops[0].now == now
            && ops[0].hop == (if c.table[k].gw == 0 then Dst(p) else c.table[k].gw)
            && c.Environment().src(ops[0].pkt) == Src(p)
  {
    hide Framed, Rewritten, Lpm;
    HopIsFaithful(c.order, p);
  }

  lemma OneInput(c: Config, s: State, i: Input)
    requires |s.table| == MAX_ARP_SIZE && WellFormed(i)
    ensures AllWellFormed([i]) && OpsOf(c, s, [i]) == OpOf(c, s.draws, i)
  {
    hide Config.Environment, OpOf;
    HandleIsStep(c, s, i);
    assert [i][1..] == [];
    if Handle(c, s, i).Some? {
      assert OpsOf(c, Handle(c, s, i).value, []) == [];
    }
  }

  lemma TwoInputs(c: Config, i: Input, j: Input, s1: State)
    requires WellFormed(i) && WellFormed(j) && Handle(c, INIT, i) == Some(s1)
    ensures AllWellFormed([i, j]) && OpsOf(c, INIT, [i, j]) == OpOf(c, 0, i) + OpOf(c, s1.draws, j)
  {
    hide Config.Environment, OpOf, Handle;
    HandleIsStep(c, INIT, i);
    assert [i, j][1..] == [j];
    OneInput(c, s1, j);
  }

  // ---------------------------------------------------------------------------------------------
  // A round that never comes back

  /** Two packets that are answered for the same address. */
  lemma TwoAnswers(c: Config, iface: Iface, p: Packet, out: Iface) returns (first: Op, second: Op)
    requires WellFormed(IpIn(iface, p, 0)) && Dst(p) == iface.ip && RouteOf(c.table, Src(p)) == Some(out)
    ensures AllWellFormed([IpIn(iface, p, 0), IpIn(iface, p, 0)])
    ensures OpsOf(c, INIT, [IpIn(iface, p, 0), IpIn(iface, p, 0)]) == [first, second]
    ensures first.Send? && second.Send? && first.hop == second.hop == Src(p) && first.now == 0
    ensures c.Environment().src(first.pkt) == c.Environment().src(second.pkt) == out.ip
  {
    hide OpOf, OpsOf, Handle;
    var i := IpIn(iface, p, 0);
    var s1 := AnswerHandled(c, i);
    LocalAnswer(c, 0, iface, p, 0, out);
    LocalAnswer(c, s1.draws, iface, p, 0, out);
    TwoInputs(c, i, i, s1);
    first, second := OpOf(c, 0, i)[0], OpOf(c, s1.draws, i)[0];
    assert OpOf(c, 0, i) + OpOf(c, s1.draws, i) == [first, second];
  }

  /** Handling an IP packet comes back. */
  lemma AnswerHandled(c: Config, i: Input) returns (s1: State)
    requires WellFormed(i) && i.IpIn?
    ensures Handle(c, INIT, i) == Some(s1)
  {
    s1 := Handle(c, INIT, i).value;
  }

  /** Two packets that pretend to come from the router itself: an interface receives, twice, an IP packet whose
      source and destination are its own address, and the table routes that address out of it. Six rounds later
      the sweep is in a loop it never leaves. */
  lemma {:induction false} SelfAddressedHang(c: Config, iface: Iface, p: Packet)
    requires WellFormed(IpIn(iface, p, 0)) && Src(p) == Dst(p) == iface.ip
    requires RouteOf(c.table, iface.ip) == Some(iface)
    ensures AllWellFormed([IpIn(iface, p, 0), IpIn(iface, p, 0)] + Timers(1, 6))
    ensures Serve(c, INIT, [IpIn(iface, p, 0), IpIn(iface, p, 0)] + Timers(1, 6)) == None
  {
    hide OpsOf, Serve, RunFrom, EnvOK;
    assert Own(c.Environment(), iface.ip);
    var first, second := TwoAnswers(c, iface, p, iface);
    StartThenRounds(c, [IpIn(iface, p, 0), IpIn(iface, p, 0)], 6);
    TwoWait(c.Environment(), first, second);
  }

  /** No pretence is needed. A host whose address is routed out of an interface that has a route to itself sends
      two packets to that interface, two echo requests say, and answers no ARP request: its two replies are given
      up after six rounds, the reports for them wait for the interface's own address, and six rounds later the
      sweep is in a loop it never leaves. */
  lemma {:induction false} SilentHostHang(c: Config, iface: Iface, p: Packet)
    requires WellFormed(IpIn(iface, p, 0)) && Dst(p) == iface.ip != Src(p)
    requires RouteOf(c.table, Src(p)) == Some(iface)
    requires RouteOf(c.table, iface.ip).Some? && RouteOf(c.table, iface.ip).value.ip == iface.ip
    ensures AllWellFormed([IpIn(iface, p, 0), IpIn(iface, p, 0)] + Timers(1, 12))
    ensures Serve(c, INIT, [IpIn(iface, p, 0), IpIn(iface, p, 0)] + Timers(1, 12)) == None
  {
    hide OpsOf, Serve, RunFrom, EnvOK;
    assert Own(c.Environment(), iface.ip);
    var first, second := TwoAnswers(c, iface, p, iface);
    StartThenRounds(c, [IpIn(iface, p, 0), IpIn(iface, p, 0)], 12);
    TwoWaitElsewhere(c.Environment(), first, second, iface.ip);
  }

  /** The address is that of the interface it is routed out of. */
  predicate RoutedToItself(c: Config, a: u32) {
    RouteOf(c.table, a).Some? && RouteOf(c.table, a).value.ip == a
  }

  /** Whatever this router receives, every round of its sweep comes back, if and only if no address is routed
      out of the interface that has it. */
  lemma {:induction false} RouterNeverHangsExactly(c: Config)
    ensures (forall inputs: seq<Input> | AllWellFormed(inputs) :: Serve(c, INIT, inputs).Some?)
            <==> forall a: u32 :: !RoutedToItself(c, a)
  {
    hide Serve, Lpm, RunFrom;
    if a: u32 :| RoutedToItself(c, a) {
      var iface := RouteOf(c.table, a).value;
      ProbeFacts(a, a);
      SelfAddressedHang(c, iface, Probe(a, a));
      var inputs := [IpIn(iface, Probe(a, a), 0), IpIn(iface, Probe(a, a), 0)] + Timers(1, 6);
      assert AllWellFormed(inputs) && Serve(c, INIT, inputs).None?;
    } else {
      forall a: u32 ensures !Own(c.Environment(), a) {
        assert !RoutedToItself(c, a);
      }
      forall inputs: seq<Input> | AllWellFormed(inputs) ensures Serve(c, INIT, inputs).Some? {
        ServingIsRunning(c, INIT, inputs);
        RunEnds(c.Environment(), INIT, OpsOf(c, INIT, inputs));
      }
    }
  }

  /** No packet received pretends to come from such an address. */
  ghost predicate Unforged(c: Config, inputs: seq<Input>) {
    forall k :: 0 <= k < |inputs| && inputs[k].IpIn? ==> !RoutedToItself(c, Src(inputs[k].p))
  }

  /** Some host's answers would come from such an address. */
  predicate Exposed(c: Config, x: u32) {
    && !RoutedToItself(c, x) && RouteOf(c.table, x).Some?
    && RoutedToItself(c, RouteOf(c.table, x).value.ip)
  }

  /** Whatever this router receives from addresses other than its own, every round of its sweep comes back, if
      and only if no other address is routed out of an interface whose own address is routed out of it. A router
      with a network attached to it directly, its own address on it, is not like that. */
  lemma {:induction false} UnforgedNeverHangsExactly(c: Config)
    ensures (forall inputs: seq<Input> | AllWellFormed(inputs) && Unforged(c, inputs) :: Serve(c, INIT, inputs).Some?)
            <==> forall x: u32 :: !Exposed(c, x)
  {
    hide Serve, Lpm, RunFrom;
    if x: u32 :| Exposed(c, x) {
      var iface := RouteOf(c.table, x).value;
      var p := Probe(x, iface.ip);
      ProbeFacts(x, iface.ip);
      SilentHostHang(c, iface, p);
      var inputs := [IpIn(iface, p, 0), IpIn(iface, p, 0)] + Timers(1, 12);
      assert AllWellFormed(inputs) && Unforged(c, inputs) && Serve(c, INIT, inputs).None?;
    } else {
      forall inputs: seq<Input> | AllWellFormed(inputs) && Unforged(c, inputs) ensures Serve(c, INIT, inputs).Some? {
        UnforgedComesBack(c, inputs);
      }
    }
  }

  lemma UnforgedComesBack(c: Config, inputs: seq<Input>)
    requires AllWellFormed(inputs) && Unforged(c, inputs) && forall x: u32 :: !Exposed(c, x)
    ensures Serve(c, INIT, inputs).Some?
  {
    hide Serve, OpsOf, RunFrom, Lpm, Unforged;
    var env, good := c.Environment(), (h: u32, x: u32) => !RoutedToItself(c, x);
    forall h: u32, x: u32 ensures Inherits(env, good, h, x) {
      assert !Exposed(c, x);
    }
    ServingIsRunning(c, INIT, inputs);
    OpsUnforged(c, INIT, inputs, good);
    RunGood(env, good, INIT, OpsOf(c, INIT, inputs));
  }

  lemma {:induction false} OpsUnforged(c: Config, s: State, inputs: seq<Input>, good: (u32, u32) -> bool)
    requires |s.table| == MAX_ARP_SIZE && AllWellFormed(inputs) && Unforged(c, inputs)
    requires good == ((h: u32, x: u32) => !RoutedToItself(c, x)) && forall x: u32 :: !Exposed(c, x)
    ensures forall k :: 0 <= k < |OpsOf(c, s, inputs)| ==> OpGood(c.Environment(), good, OpsOf(c, s, inputs)[k])
    decreases |inputs|
  {
    hide OpOf, Handle, OpGood, Config.Environment, Exposed, RoutedToItself;
    if inputs != [] {
      HandleIsStep(c, s, inputs[0]);
      assert inputs[0].IpIn? ==> !RoutedToItself(c, Src(inputs[0].p));
      OpUnforged(c, s.draws, inputs[0], good);
      match Handle(c, s, inputs[0]) {
        case None =>
        case Some(s1) => OpsUnforged(c, s1, inputs[1..], good);
      }
    }
  }

  /** What one input submits comes from another address than such a one: relayed, because its source does;
      answered, because the answer leaves by the interface towards that source. */
  lemma OpUnforged(c: Config, draws: nat, i: Input, good: (u32, u32) -> bool)
    requires WellFormed(i) && (i.IpIn? ==> !RoutedToItself(c, Src(i.p)))
    requires good == ((h: u32, x: u32) => !RoutedToItself(c, x)) && forall x: u32 :: !Exposed(c, x)
    ensures forall k :: 0 <= k < |OpOf(c, draws, i)| ==> OpGood(c.Environment(), good, OpOf(c, draws, i)[k])
  {
    if i.IpIn? {
      assert !Exposed(c, Src(i.p));
      OpSource(c, draws, i);
    }
  }

  /** The frame an IP packet makes the router submit comes from the packet's source, or from the interface
      towards it. */
  lemma OpSource(c: Config, draws: nat, i: Input)
    requires WellFormed(i) && i.IpIn?
    ensures forall k :: 0 <= k < |OpOf(c, draws, i)| ==>
              var op, out := OpOf(c, draws, i)[k], RouteOf(c.table, Src(i.p));
              op.Send? && (c.Environment().src(op.pkt) == Src(i.p)
                           || (out.Some? && c.Environment().src(op.pkt) == out.value.ip))
  {
    hide Lpm, Framed, Rewritten, IcmpPacket;
    var p := i.p;
    if RouteOf(c.table, Src(p)).Some? {
      var out := RouteOf(c.table, Src(p)).value;
      if Dst(p) == i.iface.ip {
        IcmpPacketAnswers(c.order, p, ICMP_ECHOREPLY, 0, out, c.draw(draws));
      } else {
        IcmpPacketAnswers(c.order, p, ICMP_TIME_EXCEEDED, 0, out, c.draw(draws));
        IcmpPacketAnswers(c.order, p, ICMP_DEST_UNREACH, 0, out, c.draw(draws));
      }
    }
    if Ttl(p) >= 2 {
      HopIsFaithful(c.order, p);
    }
  }

  // ---------------------------------------------------------------------------------------------
  // A packet that is dropped without a report

  /** A packet to a can come to wait for the address it is from: on the direct way to a, on the way over a
      gateway that is itself routed, or as this router's answer to itself. */
  predicate Loses(c: Config, a: u32) {
    match Lpm(c.table, a)
    case None => false
    case Some(k) => c.table[k].gw == 0 || RouteOf(c.table, c.table[k].gw).Some? || c.table[k].iface.ip == a
  }

  /** An input that makes the router submit a frame for the very address the frame comes from. */
  function SelfInput(c: Config, a: u32): Input
    requires Lpm(c.table, a).Some?
  {
    var e := c.table[Lpm(c.table, a).value];
    IpIn(e.iface, Probe(if e.iface.ip == a || e.gw == 0 then a else e.gw, a), 0)
  }

  lemma {:induction false} SelfSend(c: Config, a: u32) returns (op: Op)
    requires Lpm(c.table, a).Some?
    ensures WellFormed(SelfInput(c, a)) && OpsOf(c, INIT, [SelfInput(c, a)]) == [op]
    ensures op.Send? && op.now == 0 && c.Environment().src(op.pkt) == op.hop
    ensures c.Environment().route(op.hop).Some? <==> Loses(c, a)
  {
    hide OpOf, OpsOf, Probe, Lpm;
    var k, i := Lpm(c.table, a).value, SelfInput(c, a);
    var e := c.table[k];
    ProbeFacts(if e.iface.ip == a || e.gw == 0 then a else e.gw, a);
    if e.iface.ip == a {
      LocalAnswer(c, 0, e.iface, i.p, 0, e.iface);
    } else {
      RelayKeepsSource(c, 0, e.iface, i.p, 0, k);
    }
    OneInput(c, INIT, i);
    op := OpOf(c, 0, i)[0];
  }

  /** One received packet and six rounds: the log then holds a packet that left the queue unreported. */
  lemma {:induction false} OnePacketLost(c: Config, a: u32)
    requires Loses(c, a)
    ensures AllWellFormed([SelfInput(c, a)] + Timers(1, 6))
    ensures Serve(c, INIT, [SelfInput(c, a)] + Timers(1, 6)).Some?
    ensures !LosesNothing(Serve(c, INIT, [SelfInput(c, a)] + Timers(1, 6)).value.log)
  {
    hide SelfInput, OpsOf, Serve, RunFrom, EnvOK, LosesNothing, Lpm;
    var op := SelfSend(c, a);
    StartThenRounds(c, [SelfInput(c, a)], 6);
    OneIsLost(c.Environment(), op);
  }

  /** One received packet and six rounds, for any address with a route: a packet is gone and nobody was told. */
  lemma {:induction false} OnePacketUntold(c: Config, a: u32)
    requires Lpm(c.table, a).Some?
    ensures AllWellFormed([SelfInput(c, a)] + Timers(1, 6))
    ensures Serve(c, INIT, [SelfInput(c, a)] + Timers(1, 6)).Some?
    ensures !Told(c.Environment(), Serve(c, INIT, [SelfInput(c, a)] + Timers(1, 6)).value.log)
  {
    hide SelfInput, OpsOf, Serve, RunFrom, EnvOK, LosesNothing, Lpm;
    var op := SelfSend(c, a);
    StartThenRounds(c, [SelfInput(c, a)], 6);
    if Loses(c, a) {
      OneIsLost(c.Environment(), op);
    } else {
      OneIsSilent(c.Environment(), op);
    }
  }

  lemma NeverOwn(c: Config)
    requires forall a: u32 :: !Loses(c, a)
    ensures NoneOwn(c.Environment())
  {
    forall a: u32 ensures !Own(c.Environment(), a) {
      assert !Loses(c, a);
    }
  }

  /** A router without such an address submits no routed frame for the address it comes from. */
  lemma OpClean(c: Config, draws: nat, i: Input)
    requires WellFormed(i) && forall a: u32 :: !Loses(c, a)
    ensures forall k :: 0 <= k < |OpOf(c, draws, i)| ==> SendsClean(c, OpOf(c, draws, i)[k])
  {
    if i.IpIn? {
      var p := i.p;
      if Dst(p) == i.iface.ip {
        IcmpOpClean(c, draws, p, ICMP_ECHOREPLY, i.now);
      } else {
        RelayOpClean(c, draws, i);
      }
    }
  }

  predicate SendsClean(c: Config, op: Op) {
    op.Send? ==> CleanFor(c.Environment(), op.hop, op.pkt)
  }

  lemma IcmpOpClean(c: Config, draws: nat, p: Packet, kind: u8, now: int)
    requires |p| >= 42 && (kind == ICMP_ECHOREPLY ==> EchoFits(p)) && forall a: u32 :: !Loses(c, a)
    ensures forall k :: 0 <= k < |IcmpOp(c, draws, p, kind, now)| ==> SendsClean(c, IcmpOp(c, draws, p, kind, now)[k])
  {
    hide Lpm, Framed, IcmpPacket;
    assert !Loses(c, Src(p));
    match RouteOf(c.table, Src(p))
    case None =>
    case Some(out) => IcmpPacketAnswers(c.order, p, kind, 0, out, c.draw(draws));
  }

  lemma SentClean(c: Config, op: Op)
    requires op.Send? && CleanFor(c.Environment(), op.hop, op.pkt)
    ensures SendsClean(c, op)
  {
  }

  lemma RelayOpClean(c: Config, draws: nat, i: Input)
    requires i.IpIn? && WellFormed(i) && Dst(i.p) != i.iface.ip && forall a: u32 :: !Loses(c, a)
    ensures forall k :: 0 <= k < |OpOf(c, draws, i)| ==> SendsClean(c, OpOf(c, draws, i)[k])
  {
    hide Lpm, Framed, Rewritten, SendsClean, IcmpOp;
    match Forward(c.order, c.table, i.p)
    case Expired => IcmpOpClean(c, draws, i.p, ICMP_TIME_EXCEEDED, i.now);
    case Unroutable => IcmpOpClean(c, draws, i.p, ICMP_DEST_UNREACH, i.now);
    case Relay(out, hop, q) =>
      assert !Loses(c, Dst(i.p));
      NoWayBack(c, Dst(i.p));
      assert CleanFor(c.Environment(), hop, Framed(q, out.mac));
      SentClean(c, OpOf(c, draws, i)[0]);
  }

  /** The next hop of a relayed frame then has no route. */
  lemma NoWayBack(c: Config, a: u32)
    requires !Loses(c, a) && Lpm(c.table, a).Some?
    ensures c.table[Lpm(c.table, a).value].gw != 0
    ensures c.Environment().route(c.table[Lpm(c.table, a).value].gw).None?
    ensures forall pkt: Packet :: CleanFor(c.Environment(), c.table[Lpm(c.table, a).value].gw, pkt)
  {
  }

  lemma {:induction false} OpsClean(c: Config, s: State, inputs: seq<Input>)
    requires |s.table| == MAX_ARP_SIZE && AllWellFormed(inputs) && forall a: u32 :: !Loses(c, a)
    ensures forall k :: 0 <= k < |OpsOf(c, s, inputs)| ==> SendsClean(c, OpsOf(c, s, inputs)[k])
    decreases |inputs|
  {
    hide OpOf, Handle, SendsClean, Config.Environment, Loses;
    if inputs != [] {
      HandleIsStep(c, s, inputs[0]);
      OpClean(c, s.draws, inputs[0]);
      match Handle(c, s, inputs[0]) {
        case None =>
        case Some(s1) => OpsClean(c, s1, inputs[1..]);
      }
    }
  }

  /** Whatever this router receives, no packet is unlinked without icmp_send_packet having been called for it, if
      and only if there is no such address. A router with a network attached to it directly has one. */
  lemma {:induction false} RouterLosesNothingExactly(c: Config)
    ensures (forall inputs: seq<Input> | AllWellFormed(inputs) ::
               Serve(c, INIT, inputs).Some? ==> LosesNothing(Serve(c, INIT, inputs).value.log))
            <==> forall a: u32 :: !Loses(c, a)
  {
    hide Serve, OpsOf, LosesNothing, Lpm, Config.Environment;
    if a: u32 :| Loses(c, a) {
      OnePacketLost(c, a);
      assert AllWellFormed([SelfInput(c, a)] + Timers(1, 6));
    } else {
      NeverOwn(c);
      forall inputs: seq<Input> | AllWellFormed(inputs)
        ensures Serve(c, INIT, inputs).Some? ==> LosesNothing(Serve(c, INIT, inputs).value.log)
      {
        ServedLosesNothing(c, inputs);
      }
    }
  }

  lemma ServedLosesNothing(c: Config, inputs: seq<Input>)
    requires AllWellFormed(inputs) && NoneOwn(c.Environment()) && forall a: u32 :: !Loses(c, a)
    ensures Serve(c, INIT, inputs).Some? && LosesNothing(Serve(c, INIT, inputs).value.log)
  {
    hide Serve, OpsOf, Loses, Config.Environment, CleanFor;
    ServingIsRunning(c, INIT, inputs);
    OpsClean(c, INIT, inputs);
    var ops := OpsOf(c, INIT, inputs);
    forall k | 0 <= k < |ops| && ops[k].Send? ensures CleanFor(c.Environment(), ops[k].hop, ops[k].pkt) {
      assert SendsClean(c, ops[k]);
    }
    CleanRunLosesNothing(c.Environment(), ops);
  }

  /** Whatever this router receives, the sender of every packet it gives up is told, if and only if it has no route
      to anywhere, so that it forwards and answers nothing. */
  lemma {:induction false} RouterTellsAllExactly(c: Config)
    ensures (forall inputs: seq<Input> | AllWellFormed(inputs) ::
               Serve(c, INIT, inputs).Some? ==> Told(c.Environment(), Serve(c, INIT, inputs).value.log))
            <==> forall a: u32 :: Lpm(c.table, a).None?
  {
    hide Serve, OpsOf, Told, Lpm, Config.Environment;
    if a: u32 :| Lpm(c.table, a).Some? {
      OnePacketUntold(c, a);
      assert AllWellFormed([SelfInput(c, a)] + Timers(1, 6));
    } else {
      forall inputs: seq<Input> | AllWellFormed(inputs)
        ensures Serve(c, INIT, inputs).Some? ==> Told(c.Environment(), Serve(c, INIT, inputs).value.log)
      {
        RoutelessTellsAll(c, inputs);
      }
    }
  }

  /** Without routes nothing is ever submitted. */
  lemma {:induction false} RoutelessOps(c: Config, s: State, inputs: seq<Input>)
    requires |s.table| == MAX_ARP_SIZE && AllWellFormed(inputs) && forall a: u32 :: Lpm(c.table, a).None?
    ensures forall k :: 0 <= k < |OpsOf(c, s, inputs)| ==> !OpsOf(c, s, inputs)[k].Send?
    decreases |inputs|
  {
    hide Handle, Config.Environment, Lpm;
    if inputs != [] {
      HandleIsStep(c, s, inputs[0]);
      match Handle(c, s, inputs[0]) {
        case None =>
        case Some(s1) => RoutelessOps(c, s1, inputs[1..]);
      }
    }
  }

  lemma RoutelessTellsAll(c: Config, inputs: seq<Input>)
    requires AllWellFormed(inputs) && forall a: u32 :: Lpm(c.table, a).None?
    ensures Serve(c, INIT, inputs).Some? && Told(c.Environment(), Serve(c, INIT, inputs).value.log)
  {
    hide Serve, OpsOf, Lpm, RunFrom;
    ServingIsRunning(c, INIT, inputs);
    RoutelessOps(c, INIT, inputs);
    RoutedRunTellsAll(c.Environment(), OpsOf(c, INIT, inputs));
  }

  // ---------------------------------------------------------------------------------------------
  // A router with one interface

  const LAN := Iface(10, ZERO_MAC)

  /** One interface with address 10, everything reachable through it. */
  function Single(o: Order, draw: nat -> Draw): Config {
    Config(o, [RtEntry(0, 0, 0, LAN)], draw)
  }

  lemma SingleRoute(o: Order, draw: nat -> Draw, a: u32)
    ensures Lpm(Single(o, draw).table, a) == Some(0) && Loses(Single(o, draw), a)
  {
    var table := Single(o, draw).table;
    assert Match(table[0], a);
    assert Routed(table, a);
  }

  /** A packet from 10 to 10, received once, is enough to lose one. */
  lemma {:induction false} LossExample(o: Order, draw: nat -> Draw)
    ensures AllWellFormed([IpIn(LAN, Probe(10, 10), 0)] + Timers(1, 6))
    ensures var end := Serve(Single(o, draw), INIT, [IpIn(LAN, Probe(10, 10), 0)] + Timers(1, 6));
            end.Some? && exists k :: 0 <= k < |end.value.log| && end.value.log[k].Lost?
  {
    hide Probe, Serve;
    SingleRoute(o, draw, 10);
    OnePacketLost(Single(o, draw), 10);
  }

  /** The same packet received twice, and the sixth round never comes back. */
  lemma {:induction false} HangExample(o: Order, draw: nat -> Draw)
    ensures var inputs := [IpIn(LAN, Probe(10, 10), 0), IpIn(LAN, Probe(10, 10), 0)] + Timers(1, 6);
            AllWellFormed(inputs) && Serve(Single(o, draw), INIT, inputs) == None
  {
    hide Probe, Serve;
    SingleRoute(o, draw, 10);
    ProbeFacts(10, 10);
    SelfAddressedHang(Single(o, draw), LAN, Probe(10, 10));
  }

  /** Two echo requests from a host, 11, that answers no ARP request: the twelfth round never comes back. */
  lemma {:induction false} SilentHostExample(o: Order, draw: nat -> Draw)
    ensures var inputs := [IpIn(LAN, Probe(11, 10), 0), IpIn(LAN, Probe(11, 10), 0)] + Timers(1, 12);
            AllWellFormed(inputs) && Serve(Single(o, draw), INIT, inputs) == None
  {
    hide Probe, Serve;
    SingleRoute(o, draw, 10);
    SingleRoute(o, draw, 11);
    ProbeFacts(11, 10);
    SilentHostHang(Single(o, draw), LAN, Probe(11, 10));
  }

  /** One packet from 88 to 77 by way of the gateway 88, to which there is no route: after six rounds it is given
      up, and nobody is told. */
  lemma {:induction false} SilentDropExample(o: Order, draw: nat -> Draw)
    ensures var c := Config(o, [RtEntry(77, 0xFFFF_FFFF, 88, LAN)], draw);
            var inputs := [IpIn(LAN, Probe(88, 77), 0)] + Timers(1, 6);
            && (forall a: u32 :: !Loses(c, a))
            && AllWellFormed(inputs) && Serve(c, INIT, inputs).Some?
            && !Told(c.Environment(), Serve(c, INIT, inputs).value.log)
  {
    hide Probe, Serve;
    var c := Config(o, [RtEntry(77, 0xFFFF_FFFF, 88, LAN)], draw);
    forall a: u32 ensures Lpm(c.table, a) == if a == 77 then Some(0) else None {
      FullMask(a);
      FullMask(77);
      assert Match(c.table[0], a) <==> a == 77;
      assert a == 77 ==> Routed(c.table, a);
    }
    OnePacketUntold(c, 77);
  }

  lemma FullMask(a: u32)
    ensures And(a, 0xFFFF_FFFF) == a
  {
    TwoTo32();
    AndOnes(a, 32);
  }
}
