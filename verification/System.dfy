/** The whole router: received IP and ARP packets and sweep rounds, reduced to runs of the resolver, so that
    every theorem about runs is a theorem about the router. */
module Systems {
  import opened Types
  import opened Checksums
  import opened Packets
  import opened IpHeaders
  import opened Rings
  import opened Routing
  import opened Forwarding
  import opened Icmp
  import opened ArpTable
  import opened Resolver
  import opened SweepPass
  import opened Conservation
  import opened Runs
  import opened RouterEnvs
  import opened Nodes
  import Arp

  /** What reaches the router from outside, and its own timer. */
  datatype Input =
    | IpIn(iface: Iface, p: Packet, now: int)
    | ArpIn(iface: Iface, p: Packet, now: int)
    | Timer(now: int)

  /** What the methods of the node are for. */
  predicate WellFormed(i: Input) {
    match i
    case IpIn(iface, p, _) => |p| >= 42 && HasHeader(p) && (Dst(p) == iface.ip ==> EchoFits(p))
    case ArpIn(_, p, _) => |p| >= Arp.ARP_FRAME_SIZE
    case Timer(_) => true
  }

  datatype Config = Config(order: Order, table: seq<RtEntry>, draw: nat -> Draw) {
    function Environment(): (env: Env)
      ensures EnvOK(env)
    {
      RouterEnvOK(order, table, draw);
      RouterEnv(order, table, draw)
    }
  }

  /** One input, as the methods of the node handle it. */
  ghost function Handle(c: Config, s: State, i: Input): Option<State>
    requires WellFormed(i) && |s.table| == MAX_ARP_SIZE
  {
    match i
    case IpIn(iface, p, now) => Some(HandledIp(c.order, c.table, c.draw, s, iface, p, now))
    case ArpIn(_, p, now) => Some(Learn(s, Arp.Spa(p), Arp.Sha(p), now))
    case Timer(now) => Sweep(c.Environment(), s, now)
  }

  /** The step of the resolver an input amounts to, if any. */
  function OpOf(c: Config, draws: nat, i: Input): seq<Op>
    requires WellFormed(i)
  {
    match i
    case ArpIn(_, p, now) => [Receive(Arp.Spa(p), Arp.Sha(p), now)]
    case Timer(now) => [Tick(now)]
    case IpIn(iface, p, now) =>
      if Dst(p) == iface.ip then IcmpOp(c, draws, p, ICMP_ECHOREPLY, now)
      else
        match Forward(c.order, c.table, p)
        case Expired => IcmpOp(c, draws, p, ICMP_TIME_EXCEEDED, now)
        case Unroutable => IcmpOp(c, draws, p, ICMP_DEST_UNREACH, now)
        case Relay(out, hop, q) => [Send(out, hop, Framed(q, out.mac), 0, now)]
  }

  function IcmpOp(c: Config, draws: nat, p: Packet, kind: u8, now: int): seq<Op>
    requires |p| >= 42 && (kind == ICMP_ECHOREPLY ==> EchoFits(p))
  {
    match RouteOf(c.table, Src(p))
    case None => []
    case Some(iface) =>
      [Send(iface, Src(p), Framed(IcmpPacket(c.order, p, kind, 0, iface.ip, c.draw(draws)), iface.mac), 1, now)]
  }

  lemma {:induction false} HandleIsStep(c: Config, s: State, i: Input)
    requires WellFormed(i) && |s.table| == MAX_ARP_SIZE
    ensures Handle(c, s, i) == RunFrom(c.Environment(), s, OpOf(c, s.draws, i))
  {
    hide EnvOK, Config.Environment, Framed, IcmpPacket, SubmitFrame, Learn, Sweep, Forward, Lpm, Src, Dst;
    var ops := OpOf(c, s.draws, i);
    if ops != [] {
      assert ops[1..] == [];
    }
  }

  ghost predicate AllWellFormed(inputs: seq<Input>) {
    forall k :: 0 <= k < |inputs| ==> WellFormed(inputs[k])
  }

  ghost function Serve(c: Config, s: State, inputs: seq<Input>): Option<State>
    requires AllWellFormed(inputs) && |s.table| == MAX_ARP_SIZE
    decreases |inputs|
  {
    if inputs == [] then Some(s)
    else
      HandleIsStep(c, s, inputs[0]);
      match Handle(c, s, inputs[0])
      case None => None
      case Some(s1) => Serve(c, s1, inputs[1..])
  }

  ghost function OpsOf(c: Config, s: State, inputs: seq<Input>): seq<Op>
    requires AllWellFormed(inputs) && |s.table| == MAX_ARP_SIZE
    decreases |inputs|
  {
    if inputs == [] then []
    else
      HandleIsStep(c, s, inputs[0]);
      OpOf(c, s.draws, inputs[0])
      + match Handle(c, s, inputs[0])
        case None => []
        case Some(s1) => OpsOf(c, s1, inputs[1..])
  }

  /** Serving inputs is a run of the resolver, with the same outcome and the same end. */
  lemma {:induction false} ServingIsRunning(c: Config, s: State, inputs: seq<Input>)
    requires AllWellFormed(inputs) && |s.table| == MAX_ARP_SIZE
    ensures Serve(c, s, inputs) == RunFrom(c.Environment(), s, OpsOf(c, s, inputs))
    decreases |inputs|
  {
    hide EnvOK, Config.Environment, Handle, OpOf;
    if inputs != [] {
      HandleIsStep(c, s, inputs[0]);
      match Handle(c, s, inputs[0]) {
        case None =>
          assert OpOf(c, s.draws, inputs[0]) + [] == OpOf(c, s.draws, inputs[0]);
        case Some(s1) =>
          RunConcat(c.Environment(), s, OpOf(c, s.draws, inputs[0]), OpsOf(c, s1, inputs[1..]));
          ServingIsRunning(c, s1, inputs[1..]);
      }
    }
  }

  // ---------------------------------------------------------------------------------------------
  // The node serves its inputs

  ghost function ConfigOf(n: Node): Config
    reads n.rtable
  {
    Config(n.order, n.rtable.items, n.draw)
  }

  /** handle_packet, or one round of the sweep: the node comes to the state the input leads to. */
  method HandleInput(n: Node, i: Input)
    requires n.Valid() && WellFormed(i) && Handle(ConfigOf(n), n.Now(), i).Some?
    modifies n, n.entries, n.list, n.list.repr
    ensures n.Valid() && (forall o :: o in n.list.repr ==> o in old(n.list.repr) || fresh(o))
    ensures Handle(old(ConfigOf(n)), old(n.Now()), i) == Some(n.Now()) && ConfigOf(n) == old(ConfigOf(n))
  {
    hide HandledIp, Learn, Sweep, RouterEnv, EchoFits, HasHeader;
    match i
    case IpIn(iface, p, now) =>
      var packet := new u8[|p|](k requires 0 <= k < |p| => p[k]);
      assert packet[..] == p;
      n.HandleIp(iface, packet, now);
    case ArpIn(iface, p, now) =>
      var reply := n.HandleArp(iface, p, now);
    case Timer(now) =>
      n.SweepRound(now);
  }

  /** The node as it runs: if serving the inputs comes back, so do the methods, in the state it leads to. */
  method Drive(n: Node, inputs: seq<Input>)
    requires n.Valid() && AllWellFormed(inputs) && Serve(ConfigOf(n), n.Now(), inputs).Some?
    modifies n, n.entries, n.list, n.list.repr
    ensures n.Valid() && (forall o :: o in n.list.repr ==> o in old(n.list.repr) || fresh(o))
    ensures Serve(old(ConfigOf(n)), old(n.Now()), inputs) == Some(n.Now()) && ConfigOf(n) == old(ConfigOf(n))
  {
    hide Handle;
    var k := 0;
    while k < |inputs|
      invariant 0 <= k <= |inputs| && n.Valid() && ConfigOf(n) == old(ConfigOf(n))
      invariant forall o :: o in n.list.repr ==> o in old(n.list.repr) || fresh(o)
      invariant AllWellFormed(inputs[k..])
      invariant |n.Now().table| == MAX_ARP_SIZE
      invariant Serve(ConfigOf(n), n.Now(), inputs[k..]) == old(Serve(ConfigOf(n), n.Now(), inputs))
    {
      assert inputs[k..][0] == inputs[k] && inputs[k..][1..] == inputs[k + 1..];
      HandleInput(n, inputs[k]);
      k := k + 1;
    }
  }

  /** From the start: a new node, driven through inputs that come back, ends in the state they lead to. */
  method Boot(order: Order, draw: nat -> Draw, rtable: Ring<RtEntry>, inputs: seq<Input>) returns (n: Node)
    requires rtable.Valid() && AllWellFormed(inputs)
    requires Serve(Config(order, rtable.items, draw), INIT, inputs).Some?
    ensures fresh(n) && n.Valid() && n.rtable == rtable
    ensures Serve(Config(order, rtable.items, draw), INIT, inputs) == Some(n.Now())
  {
    n := new Node(order, draw, rtable);
    Drive(n, inputs);
  }

  /** For this router, whatever it receives: no address is both resolvable and pending, and per next hop the
      frames submitted are the frames settled followed by the frames that wait. */
  lemma {:induction false} RouterConserves(c: Config, inputs: seq<Input>, s: State, h: u32)
    requires AllWellFormed(inputs) && Serve(c, INIT, inputs) == Some(s)
    ensures forall k :: 0 <= k < |s.reqs| ==> Lookup(s.table, s.reqs[k].ip4) == None
    ensures Project(Handed, h, s.log) == Project(Settled, h, s.log) + Queue(s.reqs, h)
    ensures forall k :: 0 <= k < |s.reqs| && s.reqs[k].ip4 == h ==> Queue(s.reqs, h) == s.reqs[k].pkts
  {
    hide Config.Environment;
    ServingIsRunning(c, INIT, inputs);
    ReachableInvariant(c.Environment(), OpsOf(c, INIT, inputs), s);
    AllAccountedInOrder(c.Environment(), OpsOf(c, INIT, inputs), s, h);
  }
}
