/** How a request comes to be: a submission opens it, or a report that the sweep sends while it walks. */
module Opening {
  import opened Types
  import opened ArpTable
  import opened Resolver
  import opened SweepPass
  import opened Invariant
  import opened Conservation
  import opened Progress
  import opened Runs

  /** From s to r a request for h was opened, which is at place t: asked for once, not retried, something
      queued and nothing reported. */
  ghost predicate OpenedAt(s: State, r: State, h: u32, iface: Option<Iface>, now: int, t: nat) {
    && t < |r.reqs| && iface.Some? && r.reqs[t].pkts != []
    && r.reqs[t] == Pending(h, iface.value, now, 0, r.reqs[t].pkts)
    && Asked(r.log, h) == Asked(s.log, h) + 1
    && Project(Reported, h, r.log) == Project(Reported, h, s.log)
  }

  /** From s, where nothing waits for h, to r: such a request was opened, or h was not asked for. */
  ghost predicate MayOpen(s: State, r: State, h: u32, iface: Option<Iface>, now: int) {
    if Waits(r.reqs, h) then exists t: nat :: OpenedAt(s, r, h, iface, now, t)
    else Asked(r.log, h) == Asked(s.log, h) && Project(Reported, h, r.log) == Project(Reported, h, s.log)
  }

  lemma SubmitOpens(s: State, iface: Iface, hop: u32, pkt: Packet, now: int, h: u32)
    requires Keyed(s) && !Waits(s.reqs, h)
    ensures MayOpen(s, SubmitFrame(s, iface, hop, pkt, now), h, Some(iface), now)
  {
    var r := SubmitFrame(s, iface, hop, pkt, now);
    SubmitAsks(s, iface, hop, pkt, now, h);
    SubmitMoves(s, iface, hop, pkt, now, h);
    if Waits(r.reqs, h) {
      assert OpenedAt(s, r, h, Some(iface), now, |s.reqs|);
    }
  }

  lemma ReportOpens(env: Env, s: State, pkt: Packet, now: int, h: u32)
    requires Keyed(s) && !Waits(s.reqs, h)
    ensures MayOpen(s, Report(env, s, pkt, now), h, env.route(h), now)
  {
    match env.route(env.src(pkt))
    case None =>
    case Some(iface) =>
      var s0 := s.(draws := s.draws + 1);
      SubmitOpens(s0, iface, env.src(pkt), env.report(pkt, iface, s.draws), now, h);
      var r := Report(env, s, pkt, now);
      if Waits(r.reqs, h) {
        var t: nat :| OpenedAt(s0, r, h, Some(iface), now, t);
        assert h == env.src(pkt);
        assert OpenedAt(s, r, h, env.route(h), now, t);
      }
  }

  lemma SamePlaces(a: seq<Pending>, b: seq<Pending>, h: u32)
    requires |a| == |b| && forall k :: 0 <= k < |a| ==> a[k].ip4 == b[k].ip4
    ensures Waits(a, h) <==> Waits(b, h)
  {
    if Waits(a, h) {
      var k :| 0 <= k < |a| && a[k].ip4 == h;
      assert b[k].ip4 == h;
    }
  }

  lemma VisitOpens(env: Env, s: State, i: nat, now: int, h: u32)
    requires Keyed(s) && i < |s.reqs| && s.reqs[i].pkts != [] && !Waits(s.reqs, h)
    ensures MayOpen(s, Visit(env, s, i, now), h, env.route(h), now)
  {
    var q, r := s.reqs[i], Visit(env, s, i, now);
    var s0 := s.(log := s.log + [GiveUp(q.ip4, q.pkts[0])]);
    var s1 := Report(env, s0, q.pkts[0], now);
    assert q.ip4 != h;
    AskedPush(s.log, GiveUp(q.ip4, q.pkts[0]), h);
    ProjectPush(Reported, h, s.log, GiveUp(q.ip4, q.pkts[0]));
    ReportOpens(env, s0, q.pkts[0], now, h);
    SamePlaces(s1.reqs, r.reqs, h);
    if Waits(r.reqs, h) {
      var t: nat :| OpenedAt(s0, s1, h, env.route(h), now, t);
      assert OpenedAt(s, r, h, env.route(h), now, t);
    }
  }

  /** What a step between s and s1 did, followed by what the rest did. */
  lemma OpenedLater(s: State, s1: State, r: State, h: u32, iface: Option<Iface>, now: int)
    requires MayOpen(s, s1, h, iface, now) && !Waits(s1.reqs, h) && MayOpen(s1, r, h, iface, now)
    ensures MayOpen(s, r, h, iface, now)
  {
    if Waits(r.reqs, h) {
      var t: nat :| OpenedAt(s1, r, h, iface, now, t);
      assert OpenedAt(s, r, h, iface, now, t);
    }
  }

  /** The rest of the drain leaves a request that was opened on the way as it is, but for its queue. */
  lemma DrainKeepsOpened(env: Env, s: State, s1: State, i: nat, now: int, h: u32, iface: Option<Iface>, t: nat)
    requires EnvOK(env) && i < |s1.reqs| && Keyed(s1) && Filled(s1.reqs, i) && Law(s1, h) && s1.reqs[i].ip4 != h
    requires Ends(env, s1.table, s1.reqs[i].ip4, s1.reqs[i].pkts)
    requires OpenedAt(s, s1, h, iface, now, t)
    ensures OpenedAt(s, Drain(env, s1, i, now), h, iface, now, t)
  {
    assert Waits(s1.reqs, h);
    DrainAsks(env, s1, i, now, h);
    DrainConserves(env, s1, i, now, h);
  }

  lemma {:induction false} DrainOpens(env: Env, s: State, i: nat, now: int, h: u32)
    requires EnvOK(env) && i < |s.reqs| && Keyed(s) && Filled(s.reqs, i) && Law(s, h) && !Waits(s.reqs, h)
    requires Ends(env, s.table, s.reqs[i].ip4, s.reqs[i].pkts)
    ensures MayOpen(s, Drain(env, s, i, now), h, env.route(h), now)
    decreases Turns(env, s.table, s.reqs[i].ip4, s.reqs[i].pkts)
  {
    var q, r := s.reqs[i], Drain(env, s, i, now);
    if q.pkts != [] {
      var s1 := Visit(env, s, i, now);
      VisitOpens(env, s, i, now, h);
      if |q.pkts| > 1 {
        VisitKeeps(env, s, i, now);
        VisitConserves(env, s, i, now, h);
        VisitQueue(env, s, i, now);
        TurnsDecrease(env, s.table, q.ip4, q.pkts, s.draws);
        if Waits(s1.reqs, h) {
          var t: nat :| OpenedAt(s, s1, h, env.route(h), now, t);
          DrainKeepsOpened(env, s, s1, i, now, h, env.route(h), t);
        } else {
          DrainOpens(env, s1, i, now, h);
          OpenedLater(s, s1, r, h, env.route(h), now);
        }
      }
    }
  }

  lemma UnlinkOpens(s: State, d: State, i: nat, h: u32, iface: Option<Iface>, now: int)
    requires Keyed(d) && i < |d.reqs| && d.reqs[i].ip4 != h && Law(d, h) && MayOpen(s, d, h, iface, now)
    ensures MayOpen(s, Unlink(d, i), h, iface, now)
  {
    hide Law, Project, Asked, Keyed;
    var r := Unlink(d, i);
    AskedSilent(d.log, Losses(d.reqs[i].ip4, d.reqs[i].pkts), h);
    UnlinkConserves(d, i, h);
    if Waits(d.reqs, h) {
      var t: nat :| OpenedAt(s, d, h, iface, now, t);
      assert OpenedAt(s, r, h, iface, now, if t < i then t else t - 1);
    }
  }

  lemma GiveUpOpens(env: Env, s: State, i: nat, now: int, h: u32)
    requires EnvOK(env) && i < |s.reqs| && Inv(s) && Law(s, h) && !Waits(s.reqs, h)
    requires Ends(env, s.table, s.reqs[i].ip4, s.reqs[i].pkts)
    ensures MayOpen(s, Unlink(Drain(env, s, i, now), i), h, env.route(h), now)
  {
    DrainOpens(env, s, i, now, h);
    DrainKeeps(env, s, i, now);
    DrainConserves(env, s, i, now, h);
    UnlinkOpens(s, Drain(env, s, i, now), i, h, env.route(h), now);
  }

  lemma NothingOpened(s: State, h: u32, iface: Option<Iface>, now: int)
    requires !Waits(s.reqs, h)
    ensures MayOpen(s, s, h, iface, now)
  {
  }

  lemma RetryOpensNothing(s: State, i: nat, now: int, h: u32, iface: Option<Iface>)
    requires i < |s.reqs| && Inv(s) && Law(s, h) && !Waits(s.reqs, h)
    ensures MayOpen(s, Retry(s, i, now), h, iface, now)
  {
    assert s.reqs[i].ip4 != h;
    AskedPush(s.log, Ask(s.reqs[i].iface, s.reqs[i].ip4), h);
    RetryConserves(s, i, now, h);
    SamePlaces(s.reqs, Retry(s, i, now).reqs, h);
  }

  /** The pass that opens a request does not try it again, whether or not it still comes by it. */
  lemma PassKeepsOpened(
      env: Env, s: State, s1: State, i: nat, now: int, h: u32, iface: Option<Iface>, t: nat, r: State)
    requires EnvOK(env) && i <= |s1.reqs| && Inv(s1) && Law(s1, h)
    requires OpenedAt(s, s1, h, iface, now, t) && SweepFrom(env, s1, i, now) == Some(r)
    ensures MayOpen(s, r, h, iface, now)
  {
    if t < i {
      PassLeaves(env, s1, i, now, t, r);
      assert OpenedAt(s, r, h, iface, now, t);
    } else {
      PassHandles(env, s1, i, now, t, r);
      var t': nat :| Waited(s1, s1.reqs[t], r, t', Due(s1.reqs[t], now));
      assert OpenedAt(s, r, h, iface, now, t');
      assert r.reqs[t'].ip4 == h;
    }
  }

  lemma {:induction false} PassOpens(env: Env, s: State, i: nat, now: int, h: u32, r: State)
    requires EnvOK(env) && i <= |s.reqs| && Inv(s) && Law(s, h) && !Waits(s.reqs, h)
    requires SweepFrom(env, s, i, now) == Some(r)
    ensures MayOpen(s, r, h, env.route(h), now)
    decreases Exhausted(s.reqs[i..]), |s.reqs| - i, 0
  {
    hide Inv, Law, MayOpen, Waits, Project, Asked;
    if i == |s.reqs| {
      NothingOpened(s, h, env.route(h), now);
    } else if s.reqs[i].retries >= ARP_REQUEST_MAX_RETRIES {
      GiveUpOpens(env, s, i, now, h);
      if i < |s.reqs| - 1 {
        GiveUpGoesOn(env, s, i, now, h);
        PassOpensLater(env, s, Unlink(Drain(env, s, i, now), i), i, now, h, r);
      }
    } else {
      RetryOpensNothing(s, i, now, h, env.route(h));
      if i < |s.reqs| - 1 {
        RetryGoesOn(s, i, now, h);
        PassOpensLater(env, s, Retry(s, i, now), i + 1, now, h, r);
      }
    }
  }

  lemma {:induction false} PassOpensLater(env: Env, s: State, s1: State, i: nat, now: int, h: u32, r: State)
    requires EnvOK(env) && i <= |s1.reqs| && Inv(s1) && Law(s1, h) && MayOpen(s, s1, h, env.route(h), now)
    requires SweepFrom(env, s1, i, now) == Some(r)
    ensures MayOpen(s, r, h, env.route(h), now)
    decreases Exhausted(s1.reqs[i..]), |s1.reqs| - i, 1
  {
    hide Inv, Law, Project, Asked, SweepFrom, OpenedAt;
    if Waits(s1.reqs, h) {
      var t: nat :| OpenedAt(s, s1, h, env.route(h), now, t);
      PassKeepsOpened(env, s, s1, i, now, h, env.route(h), t, r);
    } else {
      PassOpens(env, s1, i, now, h, r);
      OpenedLater(s, s1, r, h, env.route(h), now);
    }
  }

  /** The interface a request for h is opened with. */
  function OpeningIface(env: Env, op: Op, h: u32): Option<Iface> {
    if op.Send? then Some(op.iface) else env.route(h)
  }

  lemma TickOpens(env: Env, s: State, now: int, h: u32)
    requires EnvOK(env) && Inv(s) && Law(s, h) && !Waits(s.reqs, h) && Sweep(env, s, now).Some?
    ensures MayOpen(s, Sweep(env, s, now).value, h, env.route(h), now)
  {
    var aged, r := s.(table := AgeOut(s.table, now)), Sweep(env, s, now).value;
    AgeOutKeeps(s, now);
    PassOpens(env, aged, 0, now, h, r);
    if Waits(r.reqs, h) {
      var t: nat :| OpenedAt(aged, r, h, env.route(h), now, t);
      assert OpenedAt(s, r, h, env.route(h), now, t);
    }
  }

  /** A reply opens nothing. */
  lemma LearnOpensNothing(s: State, ip: u32, mac: Mac, now: int, h: u32)
    requires Inv(s) && Law(s, h) && !Waits(s.reqs, h)
    ensures !Waits(Learn(s, ip, mac, now).reqs, h)
    ensures Asked(Learn(s, ip, mac, now).log, h) == Asked(s.log, h)
    ensures Project(Reported, h, Learn(s, ip, mac, now).log) == Project(Reported, h, s.log)
  {
    var r := Learn(s, ip, mac, now);
    WithoutFacts(s.reqs, ip);
    forall k | 0 <= k < |r.reqs| ensures r.reqs[k].ip4 != h {
      assert r.reqs[k] in s.reqs;
    }
    FlushedIsSent(s.reqs, ip, mac);
    AskedSilent(s.log, Flushed(s.reqs, ip, mac), h);
    LearnConserves(s, ip, mac, now, h);
  }

  lemma FlushedIsSent(reqs: seq<Pending>, ip: u32, mac: Mac)
    ensures forall k :: 0 <= k < |Flushed(reqs, ip, mac)| ==> Flushed(reqs, ip, mac)[k].Transmit?
  {
  }

  /** Whatever the step, a request for h that is there after it and was not before was opened by it: one ARP
      request, no retry, sent at the step's clock, a packet queued. */
  lemma {:induction false} StepOpens(env: Env, s: State, op: Op, h: u32)
    requires EnvOK(env) && Inv(s) && Law(s, h) && !Waits(s.reqs, h) && Step(env, s, op).Some?
    ensures MayOpen(s, Step(env, s, op).value, h, OpeningIface(env, op, h), op.now)
  {
    match op
    case Send(iface, hop, pkt, drawn, now) =>
      var s0, r := s.(draws := s.draws + drawn), Step(env, s, op).value;
      SubmitOpens(s0, iface, hop, pkt, now, h);
      if Waits(r.reqs, h) {
        var t: nat :| OpenedAt(s0, r, h, Some(iface), now, t);
        assert OpenedAt(s, r, h, Some(iface), now, t);
      }
    case Receive(ip, mac, now) => LearnOpensNothing(s, ip, mac, now, h);
    case Tick(now) => TickOpens(env, s, now, h);
  }
}
