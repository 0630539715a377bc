/** The resolver's environment as this router provides it: its routing table, its ICMP builder. */
module RouterEnvs {
  import opened Types
  import opened Checksums
  import opened Packets
  import opened Routing
  import opened Icmp
  import opened IpHeaders
  import opened Resolver

  /** A frame of fewer than 42 bytes is quoted as if zeros followed it. */
  function Padded(p: Packet): (r: Packet)
    ensures |r| >= 42 && (|p| >= 42 ==> r == p)
  {
    if |p| >= 42 then p else p + seq(42 - |p|, i => 0)
  }

  /** icmp_send_packet(pkt, len, 3, 1) up to iface_send_packet_by_arp's first writes. */
  function HostUnreachable(o: Order, draw: nat -> Draw, p: Packet, iface: Iface, n: nat): Packet {
    Framed(ErrorPacket(o, Padded(p), ICMP_DEST_UNREACH, 1, iface.ip, draw(n)), iface.mac)
  }

  function RouteOf(table: seq<RtEntry>, a: u32): Option<Iface> {
    match Lpm(table, a)
    case None => None
    case Some(k) => Some(table[k].iface)
  }

  function RouterEnv(o: Order, table: seq<RtEntry>, draw: nat -> Draw): Env {
    Env((a: u32) => RouteOf(table, a), (p: Packet) => Src(Padded(p)),
        (p: Packet, iface: Iface, n: nat) => HostUnreachable(o, draw, p, iface, n))
  }

  lemma ReportSource(o: Order, draw: nat -> Draw, p: Packet, iface: Iface, n: nat)
    ensures |HostUnreachable(o, draw, p, iface, n)| == 70
    ensures Src(HostUnreachable(o, draw, p, iface, n)) == iface.ip
  {
    var r := ErrorPacket(o, Padded(p), ICMP_DEST_UNREACH, 1, iface.ip, draw(n));
    ErrorPacketIsSound(o, Padded(p), ICMP_DEST_UNREACH, 1, iface.ip, draw(n));
    assert Src(r) == iface.ip;
  }

  /** So everything proved of the resolver holds of this router. */
  lemma {:induction false} RouterEnvOK(o: Order, table: seq<RtEntry>, draw: nat -> Draw)
    ensures EnvOK(RouterEnv(o, table, draw))
  {
    hide HostUnreachable;
    forall p: Packet, iface: Iface, n: nat
      ensures Src(Padded(HostUnreachable(o, draw, p, iface, n))) == iface.ip
    {
      ReportSource(o, draw, p, iface, n);
    }
  }

  /** The message icmp_send_packet builds, by type. */
  function IcmpPacket(o: Order, p: Packet, kind: u8, code: u8, from: u32, d: Draw): Packet
    requires |p| >= 42 && (kind == ICMP_ECHOREPLY ==> EchoFits(p))
  {
    if kind == ICMP_ECHOREPLY then EchoReply(o, p, code, from, d) else ErrorPacket(o, p, kind, code, from, d)
  }

  predicate Builds(kind: u8) {
    kind == ICMP_ECHOREPLY || kind == ICMP_DEST_UNREACH || kind == ICMP_TIME_EXCEEDED
  }

  /** The switch over the types. */
  method BuildIcmp(o: Order, p: Packet, kind: u8, code: u8, from: u32, d: Draw) returns (packet: array<u8>)
    requires |p| >= 42 && (kind == ICMP_ECHOREPLY ==> EchoFits(p))
    ensures fresh(packet) && packet[..] == IcmpPacket(o, p, kind, code, from, d) && packet.Length >= 42
  {
    if kind == ICMP_ECHOREPLY {
      packet := BuildEchoReply(o, p, code, from, d);
    } else {
      packet := BuildError(o, p, kind, code, from, d);
    }
    assert |packet[..]| == packet.Length;
  }

  /** icmp_send_packet as a step of the resolver: a type it does not know sends nothing. */
  ghost function IcmpSent(
      o: Order, table: seq<RtEntry>, draw: nat -> Draw, s: State, p: Packet, kind: u8, code: u8, now: int): State
    requires |p| >= 42 && (kind == ICMP_ECHOREPLY ==> EchoFits(p))
  {
    match RouteOf(table, Src(p))
    case None => s
    case Some(iface) =>
      if !Builds(kind) then s
      else SubmitFrame(s.(draws := s.draws + 1), iface, Src(p),
                       Framed(IcmpPacket(o, p, kind, code, iface.ip, draw(s.draws)), iface.mac), now)
  }

  /** f answers p with an ICMP message of a type and code: from the address of the interface to the source of p, with
      the interface's hardware address, and with good checksums, that of the message up to the length for which the
      checksum is right. An echo reply, type 0, is as long as p and carries what follows the checksum in p's message:
      identifier, sequence number, data. Any other message is 70 bytes and quotes the first 28 bytes of p's
      datagram. */
  ghost predicate Answers(o: Order, f: Packet, iface: Iface, p: Packet, kind: u8, code: u8)
    requires |p| >= 42
  {
    && |f| >= 42 && FreshIcmpHeader(o, f, iface.ip, U32At(p, 26), (|f| - 14) % 0x1_0000)
    && f[6..12] == iface.mac && f[12..14] == [0x08, 0x00] && f[34] == kind && f[35] == code
    && (|f| <= 131074 ==> Verifies(o, f[34..]))
    && if kind == 0 then
         var options := HeaderLength(p) - 20;
         0 <= options <= |p| - 42 && |f| == |p| && f[38..|f| - options] == p[38 + options..]
       else |f| == 70 && f[42..] == p[14..42]
  }

  lemma IcmpPacketAnswers(o: Order, p: Packet, kind: u8, code: u8, iface: Iface, d: Draw)
    requires 42 <= |p| && (kind == ICMP_ECHOREPLY ==> EchoFits(p))
    ensures Answers(o, Framed(IcmpPacket(o, p, kind, code, iface.ip, d), iface.mac), iface, p, kind, code)
  {
    hide Answers, ErrorPacket, EchoReply, Framed;
    if kind == ICMP_ECHOREPLY {
      EchoAnswers(o, p, code, iface, d);
    } else {
      ErrorAnswers(o, p, kind, code, iface, d);
    }
  }

  lemma EchoAnswers(o: Order, p: Packet, code: u8, iface: Iface, d: Draw)
    requires EchoFits(p)
    ensures Answers(o, Framed(EchoReply(o, p, code, iface.ip, d), iface.mac), iface, p, 0, code)
  {
    hide EchoReply, Framed, Verifies, FreshIcmpHeader, HeaderLength, Raw, Answers;
    var r, options := EchoReply(o, p, code, iface.ip, d), HeaderLength(p) - 20;
    EchoReplyIsSound(o, p, code, iface.ip, d);
    DropTail(r, p[38 + options..], Raw(d, |p|)[|p| - options..]);
    FramedParts(r, iface.mac);
    FramedAnswers(o, r, Framed(r, iface.mac), iface, p, 0, code);
  }

  lemma ErrorAnswers(o: Order, p: Packet, kind: u8, code: u8, iface: Iface, d: Draw)
    requires |p| >= 42 && kind != 0
    ensures Answers(o, Framed(ErrorPacket(o, p, kind, code, iface.ip, d), iface.mac), iface, p, kind, code)
  {
    hide ErrorPacket, Framed, Verifies, FreshIcmpHeader, HeaderLength, Answers;
    var r := ErrorPacket(o, p, kind, code, iface.ip, d);
    ErrorPacketIsSound(o, p, kind, code, iface.ip, d);
    FramedParts(r, iface.mac);
    FramedAnswers(o, r, Framed(r, iface.mac), iface, p, kind, code);
  }

  /** A message that is right behind the Ethernet header, framed. */
  lemma FramedAnswers(o: Order, r: Packet, f: Packet, iface: Iface, p: Packet, kind: u8, code: u8)
    requires |p| >= 42 && |r| == |f| >= 42 && f[14..] == r[14..]
    requires f[6..12] == iface.mac && f[12..14] == [0x08, 0x00]
    requires FreshIcmpHeader(o, r, iface.ip, U32At(p, 26), (|r| - 14) % 0x1_0000)
    requires r[34] == kind && r[35] == code && (|r| <= 131074 ==> Verifies(o, r[34..]))
    requires if kind == 0 then
               && |r| == |p| && 0 <= HeaderLength(p) - 20 <= |p| - 42
               && r[38..|r| - (HeaderLength(p) - 20)] == p[38 + (HeaderLength(p) - 20)..]
             else |r| == 70 && r[42..] == p[14..42]
    ensures Answers(o, f, iface, p, kind, code)
  {
    hide Verifies, FreshIcmpHeader, HeaderLength;
    FramedHeader(o, r, f, iface.ip, U32At(p, 26), (|r| - 14) % 0x1_0000);
    if kind == 0 {
      FramedBytes(r, f, 38, |r| - (HeaderLength(p) - 20));
    } else {
      FramedBytes(r, f, 42, 70);
      assert f[42..70] == f[42..] && r[42..70] == r[42..];
    }
  }

  lemma DropTail(r: Packet, data: seq<u8>, raw: seq<u8>)
    requires |r| >= 38 && r[38..] == data + raw
    ensures r[38..|r| - |raw|] == data
  {
    assert r[38..|r| - |raw|] == r[38..][..|data|];
  }

  /** What is the same behind the Ethernet header. */
  lemma FramedBytes(r: Packet, f: Packet, lo: nat, hi: nat)
    requires |r| == |f| >= 42 && f[14..] == r[14..] && 14 <= lo <= hi <= |r|
    ensures f[lo..hi] == r[lo..hi] && f[34] == r[34] && f[35] == r[35] && f[34..] == r[34..]
  {
    Slice(r, 14, |r|, lo - 14, hi - 14);
    Slice(f, 14, |f|, lo - 14, hi - 14);
    assert f[34] == f[14..][20] && f[35] == f[14..][21] && r[34] == r[14..][20] && r[35] == r[14..][21];
    assert f[34..] == f[14..][20..] && r[34..] == r[14..][20..];
  }

  lemma FramedHeader(o: Order, r: Packet, f: Packet, from: u32, to: u32, len: u16)
    requires |r| == |f| >= 42 && f[14..] == r[14..] && FreshIcmpHeader(o, r, from, to, len)
    ensures FreshIcmpHeader(o, f, from, to, len)
  {
    hide Verifies;
    assert forall k :: 14 <= k < |f| ==> f[k] == f[14..][k - 14] && r[k] == r[14..][k - 14];
    FramedBytes(r, f, 14, 34);
  }

  /** What icmp_send_packet sends is submitted for the source of the packet it answers, exactly when that source has a
      route and the type is one of 0, 3 and 11. It is the answer of that type and code, by the interface of the entry
      that matches the source best. */
  lemma {:induction false} IcmpAnswersSource(
      o: Order, table: seq<RtEntry>, draw: nat -> Draw, s: State, p: Packet, kind: u8, code: u8, now: int)
    requires 42 <= |p| && (kind == ICMP_ECHOREPLY ==> EchoFits(p))
    ensures var r, built := IcmpSent(o, table, draw, s, p, kind, code, now), kind == 0 || kind == 3 || kind == 11;
            && (!Routed(table, U32At(p, 26)) || !built ==> r == s)
            && forall k :: built && Kept(table, U32At(p, 26), k) ==>
                 && |s.log| < |r.log| && r.log[|s.log|].Submit?
                 && Leaves(s, r, table[k].iface, U32At(p, 26), r.log[|s.log|].pkt, now)
                 && Answers(o, r.log[|s.log|].pkt, table[k].iface, p, kind, code)
  {
    hide Answers, IcmpPacket, Framed, Lpm;
    RoutedIsLpm(table, Src(p));
    forall k | Kept(table, Src(p), k) ensures RouteOf(table, Src(p)) == Some(table[k].iface) {
      KeptIsLpm(table, Src(p), k);
    }
    if RouteOf(table, Src(p)).Some? && Builds(kind) {
      var iface := RouteOf(table, Src(p)).value;
      var f := Framed(IcmpPacket(o, p, kind, code, iface.ip, draw(s.draws)), iface.mac);
      IcmpPacketAnswers(o, p, kind, code, iface, draw(s.draws));
      SubmitLeaves(s.(draws := s.draws + 1), iface, Src(p), f, now);
    }
  }

  lemma KeptIsLpm(table: seq<RtEntry>, dst: u32, k: int)
    requires Kept(table, dst, k)
    ensures Lpm(table, dst) == Some(k)
  {
    assert Routed(table, dst);
  }

  lemma RoutedIsLpm(table: seq<RtEntry>, dst: u32)
    ensures Routed(table, dst) <==> Lpm(table, dst).Some?
  {
  }

  /** The report for a packet is host unreachable, type 3 code 1, and quotes the packet. */
  lemma {:induction false} ReportAnswers(
      o: Order, table: seq<RtEntry>, draw: nat -> Draw, p: Packet, iface: Iface, n: nat)
    requires |p| >= 42
    ensures Answers(o, RouterEnv(o, table, draw).report(p, iface, n), iface, p, 3, 1)
  {
    hide Answers, ErrorPacket, Framed;
    IcmpPacketAnswers(o, p, ICMP_DEST_UNREACH, 1, iface, draw(n));
  }

  /** The reports of the sweep are host-unreachable messages. */
  lemma ReportIsUnreachable(o: Order, table: seq<RtEntry>, draw: nat -> Draw, s: State, p: Packet, now: int)
    ensures Report(RouterEnv(o, table, draw), s, p, now)
            == IcmpSent(o, table, draw, s, Padded(p), ICMP_DEST_UNREACH, 1, now)
  {
    hide SubmitFrame, ErrorPacket, Framed, Padded, Src, Lpm;
    var env := RouterEnv(o, table, draw);
    assert env.route(env.src(p)) == RouteOf(table, Src(Padded(p)));
  }
}
