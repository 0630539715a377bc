/** ARP frames (arp.c, include/arp.h): 14 bytes of Ethernet header, 28 bytes of ARP. */
module Arp {
  import opened Types
  import opened Packets
  import opened ArpTable

  const ARPOP_REQUEST: u16 := 1
  const ARPOP_REPLY: u16 := 2
  const ARP_FRAME_SIZE := 42

  const BROADCAST: Mac := [0xFF, 0xFF, 0xFF, 0xFF, 0xFF, 0xFF]

  function ArpFrame(dhost: Mac, shost: Mac, op: u16, sha: Mac, spa: u32, tha: Mac, tpa: u32): (f: Packet)
    ensures |f| == ARP_FRAME_SIZE
  {
    dhost + shost + [0x08, 0x06] + [0, 1, 0x08, 0x00, 6, 4] + BE16(op) + sha + BE32(spa) + tha + BE32(tpa)
  }

  /** arp_send_request. */
  function RequestFrame(iface: Iface, dst: u32): Packet {
    ArpFrame(BROADCAST, iface.mac, ARPOP_REQUEST, iface.mac, iface.ip, ZERO_MAC, dst)
  }

  method BuildArpFrame(dhost: Mac, shost: Mac, op: u16, sha: Mac, spa: u32, tha: Mac, tpa: u32)
    returns (packet: array<u8>)
    ensures fresh(packet) && packet[..] == ArpFrame(dhost, shost, op, sha, spa, tha, tpa)
  {
    packet := new u8[ARP_FRAME_SIZE](_ => 0);
    ghost var was := packet[..];
    Memcpy(packet, 0, dhost + shost + [0x08, 0x06]);
    Memcpy(packet, 14, [0, 1, 0x08, 0x00, 6, 4] + BE16(op));
    OverJoin(was, 0, dhost + shost + [0x08, 0x06], [0, 1, 0x08, 0x00, 6, 4] + BE16(op));
    ghost var half := dhost + shost + [0x08, 0x06] + ([0, 1, 0x08, 0x00, 6, 4] + BE16(op));
    Memcpy(packet, 22, sha + BE32(spa));
    OverJoin(was, 0, half, sha + BE32(spa));
    Memcpy(packet, 32, tha + BE32(tpa));
    OverJoin(was, 0, half + (sha + BE32(spa)), tha + BE32(tpa));
    assert half + (sha + BE32(spa)) + (tha + BE32(tpa)) == ArpFrame(dhost, shost, op, sha, spa, tha, tpa);
  }

  function Op(p: Packet): u16
    requires |p| >= ARP_FRAME_SIZE
  {
    U16At(p, 20)
  }

  function Sha(p: Packet): Mac
    requires |p| >= ARP_FRAME_SIZE
  {
    p[22..28]
  }

  function Spa(p: Packet): u32
    requires |p| >= ARP_FRAME_SIZE
  {
    U32At(p, 28)
  }

  function Tha(p: Packet): Mac
    requires |p| >= ARP_FRAME_SIZE
  {
    p[32..38]
  }

  function Tpa(p: Packet): u32
    requires |p| >= ARP_FRAME_SIZE
  {
    U32At(p, 38)
  }

  /** handle_arp_packet and arp_send_reply: a request for the interface's own address is answered; one for
      another address the table knows is answered too, but the address looked up is written into the request
      and not into the reply, whose sender hardware address stays zero. */
  function ReplyTo(iface: Iface, table: seq<Entry>, p: Packet): Option<Packet>
    requires |p| >= ARP_FRAME_SIZE
  {
    if Op(p) != ARPOP_REQUEST then None
    else if Tpa(p) == iface.ip then
      Some(ArpFrame(Sha(p), iface.mac, ARPOP_REPLY, iface.mac, Tpa(p), Sha(p), Spa(p)))
    else if Lookup(table, Tpa(p)).Some? then
      Some(ArpFrame(Sha(p), iface.mac, ARPOP_REPLY, ZERO_MAC, Tpa(p), Sha(p), Spa(p)))
    else None
  }

  /** Reading back what was built, field by field at its place in the frame: addresses, the type of ARP, Ethernet and
      IPv4 with their address lengths, operation, sender, target. */
  lemma {:induction false} FrameRoundTrip(dhost: Mac, shost: Mac, op: u16, sha: Mac, spa: u32, tha: Mac, tpa: u32)
    ensures var f := ArpFrame(dhost, shost, op, sha, spa, tha, tpa);
            && |f| == 42 && f[..6] == dhost && f[6..12] == shost && f[12..20] == [8, 6, 0, 1, 8, 0, 6, 4]
            && U16At(f, 20) == op && f[22..28] == sha && U32At(f, 28) == spa
            && f[32..38] == tha && U32At(f, 38) == tpa
  {
    var f := ArpFrame(dhost, shost, op, sha, spa, tha, tpa);
    assert f[20..22] == BE16(op);
    assert f[20] == f[20..22][0] && f[21] == f[20..22][1];
    assert f[28..32] == BE32(spa);
    assert f[38..42] == BE32(tpa);
    U32RoundTrip(f, 28, spa);
    U32RoundTrip(f, 38, tpa);
  }

  /** What handle_arp_packet reads, by its place in the frame. */
  lemma FieldsRead(p: Packet)
    requires |p| >= 42
    ensures Op(p) == U16At(p, 20) && Sha(p) == p[22..28] && Spa(p) == U32At(p, 28)
    ensures Tha(p) == p[32..38] && Tpa(p) == U32At(p, 38)
  {
  }

  /** The frame asks who has address dst: broadcast from the interface's two addresses. */
  predicate Asks(f: Packet, iface: Iface, dst: u32) {
    && |f| == 42 && f[..6] == [0xFF, 0xFF, 0xFF, 0xFF, 0xFF, 0xFF] && f[6..12] == iface.mac
    && f[12..20] == [8, 6, 0, 1, 8, 0, 6, 4] && U16At(f, 20) == 1 && f[22..28] == iface.mac
    && U32At(f, 28) == iface.ip && f[32..38] == [0, 0, 0, 0, 0, 0] && U32At(f, 38) == dst
  }

  lemma {:induction false} RequestAsks(iface: Iface, dst: u32)
    ensures Asks(RequestFrame(iface, dst), iface, dst)
  {
    FrameRoundTrip(BROADCAST, iface.mac, ARPOP_REQUEST, iface.mac, iface.ip, ZERO_MAC, dst);
  }

  /** Which frames are answered: requests, and only for the interface's own address or one the table resolves. */
  ghost predicate Answerable(iface: Iface, table: seq<Entry>, p: Packet)
    requires |p| >= 42
  {
    && U16At(p, 20) == 1
    && (U32At(p, 38) == iface.ip || exists k :: 0 <= k < |table| && table[k].valid && table[k].ip4 == U32At(p, 38))
  }

  /** f answers p, byte for byte: to the asker alone, from the interface, operation 2, sender address the one asked
      for, target the asker. The sender hardware address is the interface's for its own address and zero for any
      other. */
  predicate AnswerTo(f: Packet, iface: Iface, p: Packet)
    requires |p| >= 42
  {
    && |f| == 42 && f[..6] == p[22..28] && f[6..12] == iface.mac && f[12..22] == [8, 6, 0, 1, 8, 0, 6, 4, 0, 2]
    && f[22..28] == (if U32At(p, 38) == iface.ip then iface.mac else [0, 0, 0, 0, 0, 0])
    && f[28..32] == p[38..42] && f[32..38] == p[22..28] && f[38..42] == p[28..32]
  }

  /** There is a reply if and only if the frame is answerable, and it is the answer. */
  lemma {:induction false} ReplyExactly(iface: Iface, table: seq<Entry>, p: Packet)
    requires |p| >= 42
    ensures ReplyTo(iface, table, p).Some? <==> Answerable(iface, table, p)
    ensures ReplyTo(iface, table, p).Some? ==> AnswerTo(ReplyTo(iface, table, p).value, iface, p)
  {
    hide ArpFrame, AnswerTo, LastMatch;
    if Lookup(table, Tpa(p)).Some? {
      var k :| 0 <= k < |table| && Matches(table[k], Tpa(p));
      assert table[k].valid && table[k].ip4 == U32At(p, 38);
    }
    ReplyAnswers(iface, p, if Tpa(p) == iface.ip then iface.mac else ZERO_MAC);
  }

  lemma ReplyAnswers(iface: Iface, p: Packet, sha: Mac)
    requires |p| >= 42 && sha == if U32At(p, 38) == iface.ip then iface.mac else ZERO_MAC
    ensures AnswerTo(ArpFrame(Sha(p), iface.mac, ARPOP_REPLY, sha, Tpa(p), Sha(p), Spa(p)), iface, p)
  {
    hide BE32, U32At, ArpFrame;
    FrameParts(Sha(p), iface.mac, ARPOP_REPLY, sha, Tpa(p), Sha(p), Spa(p));
    BytesRoundTrip(p, 28);
    BytesRoundTrip(p, 38);
  }

  lemma FrameParts(dhost: Mac, shost: Mac, op: u16, sha: Mac, spa: u32, tha: Mac, tpa: u32)
    ensures var f := ArpFrame(dhost, shost, op, sha, spa, tha, tpa);
            && |f| == 42 && f[..6] == dhost && f[6..12] == shost && f[12..22] == [8, 6, 0, 1, 8, 0, 6, 4] + BE16(op)
            && f[22..28] == sha && f[28..32] == BE32(spa) && f[32..38] == tha && f[38..42] == BE32(tpa)
  {
    hide BE16, BE32;
  }

  /** One exchange between two routers: the owner of the address asked for learns the asker's mapping from the
      request, and its answer teaches the asker the owner's, addressed to the asker alone. */
  lemma {:induction false} AskAndAnswer(asker: Iface, owner: Iface, table: seq<Entry>)
    ensures var ask := RequestFrame(asker, owner.ip);
            && Spa(ask) == asker.ip && Sha(ask) == asker.mac
            && ReplyTo(owner, table, ask).Some?
            && var answer := ReplyTo(owner, table, ask).value;
               && |answer| == ARP_FRAME_SIZE && Spa(answer) == owner.ip && Sha(answer) == owner.mac
               && answer[..6] == asker.mac && Tpa(answer) == asker.ip && ReplyTo(asker, table, answer) == None
  {
    FrameRoundTrip(BROADCAST, asker.mac, ARPOP_REQUEST, asker.mac, asker.ip, ZERO_MAC, owner.ip);
    FrameRoundTrip(asker.mac, owner.mac, ARPOP_REPLY, owner.mac, owner.ip, asker.mac, asker.ip);
  }
}
