/** The ICMP messages icmp_send_packet builds (icmp.c, include/icmp.h). */
module Icmp {
  import opened Types
  import opened Checksums
  import opened Packets
  import opened IpHeaders

  const ICMP_ECHOREPLY: u8 := 0
  const ICMP_DEST_UNREACH: u8 := 3
  const ICMP_TIME_EXCEEDED: u8 := 11

  /** What one build takes from outside: rand() for the IP id, and whatever bytes malloc's memory holds. */
  datatype Draw = Draw(id: u16, memory: nat -> u8)

  function Raw(d: Draw, n: nat): (b: seq<u8>)
    ensures |b| == n
  {
    seq<u8>(n, i requires 0 <= i < n => d.memory(i))
  }

  method Malloc(d: Draw, n: nat) returns (buf: array<u8>)
    ensures fresh(buf) && buf[..] == Raw(d, n)
  {
    buf := new u8[n](i requires 0 <= i < n => d.memory(i));
  }

  /** icmp_checksum over the message at 34 of the given length: the message is left as it was. */
  method IcmpChecksum(o: Order, buf: array<u8>, len: nat) returns (sum: u16)
    requires 4 <= len && len % 2 == 0 && 34 + len <= buf.Length
    modifies buf
    ensures buf[..] == old(buf[..])
    ensures sum == FieldChecksum(o, buf[34..34 + len], 2)
  {
    ghost var was := buf[..];
    var tmp := [buf[36], buf[37]];
    OverInside(was, 36, Store16(o, 0), 34, 34 + len);
    Memcpy(buf, 36, Store16(o, 0));
    assert buf[34..34 + len] == buf[..][34..34 + len];
    sum := Checksum(o, buf, 34, len, 0);
    Memcpy(buf, 36, tmp);
    PutBack(was, Store16(o, 0), tmp);
    assert buf[34..34 + len] == was[34..34 + len];
  }

  lemma PutBack(p: seq<u8>, s: seq<u8>, t: seq<u8>)
    requires |p| >= 38 && |s| == |t| == 2 && t == p[36..38]
    ensures Over(Over(p, 36, s), 36, t) == p
  {
  }

  /** p with the checksum of its ICMP message stored. */
  function Sealed(o: Order, p: Packet): (r: Packet)
    requires |p| >= 38
    ensures |r| == |p|
  {
    Over(p, 36, Store16(o, FieldChecksum(o, p[34..], 2)))
  }

  method Seal(o: Order, buf: array<u8>)
    requires buf.Length >= 38 && buf.Length % 2 == 0
    modifies buf
    ensures buf[..] == Sealed(o, old(buf[..]))
  {
    assert buf[34..34 + (buf.Length - 34)] == buf[..][34..];
    var c := IcmpChecksum(o, buf, buf.Length - 34);
    Memcpy(buf, 36, Store16(o, c));
  }

  /** Sealing touches nothing but the checksum field. */
  lemma SealedParts(o: Order, p: Packet)
    requires 38 <= |p|
    ensures Sealed(o, p)[..36] == p[..36] && Sealed(o, p)[38..] == p[38..]
  {
    hide FieldChecksum, Store16;
  }

  /** Sealing makes the message verify, within the bound of the checksum. */
  lemma {:induction false} SealedVerifies(o: Order, p: Packet)
    requires 38 <= |p| <= 131074
    ensures Verifies(o, Sealed(o, p)[34..])
  {
    var w := FieldChecksum(o, p[34..], 2);
    OverInside(p, 36, Store16(o, w), 34, |p|);
    assert WithField(o, p[34..], 2, w) == Over(p[34..], 2, Store16(o, w));
    StoredChecksumVerifies(o, p[34..], 2);
  }

  /** The code is written before the type. */
  method SetTypeAndCode(buf: array<u8>, kind: u8, code: u8)
    requires buf.Length >= 36
    modifies buf
    ensures buf[..] == Over(old(buf[..]), 34, [kind, code])
  {
    buf[35] := code;
    buf[34] := kind;
  }

  // ---------------------------------------------------------------------------------------------
  // Errors: types 3 and 11

  const ERROR_SIZE := ETHER_HDR_SIZE + IP_BASE_HDR_SIZE + ICMP_HDR_SIZE + IP_BASE_HDR_SIZE + 8

  /** The frame before its ICMP checksum is stored. Four bytes of the ICMP header are never written. */
  function ErrorBody(o: Order, inPkt: Packet, kind: u8, code: u8, from: u32, d: Draw): (r: Packet)
    requires |inPkt| >= 42
    ensures |r| == ERROR_SIZE
  {
    var withHeader := Over(Raw(d, ERROR_SIZE), 14, InitialHeader(o, from, Src(inPkt), 56, d.id, IPPROTO_ICMP));
    Over(Over(withHeader, 34, [kind, code]), 42, inPkt[14..42])
  }

  function ErrorPacket(o: Order, inPkt: Packet, kind: u8, code: u8, from: u32, d: Draw): (r: Packet)
    requires |inPkt| >= 42
    ensures |r| == ERROR_SIZE
  {
    Sealed(o, ErrorBody(o, inPkt, kind, code, from, d))
  }

  method BuildError(o: Order, inPkt: Packet, kind: u8, code: u8, from: u32, d: Draw) returns (packet: array<u8>)
    requires |inPkt| >= 42
    ensures fresh(packet) && packet[..] == ErrorPacket(o, inPkt, kind, code, from, d)
  {
    packet := Malloc(d, ERROR_SIZE);
    IpInitHdr(o, packet, from, Src(inPkt), 56, d.id, IPPROTO_ICMP);
    SetTypeAndCode(packet, kind, code);
    Memcpy(packet, 42, inPkt[14..42]);
    Seal(o, packet);
  }

  lemma FirstParts(raw: seq<u8>, h: seq<u8>, kind: seq<u8>)
    requires |raw| >= 36 && |h| == 20 && |kind| == 2
    ensures var b := Over(Over(raw, 14, h), 34, kind); b[14..34] == h && b[34..36] == kind
  {
    OverItself(raw, 14, h);
    OverElsewhere(Over(raw, 14, h), 34, kind, 14, 34);
    OverItself(Over(raw, 14, h), 34, kind);
  }

  lemma ErrorBodyParts(raw: seq<u8>, h: seq<u8>, kind: seq<u8>, quote: seq<u8>)
    requires |raw| == 42 + |quote| && |h| == 20 && |kind| == 2
    ensures var b := Over(Over(Over(raw, 14, h), 34, kind), 42, quote);
            b[14..34] == h && b[34..36] == kind && b[42..] == quote
  {
    var b := Over(Over(raw, 14, h), 34, kind);
    FirstParts(raw, h, kind);
    OverElsewhere(b, 42, quote, 14, 34);
    OverElsewhere(b, 42, quote, 34, 36);
    OverItself(b, 42, quote);
  }

  /** Parts of a frame that differs from another only in the ICMP checksum. */
  lemma MessageParts(p: Packet, r: Packet)
    requires |p| == |r| >= 42 && r[..36] == p[..36] && r[38..] == p[38..]
    ensures r[14..34] == p[14..34] && r[34] == p[34..36][0] && r[35] == p[34..36][1] && r[42..] == p[42..]
  {
    assert r[..36][14..34] == r[14..34] && p[..36][14..34] == p[14..34];
    assert r[34] == r[..36][34] && r[35] == r[..36][35];
    assert r[38..][4..] == r[42..] && p[38..][4..] == p[42..];
  }

  /** An error is 70 bytes: sent from the given address to the packet's source, quoting exactly the first 28
      bytes of its IP packet, with both checksums good. */
  lemma {:induction false} ErrorPacketIsSound(o: Order, inPkt: Packet, kind: u8, code: u8, from: u32, d: Draw)
    requires |inPkt| >= 42
    ensures var r := ErrorPacket(o, inPkt, kind, code, from, d);
            && |r| == 70 && FreshIcmpHeader(o, r, from, U32At(inPkt, 26), 56)
            && r[34] == kind && r[35] == code && r[42..] == inPkt[14..42] && Verifies(o, r[34..])
  {
    var h, body := InitialHeader(o, from, Src(inPkt), 56, d.id, IPPROTO_ICMP), ErrorBody(o, inPkt, kind, code, from, d);
    SealedVerifies(o, body);
    ErrorBodyParts(Raw(d, ERROR_SIZE), h, [kind, code], inPkt[14..42]);
    SealedParts(o, body);
    MessageParts(body, Sealed(o, body));
    HeaderFacts(o, Sealed(o, body), from, Src(inPkt), 56, d.id);
  }

  /** A frame with a fresh ICMP header says so at the places of the fields: version 4, five words, its length, don't
      fragment, TTL 64, protocol 1, the two addresses, a checksum that is right. */
  ghost predicate FreshIcmpHeader(o: Order, r: Packet, from: u32, to: u32, len: u16) {
    && |r| >= 34 && r[14] == 0x45 && r[15] == 0 && U16At(r, 16) == len && r[20] == 0x40 && r[21] == 0
    && r[22] == 64 && r[23] == 1 && U32At(r, 26) == from && U32At(r, 30) == to && Verifies(o, r[14..34])
  }

  lemma HeaderFacts(o: Order, r: Packet, from: u32, to: u32, len: u16, id: u16)
    requires |r| >= 34 && r[14..34] == InitialHeader(o, from, to, len, id, IPPROTO_ICMP)
    ensures FreshIcmpHeader(o, r, from, to, len)
  {
    hide InitialHeader, Verifies;
    var h := r[14..34];
    InitialHeaderFields(o, from, to, len, id, IPPROTO_ICMP);
    InitialHeaderVerifies(o, from, to, len, id, IPPROTO_ICMP);
    assert forall k :: 0 <= k < 20 ==> h[k] == r[14 + k];
  }

  // ---------------------------------------------------------------------------------------------
  // Echo replies: type 0

  /** Room for the fields that are read, and an even length, which the checksum insists on. IP options are
      allowed: the identifier is then taken from behind them. */
  predicate EchoFits(p: Packet) {
    |p| >= 42 && 20 <= HeaderLength(p) <= |p| - 22 && |p| % 2 == 0
  }

  function EchoBody(o: Order, inPkt: Packet, code: u8, from: u32, d: Draw): (r: Packet)
    requires EchoFits(inPkt)
    ensures |r| == |inPkt|
  {
    var len: u16, icmp := (|inPkt| - 14) % 0x1_0000, 14 + HeaderLength(inPkt);
    var withHeader := Over(Raw(d, |inPkt|), 14, InitialHeader(o, from, Src(inPkt), len, d.id, IPPROTO_ICMP));
    Over(Over(Over(withHeader, 34, [ICMP_ECHOREPLY, code]), 38, inPkt[icmp + 4..icmp + 8]), 42, inPkt[icmp + 8..])
  }

  function EchoReply(o: Order, inPkt: Packet, code: u8, from: u32, d: Draw): (r: Packet)
    requires EchoFits(inPkt)
    ensures |r| == |inPkt|
  {
    Sealed(o, EchoBody(o, inPkt, code, from, d))
  }

  method BuildEchoReply(o: Order, inPkt: Packet, code: u8, from: u32, d: Draw) returns (packet: array<u8>)
    requires EchoFits(inPkt)
    ensures fresh(packet) && packet[..] == EchoReply(o, inPkt, code, from, d)
  {
    var icmp := 14 + HeaderLength(inPkt);
    packet := Malloc(d, |inPkt|);
    IpInitHdr(o, packet, from, Src(inPkt), (|inPkt| - 14) % 0x1_0000, d.id, IPPROTO_ICMP);
    SetTypeAndCode(packet, ICMP_ECHOREPLY, code);
    ghost var typed := packet[..];
    Memcpy(packet, 38, inPkt[icmp + 4..icmp + 6]);
    Memcpy(packet, 40, inPkt[icmp + 6..icmp + 8]);
    assert inPkt[icmp + 4..icmp + 6] + inPkt[icmp + 6..icmp + 8] == inPkt[icmp + 4..icmp + 8];
    OverJoin(typed, 38, inPkt[icmp + 4..icmp + 6], inPkt[icmp + 6..icmp + 8]);
    Memcpy(packet, 42, inPkt[icmp + 8..]);
    Seal(o, packet);
  }

  /** A reply goes back to the packet's source with its identifier, sequence number and all its data. It is as
      long as the packet, and has no IP options: as many bytes of the fresh buffer follow the data as the packet
      had options. Both checksums are good, that of the message within the bound of the checksum. */
  lemma {:induction false} EchoReplyIsSound(o: Order, inPkt: Packet, code: u8, from: u32, d: Draw)
    requires EchoFits(inPkt)
    ensures var r, icmp := EchoReply(o, inPkt, code, from, d), 14 + HeaderLength(inPkt);
            && |r| == |inPkt| && FreshIcmpHeader(o, r, from, U32At(inPkt, 26), (|inPkt| - 14) % 0x1_0000)
            && r[34] == 0 && r[35] == code
            && r[38..] == inPkt[icmp + 4..] + Raw(d, |inPkt|)[|inPkt| - (icmp - 34)..]
            && (|inPkt| <= 131074 ==> Verifies(o, r[34..]))
  {
    hide Sealed, InitialHeader, Verifies, U16At, U32At, FreshIcmpHeader;
    assert Src(inPkt) == U32At(inPkt, 26);
    var len: u16, icmp := (|inPkt| - 14) % 0x1_0000, 14 + HeaderLength(inPkt);
    var h, body := InitialHeader(o, from, Src(inPkt), len, d.id, IPPROTO_ICMP), EchoBody(o, inPkt, code, from, d);
    if |inPkt| <= 131074 {
      SealedVerifies(o, body);
    }
    EchoBodyParts(Raw(d, |inPkt|), h, [ICMP_ECHOREPLY, code], inPkt[icmp + 4..icmp + 8], inPkt[icmp + 8..]);
    assert inPkt[icmp + 4..icmp + 8] + inPkt[icmp + 8..] == inPkt[icmp + 4..];
    SealedParts(o, body);
    MessageParts(body, Sealed(o, body));
    HeaderFacts(o, Sealed(o, body), from, Src(inPkt), len, d.id);
  }

  lemma EchoBodyParts(raw: seq<u8>, h: seq<u8>, kind: seq<u8>, ids: seq<u8>, data: seq<u8>)
    requires |raw| >= 42 + |data| && |h| == 20 && |kind| == 2 && |ids| == 4
    ensures var b := Over(Over(Over(Over(raw, 14, h), 34, kind), 38, ids), 42, data);
            b[14..34] == h && b[34..36] == kind && b[38..] == ids + data + raw[42 + |data|..]
  {
    var b1 := Over(raw, 14, h);
    var b2 := Over(b1, 34, kind);
    var b := Over(b2, 38, ids + data);
    FirstParts(raw, h, kind);
    OverJoin(b2, 38, ids, data);
    OverElsewhere(b2, 38, ids + data, 14, 34);
    OverElsewhere(b2, 38, ids + data, 34, 36);
    OverItself(b2, 38, ids + data);
    OverElsewhere(b2, 38, ids + data, 42 + |data|, |raw|);
    OverElsewhere(b1, 34, kind, 42 + |data|, |raw|);
    OverElsewhere(raw, 14, h, 42 + |data|, |raw|);
    assert b[38..] == b[38..42 + |data|] + b[42 + |data|..|raw|];
  }
}
