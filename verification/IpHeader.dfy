/** IPv4 headers in place: ip_checksum (include/ip.h) and ip_init_hdr (ip.c). */
module IpHeaders {
  import opened Types
  import opened Checksums
  import opened Packets

  const DEFAULT_TTL: u8 := 64
  const IPPROTO_ICMP: u8 := 1

  /** The frame has a header with a checksum field, and holds it all. */
  predicate HasHeader(p: Packet) {
    34 <= |p| && 12 <= HeaderLength(p) && 14 + HeaderLength(p) <= |p|
  }

  function Header(p: Packet): seq<u8>
    requires HasHeader(p)
  {
    p[14..14 + HeaderLength(p)]
  }

  function HeaderChecksum(o: Order, p: Packet): u16
    requires HasHeader(p)
  {
    FieldChecksum(o, Header(p), 10)
  }

  /** The check a receiver makes: the checksum over the whole header is 0. */
  predicate Verifies(o: Order, region: seq<u8>) {
    Finish(Low32(WordSum(o, region))) == 0
  }

  lemma HeaderField(o: Order, p: Packet, w: u16)
    requires HasHeader(p)
    ensures HasHeader(Over(p, 24, Store16(o, w)))
    ensures Header(Over(p, 24, Store16(o, w))) == WithField(o, Header(p), 10, w)
  {
    OverInside(p, 24, Store16(o, w), 14, 14 + HeaderLength(p));
  }

  /** ip_checksum: zero the field, sum, put the field back. Every byte ends as it was. */
  method IpChecksum(o: Order, buf: array<u8>) returns (sum: u16)
    requires HasHeader(buf[..])
    modifies buf
    ensures buf[..] == old(buf[..])
    ensures sum == HeaderChecksum(o, buf[..])
  {
    ghost var was := buf[..];
    var tmp := [buf[24], buf[25]];
    HeaderField(o, was, 0);
    Memcpy(buf, 24, Store16(o, 0));
    var ihl := buf[14] % 16;
    assert buf[14..14 + ihl * 4] == Header(buf[..]);
    sum := Checksum(o, buf, 14, ihl * 4, 0);
    Memcpy(buf, 24, tmp);
    Restored(was, Store16(o, 0), tmp);
  }

  lemma Restored(p: seq<u8>, s: seq<u8>, t: seq<u8>)
    requires |p| >= 26 && |s| == |t| == 2 && t == p[24..26]
    ensures Over(Over(p, 24, s), 24, t) == p
  {
  }

  /** A header whose checksum field holds what ip_checksum computes verifies. */
  lemma {:induction false} SealedHeaderVerifies(o: Order, p: Packet)
    requires HasHeader(p)
    ensures HasHeader(Over(p, 24, Store16(o, HeaderChecksum(o, p))))
    ensures Verifies(o, Header(Over(p, 24, Store16(o, HeaderChecksum(o, p)))))
  {
    HeaderField(o, p, HeaderChecksum(o, p));
    StoredChecksumVerifies(o, Header(p), 10);
  }

  // ---------------------------------------------------------------------------------------------
  // ip_init_hdr

  /** The ten bytes before the checksum field: version and length, tos, total length, id, DF, ttl, protocol. */
  function FirstHalf(o: Order, len: u16, id: u16, proto: u8): (b: seq<u8>)
    ensures |b| == 10
  {
    [0x45, 0] + BE16(len) + Store16(o, id) + [0x40, 0] + [DEFAULT_TTL, proto]
  }

  /** The 20 bytes of a fresh header, its checksum field holding w. */
  function FreshHeader(o: Order, saddr: u32, daddr: u32, len: u16, id: u16, proto: u8, w: u16): (b: seq<u8>)
    ensures |b| == 20 && b[..10] == FirstHalf(o, len, id, proto)
    ensures b[12..16] == BE32(saddr) && b[16..20] == BE32(daddr)
  {
    FirstHalf(o, len, id, proto) + Store16(o, w) + BE32(saddr) + BE32(daddr)
  }

  /** What ip_init_hdr leaves at 14..34. */
  function InitialHeader(o: Order, saddr: u32, daddr: u32, len: u16, id: u16, proto: u8): (b: seq<u8>)
    ensures |b| == 20
  {
    var blank := FreshHeader(o, saddr, daddr, len, id, proto, 0);
    FreshHeader(o, saddr, daddr, len, id, proto, Finish(Low32(WordSum(o, blank))))
  }

  method IpInitHdr(o: Order, buf: array<u8>, saddr: u32, daddr: u32, len: u16, id: u16, proto: u8)
    requires buf.Length >= 34
    modifies buf
    ensures buf[..] == Over(old(buf[..]), 14, InitialHeader(o, saddr, daddr, len, id, proto))
  {
    ghost var was := buf[..];
    Memcpy(buf, 14, [0x45, 0]);
    Memcpy(buf, 16, BE16(len));
    OverJoin(was, 14, [0x45, 0], BE16(len));
    Memcpy(buf, 18, Store16(o, id));
    OverJoin(was, 14, [0x45, 0] + BE16(len), Store16(o, id));
    Memcpy(buf, 20, [0x40, 0]);
    OverJoin(was, 14, [0x45, 0] + BE16(len) + Store16(o, id), [0x40, 0]);
    Memcpy(buf, 22, [DEFAULT_TTL, proto]);
    OverJoin(was, 14, [0x45, 0] + BE16(len) + Store16(o, id) + [0x40, 0], [DEFAULT_TTL, proto]);
    PutAddresses(o, buf, was, saddr, daddr, len, id, proto);
  }

  method PutAddresses(
      o: Order, buf: array<u8>, ghost was: seq<u8>, saddr: u32, daddr: u32, len: u16, id: u16, proto: u8)
    requires buf.Length >= 34 && |was| == buf.Length && buf[..] == Over(was, 14, FirstHalf(o, len, id, proto))
    modifies buf
    ensures buf[..] == Over(was, 14, InitialHeader(o, saddr, daddr, len, id, proto))
  {
    Memcpy(buf, 26, BE32(saddr));
    Memcpy(buf, 30, BE32(daddr));
    ghost var half := Over(Over(Over(was, 14, FirstHalf(o, len, id, proto)), 26, BE32(saddr)), 30, BE32(daddr));
    FillField(o, was, saddr, daddr, len, id, proto, 0);
    FreshLength(o, was, saddr, daddr, len, id, proto, buf[..]);
    var c := IpChecksum(o, buf);
    FillField(o, was, saddr, daddr, len, id, proto, c);
    Memcpy(buf, 24, Store16(o, c));
  }

  /** Writing the checksum field last completes the header. */
  lemma FillField(o: Order, was: seq<u8>, saddr: u32, daddr: u32, len: u16, id: u16, proto: u8, w: u16)
    requires |was| >= 34
    ensures Over(Over(Over(Over(was, 14, FirstHalf(o, len, id, proto)), 26, BE32(saddr)), 30, BE32(daddr)),
                 24, Store16(o, w))
            == Over(was, 14, FreshHeader(o, saddr, daddr, len, id, proto, w))
  {
    FillGap(was, FirstHalf(o, len, id, proto), Store16(o, w), BE32(saddr), BE32(daddr));
  }

  lemma FillGap(was: seq<u8>, a: seq<u8>, f: seq<u8>, b: seq<u8>, c: seq<u8>)
    requires |was| >= 34 && |a| == 10 && |f| == 2 && |b| == |c| == 4
    ensures Over(Over(Over(Over(was, 14, a), 26, b), 30, c), 24, f) == Over(was, 14, a + f + b + c)
  {
    OverJoin(Over(was, 14, a), 26, b, c);
    OverSwap(Over(was, 14, a), 24, f, 26, b + c);
    OverJoin(Over(was, 14, a), 24, f, b + c);
    OverJoin(was, 14, a, f + (b + c));
    assert a + (f + (b + c)) == a + f + b + c;
  }

  lemma FreshLength(
      o: Order, was: seq<u8>, saddr: u32, daddr: u32, len: u16, id: u16, proto: u8, p: seq<u8>)
    requires |was| >= 34
    requires p == Over(Over(Over(was, 14, FirstHalf(o, len, id, proto)), 26, BE32(saddr)), 30, BE32(daddr))
    ensures HasHeader(p) && HeaderLength(p) == 20
    ensures HeaderChecksum(o, p) == Finish(Low32(WordSum(o, FreshHeader(o, saddr, daddr, len, id, proto, 0))))
  {
    assert p[14] == 0x45;
    HeaderField(o, p, 0);
    FillField(o, was, saddr, daddr, len, id, proto, 0);
    assert Header(Over(p, 24, Store16(o, 0))) == FreshHeader(o, saddr, daddr, len, id, proto, 0);
  }

  /** A fresh header, field by field: version 4, five words, length, id as drawn, don't fragment, TTL 64, protocol,
      the two addresses. */
  lemma {:induction false} InitialHeaderFields(o: Order, saddr: u32, daddr: u32, len: u16, id: u16, proto: u8)
    ensures var h := InitialHeader(o, saddr, daddr, len, id, proto);
            && |h| == 20 && h[0] == 0x45 && h[1] == 0 && U16At(h, 2) == len && Word(o, h[4], h[5]) == id
            && h[6] == 0x40 && h[7] == 0 && h[8] == 64 && h[9] == proto
            && U32At(h, 12) == saddr && U32At(h, 16) == daddr
  {
    hide Finish, WordSum;
    var h := InitialHeader(o, saddr, daddr, len, id, proto);
    assert h[..10] == FirstHalf(o, len, id, proto);
    assert forall k :: 0 <= k < 10 ==> h[k] == h[..10][k];
    assert h[12..16] == BE32(saddr) && h[16..20] == BE32(daddr);
    U32RoundTrip(h, 12, saddr);
    U32RoundTrip(h, 16, daddr);
  }

  lemma {:induction false} InitialHeaderVerifies(o: Order, saddr: u32, daddr: u32, len: u16, id: u16, proto: u8)
    ensures Verifies(o, InitialHeader(o, saddr, daddr, len, id, proto))
  {
    var blank := FreshHeader(o, saddr, daddr, len, id, proto, 0);
    StoredChecksumVerifies(o, blank, 10);
    assert WithField(o, blank, 10, 0) == blank;
    assert WithField(o, blank, 10, FieldChecksum(o, blank, 10)) == InitialHeader(o, saddr, daddr, len, id, proto);
  }
}
