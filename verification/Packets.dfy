/** Byte layout of a frame: Ethernet header at 0, IPv4 header at 14, ICMP header at 34. */
module Packets {
  import opened Types

  const ETHER_HDR_SIZE := 14
  const IP_BASE_HDR_SIZE := 20
  const ICMP_HDR_SIZE := 8

  /** b with the bytes from off on overwritten by s. */
  function Over(b: seq<u8>, off: nat, s: seq<u8>): (r: seq<u8>)
    requires off + |s| <= |b|
    ensures |r| == |b|
  {
    b[..off] + s + b[off + |s|..]
  }

  /** memcpy into a buffer. */
  method Memcpy(buf: array<u8>, off: nat, s: seq<u8>)
    requires off + |s| <= buf.Length
    modifies buf
    ensures buf[..] == Over(old(buf[..]), off, s)
  {
    var i := 0;
    while i < |s|
      invariant 0 <= i <= |s|
      invariant forall k :: 0 <= k < buf.Length ==>
                  buf[k] == if off <= k < off + i then s[k - off] else old(buf[k])
    {
      buf[off + i] := s[i];
      i := i + 1;
    }
  }

  /** Adjacent writes are one write. */
  lemma OverJoin(b: seq<u8>, off: nat, s: seq<u8>, t: seq<u8>)
    requires off + |s| + |t| <= |b|
    ensures Over(Over(b, off, s), off + |s|, t) == Over(b, off, s + t)
  {
  }

  /** A later write elsewhere leaves a region as it is. */
  lemma OverElsewhere(b: seq<u8>, off: nat, s: seq<u8>, lo: nat, hi: nat)
    requires off + |s| <= |b| && lo <= hi <= |b|
    requires hi <= off || off + |s| <= lo
    ensures Over(b, off, s)[lo..hi] == b[lo..hi]
  {
  }

  /** A write inside a region is a write into the region. */
  lemma OverInside(b: seq<u8>, off: nat, s: seq<u8>, lo: nat, hi: nat)
    requires lo <= off && off + |s| <= hi <= |b|
    ensures Over(b, off, s)[lo..hi] == Over(b[lo..hi], off - lo, s)
  {
  }

  lemma OverItself(b: seq<u8>, off: nat, s: seq<u8>)
    requires off + |s| <= |b|
    ensures Over(b, off, s)[off..off + |s|] == s
  {
  }

  /** Writes to different places commute. */
  lemma OverSwap(b: seq<u8>, i: nat, s: seq<u8>, j: nat, t: seq<u8>)
    requires i + |s| <= j && j + |t| <= |b|
    ensures Over(Over(b, j, t), i, s) == Over(Over(b, i, s), j, t)
  {
  }

  lemma Slice(b: seq<u8>, lo: nat, hi: nat, i: nat, j: nat)
    requires lo <= hi <= |b| && i <= j <= hi - lo
    ensures b[lo..hi][i..j] == b[lo + i..lo + j]
  {
    forall k | 0 <= k < j - i ensures b[lo..hi][i..j][k] == b[lo + i..lo + j][k] {
      assert b[lo..hi][i + k] == b[lo + i + k];
    }
  }

  function BE16(x: u16): (b: seq<u8>)
    ensures |b| == 2
  {
    [x / 256, x % 256]
  }

  function BE32(x: u32): (b: seq<u8>)
    ensures |b| == 4
  {
    [x / 256 / 256 / 256, x / 256 / 256 % 256, x / 256 % 256, x % 256]
  }

  function Join(high: u8, low: u8): u16 {
    256 * high + low
  }

  function U16At(p: seq<u8>, i: nat): u16
    requires i + 2 <= |p|
  {
    Join(p[i], p[i + 1])
  }

  function U32At(p: seq<u8>, i: nat): u32
    requires i + 4 <= |p|
  {
    0x1_0000 * Join(p[i], p[i + 1]) + Join(p[i + 2], p[i + 3])
  }

  /** ntohl after htonl. */
  lemma U32RoundTrip(p: seq<u8>, i: nat, x: u32)
    requires i + 4 <= |p| && p[i..i + 4] == BE32(x)
    ensures U32At(p, i) == x
  {
    assert p[i] == p[i..i + 4][0] && p[i + 1] == p[i..i + 4][1];
    assert p[i + 2] == p[i..i + 4][2] && p[i + 3] == p[i..i + 4][3];
  }

  /** htonl after ntohl. */
  lemma BytesRoundTrip(p: seq<u8>, i: nat)
    requires i + 4 <= |p|
    ensures BE32(U32At(p, i)) == p[i..i + 4]
  {
    HighBytes(p[i], p[i + 1], p[i + 2], p[i + 3]);
  }

  lemma HighBytes(a: u8, b: u8, c: u8, d: u8)
    ensures var x: u32 := 0x1_0000 * Join(a, b) + Join(c, d);
            BE32(x) == [a, b, c, d]
  {
    var x: u32 := 0x1_0000 * Join(a, b) + Join(c, d);
    var ab, abc := 256 * a as int + b, 256 * (256 * a as int + b) + c;
    assert x == 256 * abc + d;
    LastByte(abc, d);
    LastByte(ab, c);
    LastByte(a as int, b);
  }

  lemma LastByte(x: nat, low: u8)
    ensures (256 * x + low) / 256 == x && (256 * x + low) % 256 == low
  {
  }

  /** Network byte order, spelled out. */
  lemma NetworkOrder(p: seq<u8>, i: nat)
    requires i + 4 <= |p|
    ensures U16At(p, i) == 256 * p[i] as int + p[i + 1] as int
    ensures U32At(p, i) == 16777216 * p[i] as int + 65536 * p[i + 1] as int + 256 * p[i + 2] as int + p[i + 3] as int
  {
  }

  /** The source address of the IP header. A frame too short to hold one is read as having address 0. */
  function Src(p: Packet): u32 {
    if |p| < 30 then 0 else U32At(p, 26)
  }

  function Dst(p: Packet): u32
    requires |p| >= 34
  {
    U32At(p, 30)
  }

  /** The header length in bytes: the low half of the first header byte, times 4. */
  function HeaderLength(p: Packet): nat
    requires |p| >= 34
  {
    (p[14] % 16) * 4
  }

  function Ttl(p: Packet): u8
    requires |p| >= 34
  {
    p[22]
  }

  /** Where the fields are. */
  lemma FieldPlaces(p: Packet)
    requires |p| >= 34
    ensures Src(p) == U32At(p, 26) && Dst(p) == U32At(p, 30) && Ttl(p) == p[22]
    ensures HeaderLength(p) == (p[14] as int % 16) * 4
  {
  }

  /** What iface_send_packet_by_arp writes before anything else: source address and type. */
  function Framed(p: Packet, mac: Mac): (r: Packet)
    ensures |r| == |p|
    ensures Src(r) == Src(p)
  {
    if |p| < 14 then p else Over(p, 6, mac + [0x08, 0x00])
  }

  /** Framing touches nothing behind the Ethernet header. */
  lemma FramedParts(p: Packet, mac: Mac)
    requires |p| >= 34
    ensures Framed(p, mac)[..6] == p[..6] && Framed(p, mac)[6..12] == mac && Framed(p, mac)[12..14] == [0x08, 0x00]
    ensures Framed(p, mac)[14..] == p[14..]
    ensures Dst(Framed(p, mac)) == Dst(p) && HeaderLength(Framed(p, mac)) == HeaderLength(p)
  {
    var r := Framed(p, mac);
    assert forall k :: 14 <= k < |p| ==> r[k] == p[k];
  }
}
