/** The routing table (rtable.c) and longest-prefix match (ip.c). */
module Routing {
  import opened Types
  import opened Rings

  datatype RtEntry = RtEntry(dest: u32, mask: u32, gw: u32, iface: Iface)

  // ---------------------------------------------------------------------------------------------
  // Masks

  /** Bitwise and, bit by bit. */
  function And(x: nat, y: nat): nat {
    if x == 0 || y == 0 then 0
    else (if x % 2 == 1 && y % 2 == 1 then 1 else 0) + 2 * And(x / 2, y / 2)
  }

  function Pow2(n: nat): (p: nat)
    ensures p > 0
  {
    if n == 0 then 1 else 2 * Pow2(n - 1)
  }

  lemma {:induction false} Pow2Order(m: nat, n: nat)
    requires m < n
    ensures Pow2(m) < Pow2(n)
  {
    if m < n - 1 {
      Pow2Order(m, n - 1);
    }
  }

  /** x shifted right by w bits. */
  function Shift(x: nat, w: nat): nat {
    if w == 0 then x else Shift(x / 2, w - 1)
  }

  /** The mask with the upper n of 32 bits set: 0xFFFFFFFF << (32 - n). */
  function PrefixMask(n: nat): int
    requires n <= 32
  {
    Pow2(32) - Pow2(32 - n)
  }

  /** The upper n of 32 bits. */
  function Prefix(x: u32, n: nat): nat
    requires n <= 32
  {
    Shift(x, 32 - n)
  }

  lemma {:induction false} AndOnes(x: nat, n: nat)
    requires x < Pow2(n)
    ensures And(x, Pow2(n) - 1) == x
  {
    if n > 0 && x > 0 {
      AndOnes(x / 2, n - 1);
      assert (Pow2(n) - 1) / 2 == Pow2(n - 1) - 1;
    }
  }

  lemma {:induction false} AndHigh(x: nat, n: nat, w: nat)
    requires x < Pow2(n + w)
    ensures Pow2(w) <= Pow2(n + w)
    ensures And(x, Pow2(n + w) - Pow2(w)) == Shift(x, w) * Pow2(w)
  {
    if w == 0 {
      AndOnes(x, n);
    } else {
      assert n + w - 1 == n + (w - 1);
      AndHigh(x / 2, n, w - 1);
      AndEven(x, Pow2(n + (w - 1)) - Pow2(w - 1));
      TwiceProduct(Shift(x / 2, w - 1), Pow2(w - 1));
    }
  }

  lemma TwiceProduct(a: nat, b: nat)
    ensures 2 * (a * b) == a * (2 * b)
  {
  }

  lemma AndEven(x: nat, half: nat)
    ensures And(x, 2 * half) == 2 * And(x / 2, half)
  {
    assert (2 * half) / 2 == half && (2 * half) % 2 == 0;
  }

  lemma TwoTo32()
    ensures Pow2(32) == 0x1_0000_0000
  {
    assert Pow2(8) == 256;
    assert Pow2(16) == 256 * Pow2(8);
    assert Pow2(24) == 256 * Pow2(16);
    assert Pow2(32) == 256 * Pow2(24);
  }

  lemma SameMultiple(a: nat, b: nat, p: nat)
    requires p > 0
    ensures a * p == b * p <==> a == b
  {
    if a < b {
      assert (a + 1) * p <= b * p;
    } else if b < a {
      assert (b + 1) * p <= a * p;
    }
  }

  /** Masking two addresses with an n-bit mask gives the same value exactly when their first n bits agree. */
  lemma {:induction false} MaskedEqual(x: u32, y: u32, n: nat)
    requires n <= 32
    ensures 0 <= PrefixMask(n) < 0x1_0000_0000
    ensures And(x, PrefixMask(n)) == And(y, PrefixMask(n)) <==> Prefix(x, n) == Prefix(y, n)
  {
    TwoTo32();
    AndHigh(x, n, 32 - n);
    AndHigh(y, n, 32 - n);
    SameMultiple(Shift(x, 32 - n), Shift(y, 32 - n), Pow2(32 - n));
  }

  /** A longer prefix is a larger mask. */
  lemma MaskOrder(m: nat, n: nat)
    requires m <= 32 && n <= 32
    ensures PrefixMask(m) < PrefixMask(n) <==> m < n
  {
    if m < n {
      Pow2Order(32 - n, 32 - m);
    } else if n < m {
      Pow2Order(32 - m, 32 - n);
    }
  }

  // ---------------------------------------------------------------------------------------------
  // Longest-prefix match

  predicate Match(e: RtEntry, dst: u32) {
    And(e.dest, e.mask) == And(dst, e.mask)
  }

  /** The entry the scan keeps: matching, no match has a larger mask, and of equal masks the last one. */
  ghost predicate Kept(table: seq<RtEntry>, dst: u32, k: int) {
    && 0 <= k < |table| && Match(table[k], dst)
    && forall j :: 0 <= j < |table| && Match(table[j], dst) ==> table[j].mask < table[k].mask
                                                                 || (table[j].mask == table[k].mask && j <= k)
  }

  ghost predicate Routed(table: seq<RtEntry>, dst: u32) {
    exists j :: 0 <= j < |table| && Match(table[j], dst)
  }

  /** The entry longest_prefix_match selects. */
  function Lpm(table: seq<RtEntry>, dst: u32): (r: Option<nat>)
    ensures r.Some? ==> Kept(table, dst, r.value)
    ensures r.None? ==> !Routed(table, dst)
  {
    if table == [] then None
    else
      var last := |table| - 1;
      var r := Lpm(table[..last], dst);
      if Match(table[last], dst) && (r.None? || table[last].mask >= table[r.value].mask) then Some(last) else r
  }

  /** A u32 stored into a signed int, and read back in a comparison with a u32. */
  function ToInt(x: u32): int {
    if x < 0x8000_0000 then x else x - 0x1_0000_0000
  }

  function ToU32(x: int): u32
    requires -0x8000_0000 <= x < 0x8000_0000
  {
    if x < 0 then x + 0x1_0000_0000 else x
  }

  /** longest_prefix_match: max_mask is a signed int, the comparison converts it back. */
  method LongestPrefixMatch(rtable: Ring<RtEntry>, dst: u32) returns (result: Option<RtEntry>)
    requires rtable.Valid()
    ensures var r := Lpm(rtable.items, dst);
            result == if r.Some? then Some(rtable.items[r.value]) else None
  {
    result := None;
    var maxMask: int := 0;
    var ele := rtable.head.next;
    ghost var i := 0;
    while ele != rtable.head
      invariant 0 <= i <= |rtable.items| && ele == rtable.After(i)
      invariant -0x8000_0000 <= maxMask < 0x8000_0000
      invariant var r := Lpm(rtable.items[..i], dst);
                if r.Some? then result == Some(rtable.items[r.value]) && ToU32(maxMask) == rtable.items[r.value].mask
                else result == None && maxMask == 0
      decreases |rtable.items| - i
    {
      var e := ele.item.value;
      assert rtable.items[..i + 1][..i] == rtable.items[..i];
      if Match(e, dst) {
        if e.mask >= ToU32(maxMask) {
          maxMask := ToInt(e.mask);
          result := Some(e);
        }
      }
      ele, i := ele.next, i + 1;
    }
    assert rtable.items[..i] == rtable.items;
  }

  // ---------------------------------------------------------------------------------------------
  // What it means

  /** Every entry's mask is a prefix mask. */
  ghost predicate Contiguous(table: seq<RtEntry>) {
    forall k :: 0 <= k < |table| ==> exists n: nat :: n <= 32 && table[k].mask == PrefixMask(n)
  }

  /** e is a route for the first n bits, and dst starts with those bits. */
  ghost predicate Covers(e: RtEntry, n: nat, dst: u32) {
    n <= 32 && e.mask == PrefixMask(n) && Prefix(e.dest, n) == Prefix(dst, n)
  }

  /** With prefix masks, comparing masks as numbers selects the longest prefix (RFC 1812, section 5.2.4.3):
      nothing exactly when no prefix covers the address, otherwise the last-listed of the longest. */
  lemma {:induction false} LpmIsLongestPrefix(table: seq<RtEntry>, dst: u32)
    requires Contiguous(table)
    ensures Lpm(table, dst).None? <==> forall j: nat, n: nat :: j < |table| ==> !Covers(table[j], n, dst)
    ensures Lpm(table, dst).Some? ==>
              var k := Lpm(table, dst).value;
              exists n: nat :: Covers(table[k], n, dst) &&
                forall j: nat, m: nat :: j < |table| && Covers(table[j], m, dst) ==> m < n || (m == n && j <= k)
  {
    forall j: nat, n: nat | j < |table| && Covers(table[j], n, dst) ensures Match(table[j], dst) {
      MaskedEqual(table[j].dest, dst, n);
    }
    if Lpm(table, dst).Some? {
      var k := Lpm(table, dst).value;
      var n: nat :| n <= 32 && table[k].mask == PrefixMask(n);
      MaskedEqual(table[k].dest, dst, n);
      forall j: nat, m: nat | j < |table| && Covers(table[j], m, dst) ensures m < n || (m == n && j <= k) {
        MaskOrder(m, n);
        MaskOrder(n, m);
      }
      assert Covers(table[k], n, dst);
    }
  }

  /** The order of the table decides nothing but which of equal prefixes is taken: the network is the same. */
  lemma {:induction false} LpmIgnoresOrder(a: seq<RtEntry>, b: seq<RtEntry>, dst: u32)
    requires multiset(a) == multiset(b)
    ensures Lpm(a, dst).Some? <==> Lpm(b, dst).Some?
    ensures Lpm(a, dst).Some? ==>
              var x, y := a[Lpm(a, dst).value], b[Lpm(b, dst).value];
              x.mask == y.mask && And(x.dest, x.mask) == And(y.dest, y.mask)
  {
    LpmAtLeast(a, b, dst);
    LpmAtLeast(b, a, dst);
  }

  lemma LpmAtLeast(a: seq<RtEntry>, b: seq<RtEntry>, dst: u32)
    requires multiset(a) == multiset(b)
    ensures Lpm(a, dst).Some? ==> Lpm(b, dst).Some? && a[Lpm(a, dst).value].mask <= b[Lpm(b, dst).value].mask
  {
    if Lpm(a, dst).Some? {
      var e := a[Lpm(a, dst).value];
      assert e in multiset(a);
      assert e in b;
      var j :| 0 <= j < |b| && b[j] == e;
      assert Routed(b, dst);
    }
  }

  /** Appending an entry changes the route of exactly those addresses it matches and that have no strictly
      larger matching mask; and then it is the new entry they get. */
  lemma {:induction false} AppendIsLocal(table: seq<RtEntry>, e: RtEntry, dst: u32)
    ensures var r, r' := Lpm(table, dst), Lpm(table + [e], dst);
            if Match(e, dst) && (r.Some? ==> table[r.value].mask <= e.mask) then r' == Some(|table|) else r' == r
  {
    assert (table + [e])[..|table|] == table;
  }

  lemma KeptIsUnique(table: seq<RtEntry>, dst: u32, j: nat, k: nat)
    requires Kept(table, dst, j) && Kept(table, dst, k)
    ensures j == k
  {
  }

  /** Removing an entry that was not selected leaves the route as it was. */
  lemma {:induction false} RemoveIsLocal(table: seq<RtEntry>, k: nat, dst: u32)
    requires k < |table| && Lpm(table, dst) != Some(k)
    ensures var r, r' := Lpm(table, dst), Lpm(Cut(table, k), dst);
            if r.None? then r'.None? else r'.Some? && Cut(table, k)[r'.value] == table[r.value]
  {
    hide Match;
    var r, cut := Lpm(table, dst), Cut(table, k);
    if r.Some? {
      var j := if r.value < k then r.value else r.value - 1;
      forall i | 0 <= i < |cut| && Match(cut[i], dst)
        ensures cut[i].mask < cut[j].mask || (cut[i].mask == cut[j].mask && i <= j)
      {
        assert cut[i] == table[if i < k then i else i + 1];
      }
      assert Kept(cut, dst, j);
      assert Routed(cut, dst);
      KeptIsUnique(cut, dst, j, Lpm(cut, dst).value);
    } else {
      forall i | 0 <= i < |cut| ensures !Match(cut[i], dst) {
        assert cut[i] == table[if i < k then i else i + 1];
      }
      assert !Routed(cut, dst);
    }
  }

  // ---------------------------------------------------------------------------------------------
  // Updates of the ring

  method AddRtEntry(rtable: Ring<RtEntry>, entry: Link<RtEntry>)
    requires rtable.Valid() && entry.item.Some? && entry.home == null
    modifies rtable, rtable.links, entry
    ensures rtable.Valid() && rtable.items == old(rtable.items) + [entry.item.value]
  {
    rtable.AddTail(entry);
  }

  method RemoveRtEntry(rtable: Ring<RtEntry>, entry: Link<RtEntry>, ghost k: nat)
    requires rtable.Valid() && k < |rtable.items| && rtable.links[k + 1] == entry
    modifies rtable, rtable.links
    ensures rtable.Valid() && rtable.items == Cut(old(rtable.items), k)
  {
    rtable.Delete(entry, k);
  }

  /** clear_rtable: unlink the first entry until the head points at itself. */
  method ClearRtable(rtable: Ring<RtEntry>)
    requires rtable.Valid()
    modifies rtable, rtable.links
    ensures rtable.Valid() && rtable.items == []
    ensures forall dst: u32 :: Lpm(rtable.items, dst) == None
  {
    while rtable.head.next != rtable.head
      invariant rtable.Valid()
      invariant forall i :: 0 <= i < |rtable.links| ==> rtable.links[i] in old(rtable.links)
      decreases |rtable.items|
    {
      assert rtable.links[0].next == rtable.After(0);
      rtable.Delete(rtable.head.next, 0);
    }
    assert rtable.links[0].next == rtable.After(0);
  }
}
