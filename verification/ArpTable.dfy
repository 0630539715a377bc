/** The 32-slot table of arpcache.c as a value: lookup, insertion (refresh or shift in at the front),
    ageing; and an independent account of it that never mentions slots, from which every lookup can be
    predicted. */
module ArpTable {
  import opened Types

  const MAX_ARP_SIZE := 32
  const ARP_ENTRY_TIMEOUT := 15

  datatype Entry = Entry(ip4: u32, mac: Mac, added: int, valid: bool)

  const BLANK_ENTRY := Entry(0, ZERO_MAC, 0, false)

  /** The table that bzero leaves: every slot has address 0 and is invalid. */
  function InitialTable(): (es: seq<Entry>)
    ensures |es| == MAX_ARP_SIZE
  {
    seq(MAX_ARP_SIZE, i => BLANK_ENTRY)
  }

  predicate Matches(e: Entry, ip: u32) {
    e.ip4 == ip && e.valid
  }

  /** The slot whose address the scan keeps: it overwrites its result at every match, so the last one. */
  function LastMatch(es: seq<Entry>, ip: u32): (r: Option<nat>)
    ensures r.None? ==> forall k :: 0 <= k < |es| ==> !Matches(es[k], ip)
    ensures r.Some? ==> r.value < |es| && Matches(es[r.value], ip)
    ensures r.Some? ==> forall k :: r.value < k < |es| ==> !Matches(es[k], ip)
  {
    if es == [] then None
    else if Matches(es[|es| - 1], ip) then Some(|es| - 1)
    else LastMatch(es[..|es| - 1], ip)
  }

  function Lookup(es: seq<Entry>, ip: u32): (r: Option<Mac>)
    ensures r.None? <==> forall k :: 0 <= k < |es| ==> !Matches(es[k], ip)
  {
    match LastMatch(es, ip)
    case None => None
    case Some(k) => Some(es[k].mac)
  }

  ghost predicate Holds(es: seq<Entry>, ip: u32) {
    exists k :: 0 <= k < |es| && es[k].ip4 == ip
  }

  /** Every slot with the entry's address is overwritten. */
  function Refresh(es: seq<Entry>, e: Entry): (r: seq<Entry>)
    ensures |r| == |es|
    ensures forall k :: 0 <= k < |es| ==> r[k] == if es[k].ip4 == e.ip4 then e else es[k]
  {
    seq(|es|, i requires 0 <= i < |es| => if es[i].ip4 == e.ip4 then e else es[i])
  }

  /** A missing address is placed at slot 0; everything else moves down one slot and the last falls out. */
  ghost function Put(es: seq<Entry>, e: Entry): (r: seq<Entry>)
    requires |es| == MAX_ARP_SIZE
    ensures |r| == MAX_ARP_SIZE
  {
    if Holds(es, e.ip4) then Refresh(es, e) else [e] + es[..|es| - 1]
  }

  function Aged(e: Entry, now: int): Entry {
    if now - e.added > ARP_ENTRY_TIMEOUT then e.(valid := false) else e
  }

  function AgeOut(es: seq<Entry>, now: int): (r: seq<Entry>)
    ensures |r| == |es|
    ensures forall k :: 0 <= k < |es| ==> r[k] == Aged(es[k], now)
  {
    seq(|es|, i requires 0 <= i < |es| => Aged(es[i], now))
  }

  // ---------------------------------------------------------------------------------------------
  // Histories

  /** What can happen to the table: a mapping is learned, or a sweep ages it. */
  datatype TableOp = Learned(ip: u32, mac: Mac, now: int) | Swept(now: int)

  ghost function Table(h: seq<TableOp>): (es: seq<Entry>)
    ensures |es| == MAX_ARP_SIZE
  {
    if h == [] then InitialTable()
    else
      var before := Table(h[..|h| - 1]);
      match h[|h| - 1]
      case Learned(ip, mac, now) => Put(before, Entry(ip, mac, now, true))
      case Swept(now) => AgeOut(before, now)
  }

  /** What is known of one address without looking at any slot: the newest mapping learned for it, whether
      no sweep has found that mapping too old, and how many absent addresses were learned since the address
      was last placed. */
  datatype Record = Record(mac: Mac, added: int, live: bool, overtaken: nat)

  predicate Resident(r: Option<Record>) {
    r.Some? && r.value.overtaken < MAX_ARP_SIZE
  }

  /** Address 0 counts as placed from the start, because a blank slot carries it. */
  function RecordOf(h: seq<TableOp>, ip: u32): Option<Record> {
    if h == [] then
      if ip == 0 then Some(Record(ZERO_MAC, 0, false, 0)) else None
    else
      var before := h[..|h| - 1];
      var r := RecordOf(before, ip);
      match h[|h| - 1]
      case Learned(learned, mac, now) =>
        if ip == learned then
          Some(Record(mac, now, true, if Resident(r) then r.value.overtaken else 0))
        else if Resident(RecordOf(before, learned)) || r.None? then r
        else Some(r.value.(overtaken := r.value.overtaken + 1))
      case Swept(now) =>
        if r.Some? && now - r.value.added > ARP_ENTRY_TIMEOUT then Some(r.value.(live := false)) else r
  }

  /** Slot k agrees with the account. Only address 0 may occupy slots behind its own record's position. */
  ghost predicate SlotAgrees(e: Entry, k: nat, h: seq<TableOp>) {
    var r := RecordOf(h, e.ip4);
    && r.Some? && r.value.overtaken <= k && (e.ip4 != 0 ==> r.value.overtaken == k)
    && e == Entry(e.ip4, r.value.mac, r.value.added, r.value.live)
  }

  ghost predicate AddressFound(es: seq<Entry>, h: seq<TableOp>, ip: u32)
    requires |es| == MAX_ARP_SIZE
  {
    Resident(RecordOf(h, ip)) ==> es[RecordOf(h, ip).value.overtaken].ip4 == ip
  }

  lemma AgeStep(h: seq<TableOp>, now: int)
    requires forall k :: 0 <= k < MAX_ARP_SIZE ==> SlotAgrees(Table(h)[k], k, h)
    requires forall ip: u32 :: AddressFound(Table(h), h, ip)
    ensures forall k :: 0 <= k < MAX_ARP_SIZE ==> SlotAgrees(Table(h + [Swept(now)])[k], k, h + [Swept(now)])
    ensures forall ip: u32 :: AddressFound(Table(h + [Swept(now)]), h + [Swept(now)], ip)
  {
    var h' := h + [Swept(now)];
    assert h'[..|h'| - 1] == h;
    forall k | 0 <= k < MAX_ARP_SIZE ensures SlotAgrees(Table(h')[k], k, h') {
      assert SlotAgrees(Table(h)[k], k, h);
    }
    forall ip: u32 ensures AddressFound(Table(h'), h', ip) {
      assert AddressFound(Table(h), h, ip);
    }
  }

  lemma HeldIsResident(h: seq<TableOp>, ip: u32)
    requires forall k :: 0 <= k < MAX_ARP_SIZE ==> SlotAgrees(Table(h)[k], k, h)
    requires AddressFound(Table(h), h, ip)
    ensures Holds(Table(h), ip) <==> Resident(RecordOf(h, ip))
  {
    if Holds(Table(h), ip) {
      var k :| 0 <= k < MAX_ARP_SIZE && Table(h)[k].ip4 == ip;
      assert SlotAgrees(Table(h)[k], k, h);
    }
  }

  lemma LearnStep(h: seq<TableOp>, op: TableOp)
    requires op.Learned?
    requires forall k :: 0 <= k < MAX_ARP_SIZE ==> SlotAgrees(Table(h)[k], k, h)
    requires forall ip: u32 :: AddressFound(Table(h), h, ip)
    ensures forall k :: 0 <= k < MAX_ARP_SIZE ==> SlotAgrees(Table(h + [op])[k], k, h + [op])
    ensures forall ip: u32 :: AddressFound(Table(h + [op]), h + [op], ip)
  {
    var h' := h + [op];
    var es, es' := Table(h), Table(h');
    assert h'[..|h'| - 1] == h;
    assert AddressFound(es, h, op.ip);
    HeldIsResident(h, op.ip);
    forall k | 0 <= k < MAX_ARP_SIZE ensures SlotAgrees(es'[k], k, h') {
      if Holds(es, op.ip) {
        assert SlotAgrees(es[k], k, h);
      } else if 0 < k {
        assert es'[k] == es[k - 1];
        assert SlotAgrees(es[k - 1], k - 1, h);
      }
    }
    forall ip: u32 ensures AddressFound(es', h', ip) {
      assert AddressFound(es, h, ip);
    }
  }

  /** In every reachable table each slot carries exactly the newest mapping learned for its address, and a
      non-zero address sits at the slot numbered by the absent addresses learned since it was placed. */
  lemma {:induction false} SlotLaw(h: seq<TableOp>)
    ensures forall k :: 0 <= k < MAX_ARP_SIZE ==> SlotAgrees(Table(h)[k], k, h)
    ensures forall ip: u32 :: AddressFound(Table(h), h, ip)
  {
    if h != [] {
      var before, op := h[..|h| - 1], h[|h| - 1];
      SlotLaw(before);
      assert before + [op] == h;
      if op.Learned? {
        LearnStep(before, op);
      } else {
        AgeStep(before, op.now);
      }
    }
  }

  /** FIFO eviction: a non-zero address is in slot k exactly when k absent addresses were learned since it
      was placed. So a refresh never moves it, and the 32nd such address is the one that pushes it out. */
  lemma {:induction false} EvictionLaw(h: seq<TableOp>, ip: u32, k: nat)
    requires ip != 0 && k < 32
    ensures |Table(h)| == 32
    ensures Table(h)[k].ip4 == ip <==> RecordOf(h, ip).Some? && RecordOf(h, ip).value.overtaken == k
  {
    SlotLaw(h);
    assert SlotAgrees(Table(h)[k], k, h);
    assert AddressFound(Table(h), h, ip);
  }

  /** Slots with equal addresses are equal, and only address 0 can fill more than one slot. */
  lemma {:induction false} SlotsWithOneAddress(h: seq<TableOp>, i: nat, j: nat)
    requires i < j < MAX_ARP_SIZE && Table(h)[i].ip4 == Table(h)[j].ip4
    ensures Table(h)[i] == Table(h)[j] && Table(h)[i].ip4 == 0
  {
    SlotLaw(h);
    assert SlotAgrees(Table(h)[i], i, h) && SlotAgrees(Table(h)[j], j, h);
  }

  /** Every lookup is decided by the account alone: a hit exactly when the address is resident and live,
      and then with the newest mapping. The scan order therefore never matters. */
  lemma {:induction false} LookupLaw(h: seq<TableOp>, ip: u32)
    ensures Lookup(Table(h), ip) ==
            (var r := RecordOf(h, ip); if Resident(r) && r.value.live then Some(r.value.mac) else None)
  {
    SlotLaw(h);
    var es, r := Table(h), RecordOf(h, ip);
    forall k | 0 <= k < MAX_ARP_SIZE && es[k].ip4 == ip
      ensures Resident(r) && es[k].mac == r.value.mac && es[k].valid == r.value.live
    {
      assert SlotAgrees(es[k], k, h);
    }
    assert AddressFound(es, h, ip);
  }

  /** The newest mapping learned for an address, found by reading the history backwards. */
  function Newest(h: seq<TableOp>, ip: u32): Option<TableOp> {
    if h == [] then None
    else if h[|h| - 1].Learned? && h[|h| - 1].ip == ip then Some(h[|h| - 1])
    else Newest(h[..|h| - 1], ip)
  }

  lemma {:induction false} RecordIsNewest(h: seq<TableOp>, ip: u32)
    ensures Newest(h, ip).Some? ==> Newest(h, ip).value.Learned? && RecordOf(h, ip).Some?
    ensures Newest(h, ip).Some? ==> RecordOf(h, ip).value.mac == Newest(h, ip).value.mac
    ensures Newest(h, ip).Some? ==> RecordOf(h, ip).value.added == Newest(h, ip).value.now
    ensures Newest(h, ip).None? && RecordOf(h, ip).Some? ==> !RecordOf(h, ip).value.live
  {
    if h != [] {
      RecordIsNewest(h[..|h| - 1], ip);
    }
  }

  /** Last insert wins: a hit returns the hardware address of the newest mapping learned in the run. */
  lemma {:induction false} HitReturnsNewest(h: seq<TableOp>, ip: u32)
    requires Lookup(Table(h), ip).Some?
    ensures Newest(h, ip).Some? && Newest(h, ip).value.Learned?
    ensures Lookup(Table(h), ip) == Some(Newest(h, ip).value.mac)
  {
    LookupLaw(h, ip);
    RecordIsNewest(h, ip);
  }

  /** Ageing, exactly: after a sweep at time t an address resolves if and only if it did before and its newest
      mapping is at most 15 seconds old, and then to the same hardware address. */
  lemma {:induction false} AgeingExactly(h: seq<TableOp>, t: int, ip: u32)
    ensures Lookup(Table(h + [Swept(t)]), ip)
            == if Lookup(Table(h), ip).Some? && Newest(h, ip).Some? && t - Newest(h, ip).value.now <= 15
               then Lookup(Table(h), ip) else None
    ensures Lookup(Table(h), ip).Some? ==> Newest(h, ip).Some? && Newest(h, ip).value.Learned?
  {
    LookupLaw(h, ip);
    LookupLaw(h + [Swept(t)], ip);
    RecordIsNewest(h, ip);
    assert (h + [Swept(t)])[..|h|] == h;
  }

  // ---------------------------------------------------------------------------------------------
  // One step at a time

  /** Learning a mapping makes its address resolvable and makes no other address resolvable. */
  lemma LookupAfterPut(es: seq<Entry>, e: Entry, ip: u32)
    requires |es| == MAX_ARP_SIZE && e.valid
    ensures ip == e.ip4 ==> Lookup(Put(es, e), ip) == Some(e.mac)
    ensures ip != e.ip4 && Lookup(es, ip).None? ==> Lookup(Put(es, e), ip).None?
  {
    var r := Put(es, e);
    if ip == e.ip4 {
      if Holds(es, ip) {
        var k :| 0 <= k < |es| && es[k].ip4 == ip;
        assert r[k] == e;
      } else {
        assert r[0] == e;
        assert forall j :: 0 < j < |r| ==> r[j] == es[j - 1];
      }
    } else if Lookup(es, ip).None? && !Holds(es, e.ip4) {
      assert forall j :: 0 < j < |r| ==> r[j] == es[j - 1];
    }
  }

  /** Ageing never makes an address resolvable. */
  lemma LookupAfterAgeOut(es: seq<Entry>, now: int, ip: u32)
    requires Lookup(es, ip).None?
    ensures Lookup(AgeOut(es, now), ip).None?
  {
    forall k | 0 <= k < |es| ensures !Matches(AgeOut(es, now)[k], ip) {
      assert !Matches(es[k], ip);
    }
  }
}
