/** The table part of arpcache.c on the array it lives in. */
module TableArrays {
  import opened Types
  import opened ArpTable

  /** arpcache_init: bzero. */
  method NewTable() returns (entries: array<Entry>)
    ensures fresh(entries) && entries[..] == InitialTable()
  {
    entries := new Entry[MAX_ARP_SIZE](_ => BLANK_ENTRY);
  }

  /** arpcache_lookup: mac is overwritten at every match. */
  method LookupEntry(entries: array<Entry>, ip: u32) returns (found: bool, mac: Mac)
    ensures match Lookup(entries[..], ip) case None => !found case Some(m) => found && mac == m
  {
    found, mac := false, ZERO_MAC;
    var i := 0;
    while i < entries.Length
      invariant 0 <= i <= entries.Length
      invariant match Lookup(entries[..i], ip) case None => !found case Some(m) => found && mac == m
    {
      assert entries[..i + 1][..i] == entries[..i];
      if entries[i].ip4 == ip && entries[i].valid {
        found, mac := true, entries[i].mac;
      }
      i := i + 1;
    }
    assert entries[..i] == entries[..];
  }

  /** The first loop of arpcache_insert. */
  method RefreshEntries(entries: array<Entry>, ip: u32, mac: Mac, now: int) returns (found: bool)
    modifies entries
    ensures entries[..] == Refresh(old(entries[..]), Entry(ip, mac, now, true))
    ensures found == Holds(old(entries[..]), ip)
  {
    found := false;
    var i := 0;
    while i < entries.Length
      invariant 0 <= i <= entries.Length
      invariant forall k :: 0 <= k < entries.Length ==>
                  entries[k] == if k < i && old(entries[k].ip4) == ip then Entry(ip, mac, now, true)
                                else old(entries[k])
      invariant found <==> exists k :: 0 <= k < i && old(entries[..])[k].ip4 == ip
    {
      if entries[i].ip4 == ip {
        found := true;
        entries[i] := entries[i].(mac := mac);
        entries[i] := entries[i].(valid := true);
        entries[i] := entries[i].(added := now);
      }
      i := i + 1;
    }
  }

  /** The shift: from the last slot down, each slot takes over its neighbour; slot 0 takes the new entry. */
  method ShiftIn(entries: array<Entry>, e: Entry)
    requires entries.Length > 0
    modifies entries
    ensures entries[..] == [e] + old(entries[..])[..entries.Length - 1]
  {
    var i := entries.Length - 1;
    while i >= 1
      invariant 0 <= i < entries.Length
      invariant forall k :: 0 <= k <= i ==> entries[k] == old(entries[k])
      invariant forall k :: i < k < entries.Length ==> entries[k] == old(entries[k - 1])
    {
      entries[i] := entries[i - 1];
      i := i - 1;
    }
    entries[0] := e;
  }

  method InsertEntry(entries: array<Entry>, ip: u32, mac: Mac, now: int)
    requires entries.Length == MAX_ARP_SIZE
    modifies entries
    ensures entries[..] == Put(old(entries[..]), Entry(ip, mac, now, true))
  {
    var found := RefreshEntries(entries, ip, mac, now);
    if !found {
      assert entries[..] == old(entries[..]);
      ShiftIn(entries, Entry(ip, mac, now, true));
    }
  }

  /** The first loop of a sweep round. */
  method AgeEntries(entries: array<Entry>, now: int)
    modifies entries
    ensures entries[..] == AgeOut(old(entries[..]), now)
    ensures forall k :: 0 <= k < entries.Length ==>
              entries[k] == if now - old(entries[k].added) > 15 then old(entries[k]).(valid := false)
                            else old(entries[k])
  {
    var i := 0;
    while i < entries.Length
      invariant 0 <= i <= entries.Length
      invariant forall k :: 0 <= k < entries.Length ==>
                  entries[k] == if k < i then Aged(old(entries[k]), now) else old(entries[k])
    {
      if now - entries[i].added > ARP_ENTRY_TIMEOUT {
        entries[i] := entries[i].(valid := false);
      }
      i := i + 1;
    }
  }
}
