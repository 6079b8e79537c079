/** The pools as the server mutates them: entries and counters updated by
    search loops. Each operation is proved to do what its function in AddressPool or
    PrefixPool says, and to keep the counters exact. */
module LivePools6 {
  import opened Bytes
  import opened Address6
  import opened Identifiers
  import opened Leases6
  import opened Pools6
  import opened AddressPool
  import opened PrefixPool

  function Count(es: seq<Entry>, state: IpState): nat
  {
    if es == [] then 0
    else Count(es[..|es| - 1], state) + if es[|es| - 1].state == state then 1 else 0
  }

  function Hit(e: Entry, state: IpState): nat
  {
    if e.state == state then 1 else 0
  }

  /** Changing one entry moves one unit between counters; in particular the counter
      of its old state was not zero. */
  lemma {:induction false} CountUpdate(es: seq<Entry>, i: nat, e: Entry, state: IpState)
    requires i < |es|
    ensures Count(es[i := e], state) + Hit(es[i], state) == Count(es, state) + Hit(e, state)
    ensures Hit(es[i], state) <= Count(es, state)
  {
    var n := |es| - 1;
    if i == n {
      assert es[i := e][..n] == es[..n];
    } else {
      CountUpdate(es[..n], i, e, state);
      assert es[i := e][..n] == es[..n][i := e];
    }
  }

  /** The test ipv6_compare(a, b) <= 0. */
  method NotAfter(a: array<uint8>, b: Address) returns (r: bool)
    requires a.Length == 16
    ensures r <==> Value(a[..]) <= Value(b)
  {
    CompareIsOrder(a[..], b);
    r := Compare(a[..], b) <= 0;
  }

  /** Increment the address unless that overflows or passes the end. */
  method StepWithin(cur: array<uint8>, end: Address) returns (more: bool)
    requires cur.Length == 16
    modifies cur
    ensures more <==> old(Value(cur[..])) + 1 <= Value(end)
    ensures more ==> Value(cur[..]) == old(Value(cur[..])) + 1
  {
    ValueBound(end);
    var ok := Increment(cur);
    if !ok { return false; }
    more := NotAfter(cur, end);
  }

  ghost predicate LaidFrom(es: seq<Entry>, start: nat)
  {
    forall i :: 0 <= i < |es| ==> FreshAddress(es[i], start + i)
  }

  /** struct ip6_pool_t. */
  class AddressTable {
    const sub: Subnet
    var entries: seq<Entry>
    var availableCount: nat
    var allocatedCount: nat
    var reservedCount: nat

    ghost predicate Valid()
      reads this
    {
      Distinct(entries) && CountersExact()
    }

    ghost predicate CountersExact()
      reads this
    {
      && availableCount == Count(entries, Available)
      && allocatedCount == Count(entries, Allocated)
      && reservedCount == Count(entries, ReservedIp)
    }

    /** ip6_pool_init. */
    constructor (sub: Subnet, table: LeaseTable)
      ensures Valid() && this.sub == sub && Started(sub, table.leases, entries)
    {
      this.sub := sub;
      entries, availableCount, allocatedCount, reservedCount := [], 0, 0, 0;
      new;
      if sub.range.Some? {
        FillRange(sub.range.value.0, sub.range.value.1);
      }
      ghost var raw := entries;
      FreshIsDistinct(raw, sub.range);
      SyncWithLeases(table);
      ReserveHosts();
    }

    /** The reservation loop of ip6_pool_init. */
    method ReserveHosts()
      requires Valid()
      modifies this
      ensures Valid() && entries == ReserveAll(old(entries), sub.hosts)
    {
      for i := 0 to |sub.hosts|
        invariant Valid() && entries == ReserveAll(old(entries), sub.hosts[..i])
      {
        assert sub.hosts[..i + 1][..i] == sub.hosts[..i];
        if sub.hosts[i].fixed.Some? { ReserveIp(sub.hosts[i].fixed.value, sub.hosts[i].text); }
      }
      assert sub.hosts[..|sub.hosts|] == sub.hosts;
    }

    /** One more entry, available. */
    method AppendAvailable(ip: Address)
      requires CountersExact()
      modifies this
      ensures CountersExact() && entries == old(entries) + [Entry(Na(ip), Available, "")]
    {
      var e := Entry(Na(ip), Available, "");
      entries := entries + [e];
      availableCount := availableCount + 1;
    }

    /** The range loop of ip6_pool_init. */
    method FillRange(start: Address, end: Address)
      requires entries == [] && availableCount == allocatedCount == reservedCount == 0
      modifies this
      ensures FreshRange(entries, start, end) && CountersExact()
    {
      var cur := new uint8[16](i requires 0 <= i < 16 => start[i]);
      assert cur[..] == start;
      var more := NotAfter(cur, end);
      while more && |entries| < MAX_POOL6_SIZE
        invariant fresh(cur) && cur.Length == 16 && CountersExact() && |entries| <= MAX_POOL6_SIZE
        invariant LaidFrom(entries, Value(start))
        invariant more ==> Value(cur[..]) == Value(start) + |entries| <= Value(end)
        invariant !more ==> |entries| == RangeSize(start, end)
        decreases MAX_POOL6_SIZE - |entries|
      {
        AppendAvailable(cur[..]);
        more := StepWithin(cur, end);
      }
    }

    /** ip6_pool_find_entry. */
    method Find(key: Key) returns (r: Option<nat>)
      ensures r == FindEntry(entries, key)
    {
      for i := 0 to |entries|
        invariant forall j :: 0 <= j < i ==> entries[j].key != key
      {
        if entries[i].key == key { return Some(i); }
      }
      return None;
    }

    /** Take entry i out of the counter of its state, as every operation starts. */
    method Uncount(i: nat)
      requires Valid() && i < |entries|
      modifies this`availableCount, this`allocatedCount, this`reservedCount
      ensures availableCount == Count(entries, Available) - Hit(entries[i], Available)
      ensures allocatedCount == Count(entries, Allocated) - Hit(entries[i], Allocated)
      ensures reservedCount == Count(entries, ReservedIp) - Hit(entries[i], ReservedIp)
    {
      CountUpdate(entries, i, entries[i], entries[i].state);
      if entries[i].state == Available && availableCount > 0 { availableCount := availableCount - 1; }
      else if entries[i].state == Allocated && allocatedCount > 0 { allocatedCount := allocatedCount - 1; }
      else if entries[i].state == ReservedIp && reservedCount > 0 { reservedCount := reservedCount - 1; }
    }

    /** Give entry i a new state and text and count it there. */
    method Recount(i: nat, e: Entry)
      requires Distinct(entries) && i < |entries| && e.key == entries[i].key
      requires availableCount == Count(entries, Available) - Hit(entries[i], Available)
      requires allocatedCount == Count(entries, Allocated) - Hit(entries[i], Allocated)
      requires reservedCount == Count(entries, ReservedIp) - Hit(entries[i], ReservedIp)
      modifies this
      ensures Valid() && entries == old(entries)[i := e]
    {
      CountUpdate(entries, i, e, Available);
      CountUpdate(entries, i, e, Allocated);
      CountUpdate(entries, i, e, ReservedIp);
      entries := entries[i := e];
      if e.state == Available { availableCount := availableCount + 1; }
      else if e.state == Allocated { allocatedCount := allocatedCount + 1; }
      else if e.state == ReservedIp { reservedCount := reservedCount + 1; }
    }

    /** ip6_pool_update_from_lease. */
    method FollowLease(l: Lease)
      requires Valid()
      modifies this
      ensures Valid() && entries == UpdateFromLease(old(entries), l)
    {
      var i := Find(Na(IpField(l.key)));
      if i.Some? {
        Uncount(i.value);
        Recount(i.value, FromLease(entries[i.value], l));
      }
    }

    /** ip6_pool_sync_with_leases. */
    method SyncWithLeases(table: LeaseTable)
      requires Valid()
      modifies this
      ensures Valid() && entries == Sync(old(entries), table.leases)
    {
      for i := 0 to |table.leases|
        invariant Valid() && entries == Sync(old(entries), table.leases[..i])
      {
        assert table.leases[..i + 1][..i] == table.leases[..i];
        FollowLease(table.leases[i]);
      }
      assert table.leases[..|table.leases|] == table.leases;
    }

    /** ip6_pool_mark_conflict. */
    method MarkConflict(key: Key, table: LeaseTable, now: nat)
      requires Valid()
      modifies this, table
      ensures Valid()
      ensures FindEntry(old(entries), key).None? ==> entries == old(entries) && table.View() == old(table.View())
      ensures FindEntry(old(entries), key).Some? ==>
        var a := SetAside(old(entries), old(table.View()), FindEntry(old(entries), key).value, now);
        entries == a.entries && table.View() == a.db
    {
      var i := Find(key);
      if i.Some? {
        Uncount(i.value);
        Recount(i.value, entries[i.value].(state := Conflict));
        table.RetireLease(key, Abandoned, now);
      }
    }

    /** ip6_pool_reserve_ip. */
    method ReserveIp(ip: Address, text: string)
      requires Valid()
      modifies this
      ensures Valid() && entries == Reserve(old(entries), ip, text)
    {
      var i := Find(Na(ip));
      if i.Some? {
        var e := entries[i.value];
        Uncount(i.value);
        Recount(i.value, e.(state := ReservedIp, text := if text == "" then e.text else Clip(text)));
      }
    }

    /** ip6_pool_release_ip: only an allocated address becomes available again, and
        nobody is left named on it; its lease is released in any case. */
    method ReleaseIp(ip: Address, table: LeaseTable, now: nat)
      requires Valid()
      modifies this, table
      ensures Valid()
      ensures var i := FindEntry(old(entries), Na(ip));
        entries == if i.Some? && old(entries)[i.value].state == Allocated
                   then old(entries)[i.value := Entry(Na(ip), Available, "")] else old(entries)
      ensures table.View() == if FindEntry(old(entries), Na(ip)).Some?
                              then Retire(old(table.View()), Na(ip), Released, now) else old(table.View())
    {
      var i := Find(Na(ip));
      if i.Some? {
        if entries[i.value].state == Allocated {
          Uncount(i.value);
          Recount(i.value, Entry(Na(ip), Available, ""));
        }
        table.RetireLease(Na(ip), Released, now);
      }
    }

    /** The search for an allocation the client already has. */
    method FindMine(text: string) returns (r: Option<nat>)
      ensures r == FindOwned(entries, text)
    {
      for i := 0 to |entries|
        invariant forall j :: 0 <= j < i ==> !(entries[j].state == Allocated && entries[j].text == text)
      {
        if entries[i].state == Allocated && entries[i].text == text { return Some(i); }
      }
      return None;
    }

    /** The loop over static hosts: the entry reserved for the client. */
    method FindHost(text: string) returns (r: Option<nat>)
      ensures r == HostEntry(sub.hosts, entries, text)
    {
      for i := 0 to |sub.hosts|
        invariant FixedFor(sub.hosts, text) == FixedFor(sub.hosts[i..], text)
      {
        var h := sub.hosts[i];
        assert sub.hosts[i..][0] == h && sub.hosts[i..][1..] == sub.hosts[i + 1..];
        if h.fixed.Some? && h.text != "" && h.text == text {
          r := Find(Na(h.fixed.value));
          return;
        }
      }
      return None;
    }

    /** Allocate entry i and record the lease, or put the entry back as available
        when the table refuses. */
    method ClaimEntry(i: nat, text: string, r: Request, table: LeaseTable) returns (granted: Option<Key>)
      requires Valid() && i < |entries| && text == Hex(r.name) && |r.name| <= DUID_MAX_LEN
      modifies this, table
      ensures Valid()
      ensures Alloc(entries, table.View(), granted) == Claim(old(entries), old(table.View()), i, r)
    {
      var e := entries[i];
      Uncount(i);
      Recount(i, e.(state := Allocated, text := Clip(text)));
      HexReadsAs(r.name);
      var ok := table.AddLease(e.key, text, r.iaid, r.now, r.secs, r.name);
      if !ok {
        Uncount(i);
        Recount(i, e.(state := Available, text := ""));
        return None;
      }
      return Some(e.key);
    }

    /** Probe entry i, then claim it. */
    method TryEntry(
      i: nat, text: string, r: Request, probe: Address -> bool, table: LeaseTable) returns (granted: Option<Key>)
      requires Valid() && i < |entries| && text == Hex(r.name) && |r.name| <= DUID_MAX_LEN
      modifies this, table
      ensures Valid()
      ensures Alloc(entries, table.View(), granted) == Try(old(entries), old(table.View()), i, r, probe)
    {
      if probe(IpField(entries[i].key)) {
        MarkConflict(entries[i].key, table, r.now);
        granted := None;
      } else {
        granted := ClaimEntry(i, text, r, table);
      }
    }

    /** The loop over available entries. */
    method ScanEntries(
      text: string, r: Request, probe: Address -> bool, table: LeaseTable) returns (granted: Option<Key>)
      requires Valid() && text == Hex(r.name) && |r.name| <= DUID_MAX_LEN
      modifies this, table
      ensures Valid()
      ensures Alloc(entries, table.View(), granted) == Scan(old(entries), old(table.View()), 0, r, probe)
    {
      ghost var goal := Scan(entries, table.View(), 0, r, probe);
      for i := 0 to |entries|
        invariant Valid() && |entries| == |old(entries)|
        invariant Scan(entries, table.View(), i, r, probe) == goal
      {
        if entries[i].state == Available {
          granted := TryEntry(i, text, r, probe, table);
          if granted.Some? { return; }
        }
      }
      return None;
    }

    /** ip6_pool_allocate. */
    method AllocateAddress(text: string, r: Request, requested: Address, probe: Address -> bool, table: LeaseTable)
      returns (granted: Option<Key>)
      requires Valid() && text == Hex(r.name) && |r.name| <= DUID_MAX_LEN
      modifies this, table
      ensures Valid()
      ensures Alloc(entries, table.View(), granted) ==
        Allocate(sub, old(entries), old(table.View()), r, requested, probe)
    {
      var host := FindHost(text);
      if host.Some? {
        granted := TryEntry(host.value, text, r, probe, table);
        return;
      }
      if text != "" {
        var mine := FindMine(text);
        if mine.Some? {
          HexReadsAs(r.name);
          var ok := table.AddLease(entries[mine.value].key, text, r.iaid, r.now, r.secs, r.name);
          return Some(entries[mine.value].key);
        }
      }
      if requested != UNSPECIFIED && InRange(sub.range, requested) {
        var wanted := Find(Na(requested));
        if wanted.Some? && entries[wanted.value].state == Available {
          granted := TryEntry(wanted.value, text, r, probe, table);
          return;
        }
      }
      granted := ScanEntries(text, r, probe, table);
    }
  }

  /** The distance between neighbouring prefixes; none for a length that cannot step. */
  function PrefixStep(plen: uint8): nat
  {
    if 1 <= plen <= 128 then Pow2(128 - plen) else 0
  }

  /** Move to the next prefix unless that overflows, stands still or passes the end. */
  method StepPrefixWithin(cur: array<uint8>, end: Address, plen: uint8) returns (more: bool)
    requires cur.Length == 16
    modifies cur
    ensures more <==> 1 <= plen <= 128 && old(Value(cur[..])) + PrefixStep(plen) <= Value(end)
    ensures more ==> Value(cur[..]) == old(Value(cur[..])) + PrefixStep(plen)
  {
    var before := cur[..];
    ValueBound(before);
    ValueBound(end);
    if 1 <= plen <= 128 { Pow2Monotone(128 - plen, 128); }
    IncrementPrefix(cur, plen);
    CompareIsOrder(cur[..], before);
    if Compare(cur[..], before) <= 0 { return false; }
    more := NotAfter(cur, end);
  }

  ghost predicate PrefixesFrom(es: seq<Entry>, start: Address, end: Address, plen: uint8)
  {
    && (forall i :: 0 <= i < |es| ==> PrefixAt(es[i].key, start, plen, i))
    && (forall i :: 0 <= i < |es| ==> es[i].state == Available && es[i].text == "")
    && (forall i :: 0 <= i < |es| ==> es[i].key.Pd? && Value(es[i].key.prefix) <= Value(end))
  }

  /** The stepping loop's state: the next prefix is at `at`, or there is none. */
  ghost predicate Filling(es: seq<Entry>, r: PdRange, more: bool, at: nat)
  {
    && PrefixesFrom(es, r.start, r.end, r.plen) && |es| <= MAX_PD_POOL_SIZE
    && (!(1 <= r.plen <= 128) && es != [] ==> !more && |es| == 1)
    && (es != [] ==> Value(r.start) <= Value(r.end))
    && if more then at == Value(r.start) + |es| * PrefixStep(r.plen) <= Value(r.end)
       else if es == [] then Value(r.start) > Value(r.end)
       else 1 <= r.plen <= 128 ==> Value(r.start) + |es| * PrefixStep(r.plen) > Value(r.end)
  }

  lemma {:induction false} FillingStep(es: seq<Entry>, r: PdRange, prefix: Address, more: bool)
    requires Filling(es, r, true, Value(prefix)) && |es| < MAX_PD_POOL_SIZE
    requires more <==> 1 <= r.plen <= 128 && Value(prefix) + PrefixStep(r.plen) <= Value(r.end)
    ensures Filling(es + [Entry(Pd(prefix, r.plen), Available, "")], r, more, Value(prefix) + PrefixStep(r.plen))
  {
    Distribute(|es|, 1, PrefixStep(r.plen));
  }

  lemma {:induction false} FillingDone(es: seq<Entry>, r: PdRange, more: bool, at: nat)
    requires Filling(es, r, more, at) && !(more && |es| < MAX_PD_POOL_SIZE)
    ensures FreshPrefixes(es, r)
  {
  }

  /** pd_pool_t. Its reserved counter is never written. */
  class PrefixTable {
    var entries: seq<Entry>
    var availableCount: nat
    var allocatedCount: nat

    ghost predicate Valid()
      reads this
    {
      Distinct(entries) && CountersExact()
    }

    ghost predicate CountersExact()
      reads this
    {
      availableCount == Count(entries, Available) && allocatedCount == Count(entries, Allocated)
    }

    /** pd_pool_init. */
    constructor (pd: Option<PdRange>, table: LeaseTable)
      ensures Valid() && StartedPd(pd, table.leases, entries)
    {
      entries, availableCount, allocatedCount := [], 0, 0;
      new;
      if pd.Some? {
        FillPrefixes(pd.value);
        ghost var raw := entries;
        SteppedIsDistinct(raw, pd.value.start, pd.value.plen);
        for i := 0 to |table.leases|
          invariant Valid() && entries == PdSync(raw, table.leases[..i])
        {
          assert table.leases[..i + 1][..i] == table.leases[..i];
          FollowLease(table.leases[i]);
        }
        assert table.leases[..|table.leases|] == table.leases;
      }
    }

    method AppendAvailable(key: Key)
      requires CountersExact()
      modifies this
      ensures CountersExact() && entries == old(entries) + [Entry(key, Available, "")]
    {
      var e := Entry(key, Available, "");
      entries := entries + [e];
      availableCount := availableCount + 1;
    }

    /** The stepping loop of pd_pool_init. */
    method FillPrefixes(r: PdRange)
      requires entries == [] && availableCount == allocatedCount == 0
      modifies this
      ensures FreshPrefixes(entries, r) && CountersExact()
    {
      var cur := new uint8[16](i requires 0 <= i < 16 => r.start[i]);
      assert cur[..] == r.start;
      var more := NotAfter(cur, r.end);
      while more && |entries| < MAX_PD_POOL_SIZE
        invariant fresh(cur) && cur.Length == 16 && CountersExact()
        invariant Filling(entries, r, more, Value(cur[..]))
        decreases MAX_PD_POOL_SIZE - |entries|
      {
        var prefix := cur[..];
        ghost var was := entries;
        AppendAvailable(Pd(prefix, r.plen));
        more := StepPrefixWithin(cur, r.end, r.plen);
        FillingStep(was, r, prefix, more);
      }
      FillingDone(entries, r, more, Value(cur[..]));
    }

    /** pd_pool_find_entry. */
    method Find(key: Key) returns (r: Option<nat>)
      ensures r == FindEntry(entries, key)
    {
      for i := 0 to |entries|
        invariant forall j :: 0 <= j < i ==> entries[j].key != key
      {
        if entries[i].key == key { return Some(i); }
      }
      return None;
    }

    /** Move entry i to a new state and keep both counters in step. */
    method Change(i: nat, e: Entry)
      requires Valid() && i < |entries| && e.key == entries[i].key
      modifies this
      ensures Valid() && entries == old(entries)[i := e]
    {
      CountUpdate(entries, i, e, Available);
      CountUpdate(entries, i, e, Allocated);
      if entries[i].state == Available && availableCount > 0 { availableCount := availableCount - 1; }
      else if entries[i].state == Allocated && allocatedCount > 0 { allocatedCount := allocatedCount - 1; }
      if e.state == Allocated { allocatedCount := allocatedCount + 1; }
      else if e.state == Available { availableCount := availableCount + 1; }
      entries := entries[i := e];
    }

    /** One lease met by the start-up pass. */
    method FollowLease(l: Lease)
      requires Valid()
      modifies this
      ensures Valid() && entries == UpdateFromPdLease(old(entries), l)
    {
      if l.key.Pd? {
        var i := Find(l.key);
        if i.Some? { Change(i.value, FromPdLease(entries[i.value], l)); }
      }
    }

    /** pd_pool_allocate. */
    method AllocatePrefix(text: string, r: Request, table: LeaseTable) returns (granted: Option<Key>)
      requires Valid() && text == Hex(r.name) && |r.name| <= DUID_MAX_LEN
      modifies this, table
      ensures Valid()
      ensures Alloc(entries, table.View(), granted) == PdAllocate(old(entries), old(table.View()), r)
    {
      for i := 0 to |entries|
        invariant Valid() && entries == old(entries) && table.View() == old(table.View())
        invariant forall j :: 0 <= j < i ==> !(entries[j].state == Allocated && entries[j].text == text)
      {
        if entries[i].state == Allocated && entries[i].text == text {
          assert FindOwned(entries, text) == Some(i);
          HexReadsAs(r.name);
          var ok := table.AddLease(entries[i].key, text, r.iaid, r.now, r.secs, r.name);
          return Some(entries[i].key);
        }
      }
      assert FindOwned(entries, text).None?;
      var victim: Option<nat> := None;
      for i := 0 to |entries|
        invariant Valid() && entries == old(entries) && table.View() == old(table.View()) && victim.None?
        invariant forall j :: 0 <= j < i ==> entries[j].state != Available
      {
        if entries[i].state == Available { victim := Some(i); break; }
      }
      assert victim == FirstAvailable(entries);
      if victim.None? { return None; }
      granted := ClaimPrefix(victim.value, text, r, table);
      if granted.Some? { table.SaveAll(); }
    }

    method ClaimPrefix(i: nat, text: string, r: Request, table: LeaseTable) returns (granted: Option<Key>)
      requires Valid() && i < |entries| && text == Hex(r.name) && |r.name| <= DUID_MAX_LEN
      modifies this, table
      ensures Valid()
      ensures Alloc(entries, table.View(), granted) == Claim(old(entries), old(table.View()), i, r)
    {
      var e := entries[i];
      Change(i, e.(state := Allocated, text := Clip(text)));
      HexReadsAs(r.name);
      var ok := table.AddLease(e.key, text, r.iaid, r.now, r.secs, r.name);
      if !ok {
        Change(i, e.(state := Available, text := ""));
        return None;
      }
      return Some(e.key);
    }

    /** pd_pool_release. */
    method ReleasePrefix(key: Key, table: LeaseTable, now: nat)
      requires Valid()
      modifies this, table
      ensures Valid()
      ensures Alloc(entries, table.View(), None) == PdRelease(old(entries), old(table.View()), key, now)
    {
      var i := Find(key);
      if i.Some? {
        var e := entries[i.value];
        if e.state == Allocated { Change(i.value, e.(state := Available, text := "")); }
        table.RetireLease(key, Released, now);
        table.SaveAll();
      }
    }
  }
}
