/** What the operations of the DHCPv6 lease table, address pools and prefix pools answer,
    said in terms of the leases and entries before and after alone: which entry a request
    gets and when it gets none, what is recorded, what expires. */
module Answers6 {
  import opened Bytes
  import opened Address6
  import opened Identifiers
  import opened Leases6
  import opened Pools6
  import opened AddressPool
  import opened PrefixPool
  import opened Server6

  /* ---------- the table ---------- */

  /** The key has a slot, or there is room for one more of 4096. */
  predicate Room(ls: seq<Lease>, key: Key)
  {
    Lookup(ls, key).Some? || |ls| < 4096
  }

  /** The lease the client is then given: its name unless it has none, its IAID, its end. */
  function LeaseFor(ls: seq<Lease>, key: Key, r: Request): Lease
  {
    Lease(key,
          if r.name == [] && Lookup(ls, key).Some? then Lookup(ls, key).value.duid else r.name,
          r.iaid, r.now + r.secs, Active)
  }

  /** An add succeeds exactly if there is room, records exactly that lease, and appends
      its record. */
  lemma {:induction false} AddRecords(db: Db, key: Key, r: Request, k: Key)
    ensures var d := Add(db, key, r.name, r.iaid, r.now, r.secs);
      && (d.Some? <==> Room(db.leases, key))
      && (d.Some? ==>
          && Lookup(d.value.leases, k) == (if k == key then Some(LeaseFor(db.leases, key, r)) else Lookup(db.leases, k))
          && d.value.file == db.file + [RecordOf(LeaseFor(db.leases, key, r))])
  {
    var d := Add(db, key, r.name, r.iaid, r.now, r.secs);
    if d.Some? {
      AddLookup(db, key, r.name, r.iaid, r.now, r.secs, k);
      assert Grant(Slot(db.leases, key), r.name, r.iaid, r.now + r.secs) == LeaseFor(db.leases, key, r);
    }
  }

  /** A lease given back or taken out of use: same lease, new state, ended now. */
  function Ended(l: Option<Lease>, state: LeaseState, now: nat): Option<Lease>
  {
    if l.None? then None else Some(Lease(l.value.key, l.value.duid, l.value.iaid, now, state))
  }

  lemma {:induction false} RetireRecords(db: Db, key: Key, state: LeaseState, now: nat, k: Key)
    ensures Lookup(Retire(db, key, state, now).leases, k) ==
      if k == key then Ended(Lookup(db.leases, key), state, now) else Lookup(db.leases, k)
  {
    match FindKey(db.leases, key) {
      case Some(i) => FindAfterUpdate(db.leases, i, db.leases[i].(state := state, ends := now), k);
      case None =>
    }
  }

  /** Marking expires exactly the active leases whose end has passed, slot by slot. */
  lemma {:induction false} ExpiresExactly(db: Db, now: nat, i: nat)
    requires i < |db.leases|
    ensures |MarkExpired(db, now).leases| == |db.leases|
    ensures MarkExpired(db, now).leases[i] ==
      if db.leases[i].state == Active && db.leases[i].ends < now then db.leases[i].(state := Expired) else db.leases[i]
  {
  }

  /** A clean-up drops exactly the expired and the released leases. */
  lemma {:induction false} CleanupDrops(db: Db, l: Lease)
    ensures l in Cleanup(db).leases <==> l in db.leases && l.state != Expired && l.state != Released
  {
    KeepMembers(db.leases, l);
    if |Keep(db.leases)| == |db.leases| { KeepsAll(db.leases); }
  }

  lemma {:induction false} KeepsAll(ls: seq<Lease>)
    requires |Keep(ls)| == |ls|
    ensures Keep(ls) == ls
  {
    if ls != [] {
      KeepsAll(ls[..|ls| - 1]);
      assert ls == ls[..|ls| - 1] + [ls[|ls| - 1]];
    }
  }

  /** Record i is the last readable one for its key. */
  ghost predicate LastFor(file: seq<Record>, i: nat)
  {
    && i < |file| && file[i].timed
    && forall j :: i < j < |file| && file[j].timed ==> file[j].lease.key != file[i].lease.key
  }

  /** Loading: a key found in the table has the lease of its last readable record, and
      while the table is not full every key with a readable record is found. */
  lemma {:induction false} LoadTakesLast(file: seq<Record>, i: nat)
    requires LastFor(file, i)
    ensures var l := Lookup(Replay(file), file[i].lease.key);
      (l == None || l == Some(file[i].lease)) && (|Replay(file)| < 4096 ==> l.Some?)
  {
    var n := |file| - 1;
    var rest, last, key := file[..n], file[n], file[i].lease.key;
    var ls := Replay(rest);
    if i < n {
      assert rest[i] == file[i];
      LoadTakesLast(rest, i);
      if last.timed {
        match FindKey(ls, last.lease.key) {
          case Some(j) => FindAfterUpdate(ls, j, last.lease, key);
          case None => FindAfterAppend(ls, last.lease, key);
        }
      }
    } else {
      match FindKey(ls, key) {
        case Some(j) => FindAfterUpdate(ls, j, last.lease, key);
        case None => FindAfterAppend(ls, last.lease, key);
      }
    }
  }

  /** And a key without a readable record is not found. */
  lemma {:induction false} LoadInventsNothing(file: seq<Record>, key: Key)
    requires forall j :: 0 <= j < |file| && file[j].timed ==> file[j].lease.key != key
    ensures Lookup(Replay(file), key) == None
  {
    if file != [] {
      var n := |file| - 1;
      assert forall j :: 0 <= j < n ==> file[..n][j] == file[j];
      LoadInventsNothing(file[..n], key);
      var ls, last := Replay(file[..n]), file[n].lease;
      if file[n].timed {
        match FindKey(ls, last.key) {
          case Some(j) => FindAfterUpdate(ls, j, last, key);
          case None => FindAfterAppend(ls, last, key);
        }
      }
    }
  }

  /* ---------- an entry and its lease ---------- */

  /** The state an entry takes from its lease. */
  function StateFrom(s: LeaseState): IpState
  {
    if s in {Active, Backup} then Allocated
    else if s == Reserved then ReservedIp
    else if s == Abandoned then Conflict
    else Available
  }

  /** An address entry after a synchronisation: unchanged without a lease, else in the
      lease's state, under its DUID's text if that is held or reserved and fits. */
  lemma {:induction false} SyncFollowsLease(es: seq<Entry>, ls: seq<Lease>, i: nat)
    requires Distinct(es) && AddressKeys(es) && UniqueKeys(ls) && i < |es|
    ensures var l := Lookup(ls, es[i].key);
      Sync(es, ls)[i] ==
        if l.None? then es[i]
        else Entry(es[i].key, StateFrom(l.value.state),
                   if l.value.state in {Active, Backup, Reserved} && 3 * |l.value.duid| <= 128
                   then Hex(l.value.duid) else "")
  {
    SyncAt(es, ls, i);
  }

  /** A prefix entry after start-up: the same, but the text stays with every lease that
      has a DUID, and is not touched by one that has none. */
  lemma {:induction false} PdSyncFollowsLease(es: seq<Entry>, ls: seq<Lease>, i: nat)
    requires Distinct(es) && PrefixKeys(es) && UniqueKeys(ls) && i < |es|
    ensures var l := Lookup(ls, es[i].key);
      PdSync(es, ls)[i] ==
        if l.None? then es[i]
        else Entry(es[i].key, StateFrom(l.value.state),
                   if l.value.duid == [] then es[i].text
                   else if 3 * |l.value.duid| <= 128 then Hex(l.value.duid) else "")
  {
    PdSyncAt(es, ls, i);
  }

  /* ---------- start-up ---------- */

  /** A range is laid down whole, up to 4096 addresses. */
  lemma {:induction false} RangeIsLaidDown(es: seq<Entry>, range: Option<(Address, Address)>, v: nat)
    requires Fresh(es, range)
    ensures (exists i :: 0 <= i < |es| && es[i].key.Na? && Value(es[i].key.ip) == v) <==>
      range.Some? && Value(range.value.0) <= v <= Value(range.value.1) && v < Value(range.value.0) + 4096
  {
    if range.Some? {
      var start := Value(range.value.0);
      forall i | 0 <= i < |es| ensures es[i].key.Na? && Value(es[i].key.ip) == start + i {
        assert FreshAddress(es[i], start + i);
      }
      if InSpan(range, v) && v < start + 4096 { assert FreshAddress(es[v - start], v); }
    }
  }

  /** Host h is the last with the address and a text. */
  ghost predicate LastHost(hosts: seq<Host>, key: Key, h: nat)
  {
    && h < |hosts| && hosts[h].fixed.Some? && key == Na(hosts[h].fixed.value) && hosts[h].text != ""
    && forall g :: h < g < |hosts| ==> !(hosts[g].fixed.Some? && key == Na(hosts[g].fixed.value) && hosts[g].text != "")
  }

  lemma {:induction false} ReserveTurn(es: seq<Entry>, hosts: seq<Host>, i: nat)
    requires Distinct(es) && i < |es| && hosts != []
    ensures var e, h := ReserveAll(es, hosts[..|hosts| - 1])[i], hosts[|hosts| - 1];
      ReserveAll(es, hosts)[i] ==
        if h.fixed.Some? && es[i].key == Na(h.fixed.value)
        then Entry(e.key, ReservedIp, if h.text == "" then e.text else Clip(h.text)) else e
  {
    var fs, h := ReserveAll(es, hosts[..|hosts| - 1]), hosts[|hosts| - 1];
    if h.fixed.Some? && es[i].key == Na(h.fixed.value) { assert FindEntry(fs, es[i].key) == Some(i); }
  }

  /** Every fixed address in a pool starts reserved. */
  lemma {:induction false} FixedStartsReserved(es: seq<Entry>, hosts: seq<Host>, i: nat)
    requires Distinct(es) && i < |es| && IsStatic(hosts, es[i].key)
    ensures ReserveAll(es, hosts)[i].state == ReservedIp
  {
    var n, key := |hosts| - 1, es[i].key;
    ReserveTurn(es, hosts, i);
    if !(hosts[n].fixed.Some? && key == Na(hosts[n].fixed.value)) {
      var g :| 0 <= g < |hosts| && hosts[g].fixed.Some? && key == Na(hosts[g].fixed.value);
      assert hosts[..n][g] == hosts[g];
      FixedStartsReserved(es, hosts[..n], i);
    }
  }

  /** And for the last host that names it and has a text. */
  lemma {:induction false} FixedStartsForItsHost(es: seq<Entry>, hosts: seq<Host>, i: nat, h: nat)
    requires Distinct(es) && i < |es| && LastHost(hosts, es[i].key, h)
    ensures ReserveAll(es, hosts)[i].text == Clip(hosts[h].text)
  {
    var n := |hosts| - 1;
    ReserveTurn(es, hosts, i);
    if h < n {
      assert hosts[..n][h] == hosts[h];
      assert LastHost(hosts[..n], es[i].key, h);
      FixedStartsForItsHost(es, hosts[..n], i, h);
    }
  }

  /* ---------- one entry tried ---------- */

  /** Entry i is the first with the key. */
  ghost predicate FirstWith(es: seq<Entry>, key: Key, i: nat)
  {
    i < |es| && es[i].key == key && forall j :: 0 <= j < i ==> es[j].key != key
  }

  /** Entry i is the first allocated under the text. */
  ghost predicate FirstUnder(es: seq<Entry>, text: string, i: nat)
  {
    && i < |es| && es[i].state == Allocated && es[i].text == text
    && forall j :: 0 <= j < i ==> !(es[j].state == Allocated && es[j].text == text)
  }

  /** What becomes of an entry that is tried for a client: set aside if the probe is
      answered, allocated to the client if the lease can be recorded, else free. */
  function Tried(e: Entry, ls: seq<Lease>, r: Request, probe: Address -> bool): Entry
  {
    if probe(IpField(e.key)) then Entry(e.key, Conflict, e.text)
    else if Room(ls, e.key) then Entry(e.key, Allocated, Clip(Hex(r.name)))
    else Entry(e.key, Available, "")
  }

  /** Whether it is granted. */
  predicate Gets(e: Entry, ls: seq<Lease>, probe: Address -> bool)
  {
    !probe(IpField(e.key)) && Room(ls, e.key)
  }

  /** Entry i was tried, and only it: granted or not, it and its lease are changed as
      they should be and everything else is as before. */
  ghost predicate OneTried(es: seq<Entry>, db: Db, i: nat, r: Request, probe: Address -> bool, a: Alloc)
    requires i < |es|
  {
    && a.granted == (if Gets(es[i], db.leases, probe) then Some(es[i].key) else None)
    && a.entries == es[i := Tried(es[i], db.leases, r, probe)]
    && (forall k :: k != es[i].key ==> Lookup(a.db.leases, k) == Lookup(db.leases, k))
    && Lookup(a.db.leases, es[i].key) ==
       (if probe(IpField(es[i].key)) then Ended(Lookup(db.leases, es[i].key), Abandoned, r.now)
        else if Room(db.leases, es[i].key) then Some(LeaseFor(db.leases, es[i].key, r))
        else None)
  }

  lemma {:induction false} TryAnswers(es: seq<Entry>, db: Db, i: nat, r: Request, probe: Address -> bool)
    requires i < |es|
    ensures OneTried(es, db, i, r, probe, Try(es, db, i, r, probe))
  {
    var key := es[i].key;
    forall k
      ensures k != key ==> Lookup(Try(es, db, i, r, probe).db.leases, k) == Lookup(db.leases, k)
    {
      AddRecords(db, key, r, k);
      RetireRecords(db, key, Abandoned, r.now, k);
    }
    AddRecords(db, key, r, key);
    RetireRecords(db, key, Abandoned, r.now, key);
  }

  /* ---------- ip6_pool_allocate ---------- */

  /** The client has a reservation that lies in the pool. */
  ghost predicate ReservedHere(sub: Subnet, es: seq<Entry>, text: string)
  {
    exists h: nat, i :: ReservedFor(sub.hosts, text, h) && 0 <= i < |es| && es[i].key == Na(sub.hosts[h].fixed.value)
  }

  /** The client has an entry under its text. */
  ghost predicate OwnHere(es: seq<Entry>, name: seq<uint8>)
  {
    name != [] && exists i :: 0 <= i < |es| && es[i].state == Allocated && es[i].text == Hex(name)
  }

  /** Entry i is the requested one, in range and available. */
  ghost predicate AskedFor(sub: Subnet, es: seq<Entry>, requested: Address, i: nat)
  {
    && requested != UNSPECIFIED && FirstWith(es, Na(requested), i) && es[i].state == Available
    && sub.range.Some? && Value(sub.range.value.0) <= Value(requested) <= Value(sub.range.value.1)
  }

  lemma {:induction false} HostEntryAt(sub: Subnet, es: seq<Entry>, text: string, h: nat, i: nat)
    requires ReservedFor(sub.hosts, text, h) && FirstWith(es, Na(sub.hosts[h].fixed.value), i)
    ensures HostEntry(sub.hosts, es, text) == Some(i)
  {
    var g := FixedForMeans(sub.hosts, text);
    ReservedOnce(sub.hosts, text, g, h);
  }

  lemma {:induction false} NoHostEntry(sub: Subnet, es: seq<Entry>, text: string)
    requires !ReservedHere(sub, es, text)
    ensures HostEntry(sub.hosts, es, text) == None
  {
    var g := FixedForMeans(sub.hosts, text);
  }

  lemma {:induction false} WantedAt(sub: Subnet, es: seq<Entry>, requested: Address, i: nat)
    requires AskedFor(sub, es, requested, i)
    ensures Wanted(sub, es, requested) == Some(i)
  {
    CompareIsOrder(requested, sub.range.value.0);
    CompareIsOrder(requested, sub.range.value.1);
  }

  lemma {:induction false} NotWanted(sub: Subnet, es: seq<Entry>, requested: Address)
    requires forall i: nat :: !AskedFor(sub, es, requested, i)
    ensures Wanted(sub, es, requested) == None
  {
    if sub.range.Some? {
      CompareIsOrder(requested, sub.range.value.0);
      CompareIsOrder(requested, sub.range.value.1);
    }
    var i := Wanted(sub, es, requested);
    assert i.Some? ==> AskedFor(sub, es, requested, i.value);
  }

  /** First priority: a client whose first reservation lies in the pool is granted that
      address or nothing, and nothing only if the probe is answered or there is no room
      for the lease. */
  lemma {:induction false} ReservationComesFirst(
    sub: Subnet, es: seq<Entry>, db: Db, r: Request, requested: Address, probe: Address -> bool, h: nat, i: nat)
    requires ReservedFor(sub.hosts, Hex(r.name), h) && FirstWith(es, Na(sub.hosts[h].fixed.value), i)
    ensures OneTried(es, db, i, r, probe, Allocate(sub, es, db, r, requested, probe))
  {
    HostEntryAt(sub, es, Hex(r.name), h, i);
    assert Allocate(sub, es, db, r, requested, probe) == Try(es, db, i, r, probe);
    TryAnswers(es, db, i, r, probe);
  }

  /** Second: without one, a client with an entry under its text is granted the first
      such entry, always, and no entry changes; the lease is recorded if there is room. */
  lemma {:induction false} OwnComesSecond(
    sub: Subnet, es: seq<Entry>, db: Db, r: Request, requested: Address, probe: Address -> bool, i: nat, k: Key)
    requires !ReservedHere(sub, es, Hex(r.name)) && r.name != [] && FirstUnder(es, Hex(r.name), i)
    ensures var a := Allocate(sub, es, db, r, requested, probe);
      && a.granted == Some(es[i].key) && a.entries == es
      && Lookup(a.db.leases, k) ==
         (if k == es[i].key && Room(db.leases, k) then Some(LeaseFor(db.leases, k, r)) else Lookup(db.leases, k))
  {
    NoHostEntry(sub, es, Hex(r.name));
    assert FindOwned(es, Hex(r.name)) == Some(i);
    AddRecords(db, es[i].key, r, k);
  }

  /** Third: without either, a client that asks for an address in range and available is
      granted that address or nothing, and nothing only as above. */
  lemma {:induction false} RequestComesThird(
    sub: Subnet, es: seq<Entry>, db: Db, r: Request, requested: Address, probe: Address -> bool, i: nat)
    requires !ReservedHere(sub, es, Hex(r.name)) && !OwnHere(es, r.name) && AskedFor(sub, es, requested, i)
    ensures OneTried(es, db, i, r, probe, Allocate(sub, es, db, r, requested, probe))
  {
    NoHostEntry(sub, es, Hex(r.name));
    WantedAt(sub, es, requested, i);
    assert Allocate(sub, es, db, r, requested, probe) == Try(es, db, i, r, probe);
    TryAnswers(es, db, i, r, probe);
  }

  /** An entry the scan can grant. */
  predicate Free(e: Entry, ls: seq<Lease>, probe: Address -> bool)
  {
    e.state == Available && Gets(e, ls, probe)
  }

  /** Entry k is the first the scan can grant from i on; k == |es| if there is none. */
  ghost predicate FirstFree(es: seq<Entry>, ls: seq<Lease>, probe: Address -> bool, i: nat, k: nat)
  {
    && i <= k <= |es| && (k < |es| ==> Free(es[k], ls, probe))
    && forall j :: i <= j < k ==> !Free(es[j], ls, probe)
  }

  ghost predicate SameRoom(ls: seq<Lease>, ms: seq<Lease>)
  {
    forall k :: Room(ls, k) == Room(ms, k)
  }

  /** A try that grants nothing changes no key's chances. */
  lemma {:induction false} TryKeepsRoom(es: seq<Entry>, db: Db, i: nat, r: Request, probe: Address -> bool)
    requires i < |es| && Try(es, db, i, r, probe).granted.None?
    ensures SameRoom(db.leases, Try(es, db, i, r, probe).db.leases)
  {
    TryAnswers(es, db, i, r, probe);
  }

  /** What a scan from i on leaves of entry j, k being the first it can grant. */
  function Scanned(es: seq<Entry>, ls: seq<Lease>, r: Request, probe: Address -> bool, i: nat, j: nat, k: nat): Entry
    requires j < |es|
  {
    if i <= j <= k && es[j].state == Available then Tried(es[j], ls, r, probe) else es[j]
  }

  lemma {:induction false} ScanAnswers(
    es: seq<Entry>, db: Db, i: nat, r: Request, probe: Address -> bool, k: nat, j: nat)
    requires FirstFree(es, db.leases, probe, i, k) && j < |es|
    ensures Scan(es, db, i, r, probe).granted == if k < |es| then Some(es[k].key) else None
    ensures Scan(es, db, i, r, probe).entries[j] == Scanned(es, db.leases, r, probe, i, j, k)
    decreases |es| - i
  {
    if i < |es| {
      if es[i].state != Available {
        ScanAnswers(es, db, i + 1, r, probe, k, j);
      } else {
        var a := Try(es, db, i, r, probe);
        TryAnswers(es, db, i, r, probe);
        if a.granted.None? {
          TryKeepsRoom(es, db, i, r, probe);
          forall n | i < n < |es|
            ensures a.entries[n] == es[n] && Free(es[n], a.db.leases, probe) == Free(es[n], db.leases, probe)
          {
          }
          ScanAnswers(a.entries, a.db, i + 1, r, probe, k, j);
        }
      }
    }
  }

  /** Last: otherwise the first available address that answers no probe and whose lease
      can be recorded is granted, and nothing exactly if there is none; of those passed
      over, the ones that answered are set aside, and every other entry stays. */
  lemma {:induction false} FreeComesLast(
    sub: Subnet, es: seq<Entry>, db: Db, r: Request, requested: Address, probe: Address -> bool, k: nat, j: nat)
    requires !ReservedHere(sub, es, Hex(r.name)) && !OwnHere(es, r.name)
    requires forall i: nat :: !AskedFor(sub, es, requested, i)
    requires FirstFree(es, db.leases, probe, 0, k) && j < |es|
    ensures var a := Allocate(sub, es, db, r, requested, probe);
      && a.granted == (if k < |es| then Some(es[k].key) else None)
      && a.entries[j] == Scanned(es, db.leases, r, probe, 0, j, k)
  {
    NoHostEntry(sub, es, Hex(r.name));
    NotWanted(sub, es, requested);
    assert Allocate(sub, es, db, r, requested, probe) == Scan(es, db, 0, r, probe);
    ScanAnswers(es, db, 0, r, probe, k, j);
  }

  lemma {:induction false} ScanRecords(es: seq<Entry>, db: Db, i: nat, r: Request, probe: Address -> bool)
    requires i <= |es|
    ensures var a := Scan(es, db, i, r, probe);
      a.granted.Some? ==>
        var l := Lookup(a.db.leases, a.granted.value);
        l.Some? && l.value.iaid == r.iaid && l.value.ends == r.now + r.secs && l.value.state == Active
    decreases |es| - i
  {
    if i < |es| {
      if es[i].state != Available {
        ScanRecords(es, db, i + 1, r, probe);
      } else {
        var a := Try(es, db, i, r, probe);
        TryAnswers(es, db, i, r, probe);
        if a.granted.None? { ScanRecords(a.entries, a.db, i + 1, r, probe); }
      }
    }
  }

  /** Whatever branch granted it, the address is on record as active, for the IAID and
      the time asked for; only a client's own entry may go unrecorded, for want of room. */
  lemma {:induction false} GrantIsOnRecord(
    sub: Subnet, es: seq<Entry>, db: Db, r: Request, requested: Address, probe: Address -> bool)
    ensures var a := Allocate(sub, es, db, r, requested, probe);
      a.granted.Some? ==>
        var l := Lookup(a.db.leases, a.granted.value);
        || (l.Some? && l.value.iaid == r.iaid && l.value.ends == r.now + r.secs && l.value.state == Active)
        || (!Room(db.leases, a.granted.value) && a.entries == es && a.db == db)
  {
    var host, mine, wanted :=
      HostEntry(sub.hosts, es, Hex(r.name)), FindOwned(es, Hex(r.name)), Wanted(sub, es, requested);
    if host.Some? {
      TryAnswers(es, db, host.value, r, probe);
    } else if r.name != [] && mine.Some? {
      AddRecords(db, es[mine.value].key, r, es[mine.value].key);
    } else if wanted.Some? {
      TryAnswers(es, db, wanted.value, r, probe);
    } else {
      ScanRecords(es, db, 0, r, probe);
    }
  }

  /* ---------- pd_pool_allocate and pd_pool_release ---------- */

  /** A client with a prefix under its text is delegated the first such one, always. */
  lemma {:induction false} PdOwnComesFirst(es: seq<Entry>, db: Db, r: Request, i: nat, k: Key)
    requires FirstUnder(es, Hex(r.name), i)
    ensures var a := PdAllocate(es, db, r);
      && a.granted == Some(es[i].key) && a.entries == es
      && Lookup(a.db.leases, k) ==
         (if k == es[i].key && Room(db.leases, k) then Some(LeaseFor(db.leases, k, r)) else Lookup(db.leases, k))
  {
    assert FindOwned(es, Hex(r.name)) == Some(i);
    AddRecords(db, es[i].key, r, k);
  }

  /** Entry i is the first available one. */
  ghost predicate FirstAvailableAt(es: seq<Entry>, i: nat)
  {
    i < |es| && es[i].state == Available && forall j :: 0 <= j < i ==> es[j].state != Available
  }

  /** Otherwise the first available prefix is delegated if its lease can be recorded, and
      then the file is a full save; if not, nothing is and nothing changes but the text
      of that entry. */
  lemma {:induction false} PdFreeComesNext(es: seq<Entry>, db: Db, r: Request, i: nat, k: Key)
    requires (forall j :: 0 <= j < |es| ==> !(es[j].state == Allocated && es[j].text == Hex(r.name)))
    requires FirstAvailableAt(es, i)
    ensures var a, key := PdAllocate(es, db, r), es[i].key;
      if Room(db.leases, key) then
        && a.granted == Some(key) && a.entries == es[i := Entry(key, Allocated, Clip(Hex(r.name)))]
        && Lookup(a.db.leases, k) == (if k == key then Some(LeaseFor(db.leases, key, r)) else Lookup(db.leases, k))
        && a.db.file == Records(a.db.leases)
      else a == Alloc(es[i := Entry(key, Available, "")], db, None)
  {
    assert FirstAvailable(es) == Some(i);
    AddRecords(db, es[i].key, r, k);
  }

  /** And without an available one nothing is delegated and nothing changes. */
  lemma {:induction false} PdNoneLeft(es: seq<Entry>, db: Db, r: Request)
    requires forall j :: 0 <= j < |es| ==> es[j].state != Available
    requires (forall j :: 0 <= j < |es| ==> !(es[j].state == Allocated && es[j].text == Hex(r.name)))
    ensures PdAllocate(es, db, r) == Alloc(es, db, None)
  {
  }

  /** So a prefix is delegated exactly if the client has one under its text, or the first
      available one can be recorded. */
  lemma {:induction false} PdGrantsWhen(es: seq<Entry>, db: Db, r: Request)
    ensures PdAllocate(es, db, r).granted.Some? <==>
      || (exists i :: 0 <= i < |es| && es[i].state == Allocated && es[i].text == Hex(r.name))
      || (exists i: nat :: FirstAvailableAt(es, i) && Room(db.leases, es[i].key))
  {
    if FindOwned(es, Hex(r.name)).None? && FirstAvailable(es).Some? {
      PdFreeComesNext(es, db, r, FirstAvailable(es).value, es[FirstAvailable(es).value].key);
    }
  }

  /** A prefix of the pool is given back: its entry, if allocated, is free again, its
      lease released now, and nothing else changes; a foreign prefix changes nothing. */
  lemma {:induction false} PdReleaseAnswers(es: seq<Entry>, db: Db, key: Key, now: nat, j: nat, k: Key)
    requires j < |es|
    ensures var a, here := PdRelease(es, db, key, now), exists i :: 0 <= i < |es| && es[i].key == key;
      && a.entries[j] ==
         (if FirstWith(es, key, j) && es[j].state == Allocated then Entry(key, Available, "") else es[j])
      && Lookup(a.db.leases, k) ==
         (if here && k == key then Ended(Lookup(db.leases, key), Released, now) else Lookup(db.leases, k))
  {
    RetireRecords(db, key, Released, now, k);
    match FindEntry(es, key) {
      case Some(i) => assert es[i].key == key;
      case None =>
    }
  }

  /* ---------- whole steps of the server ---------- */

  /** The senders served by subnet 0 whatever their address: those in fe80::/10. */
  lemma {:induction false} LinkLocalIsAPrefix(ip: Address, prefix: Address)
    requires prefix == [0xfe, 0x80] + seq(14, _ => 0)
    ensures IsLinkLocal(ip) <==> InSubnet(ip, prefix, 10)
  {
    assert ip[..1] == [ip[0]] && prefix[..1] == [0xfe];
    assert Pow2(6) == 64 by { assert Pow2(3) == 8; Pow2Add(3, 3); }
    QuotBounds(ip[1], 64);
    QuotBounds(0x80, 64);
  }

  /** The address and the prefix a packet names. */
  predicate NamesAddress(p: Packet, key: Key)
  {
    p.na.Some? && key == Na(p.na.value.ip)
  }

  predicate NamesPrefix(p: Packet, key: Key)
  {
    p.pd.Some? && key == Pd(p.pd.value.prefix, p.pd.value.plen)
  }

  lemma {:induction false} ReleasedAddress(s: State, p: Packet, i: nat, now: nat, k: Key)
    requires |s.pools| == |s.pds| && p.msg == 8
    ensures var t := GiveBackNa(s, p, i, now);
      && t.pools == s.pools && t.pds == s.pds
      && Lookup(t.db.leases, k) ==
         if NamesAddress(p, k) then Ended(Lookup(s.db.leases, k), Released, now) else Lookup(s.db.leases, k)
  {
    if p.na.Some? { RetireRecords(s.db, Na(p.na.value.ip), Released, now, k); }
  }

  /** RELEASE: the lease on the named address is released now, and so is the one on the
      named prefix if the sender's pool has that prefix; no other lease changes. */
  lemma {:induction false} ReleaseEndsLeases(
    cfg: seq<Subnet>, s: State, p: Packet, now: nat, probe: Address -> bool, i: nat, k: Key)
    requires |s.pools| == |s.pds| == |cfg| && p.msg == 8 && i == FindSubnet(cfg, p.src, 0)
    ensures var o := Step(cfg, s, Receive(p, now, probe));
      && o.na.None? && o.pd.None? && o.state.pools == s.pools
      && Lookup(o.state.db.leases, k) ==
         (if NamesAddress(p, k)
          || (NamesPrefix(p, k) && i < |cfg| && exists j :: 0 <= j < |s.pds[i]| && s.pds[i][j].key == k)
          then Ended(Lookup(s.db.leases, k), Released, now) else Lookup(s.db.leases, k))
  {
    var t := GiveBackNa(s, p, i, now);
    ReleasedAddress(s, p, i, now, k);
    if p.pd.Some? && i < |cfg| {
      var key := Pd(p.pd.value.prefix, p.pd.value.plen);
      RetireRecords(t.db, key, Released, now, k);
      match FindEntry(s.pds[i], key) {
        case Some(j) => assert s.pds[i][j].key == key;
        case None =>
      }
    }
  }

  /** And of the prefix entries, the named one in the sender's pool is free again if it
      was allocated; no other entry changes. */
  lemma {:induction false} ReleaseFreesPrefix(
    cfg: seq<Subnet>, s: State, p: Packet, now: nat, probe: Address -> bool, i: nat, n: nat, j: nat)
    requires |s.pools| == |s.pds| == |cfg| && p.msg == 8 && i == FindSubnet(cfg, p.src, 0)
    requires n < |s.pds| && j < |s.pds[n]|
    ensures var o, e := Step(cfg, s, Receive(p, now, probe)), s.pds[n][j];
      o.state.pds[n][j] ==
        if n == i && NamesPrefix(p, e.key) && FirstWith(s.pds[n], e.key, j) && e.state == Allocated
        then Entry(e.key, Available, "") else e
  {
    if p.pd.Some? && i < |cfg| {
      var t, key := GiveBackNa(s, p, i, now), Pd(p.pd.value.prefix, p.pd.value.plen);
      assert t.pds == s.pds;
      if n == i { PdReleaseAnswers(s.pds[i], t.db, key, now, j, key); }
    }
  }

  /** The sender's pool has the address it declines, and the table is not empty. */
  ghost predicate Declines(cfg: seq<Subnet>, s: State, p: Packet, i: nat, key: Key)
    requires |s.pools| == |cfg|
  {
    NamesAddress(p, key) && s.db.leases != [] && i < |cfg| && FindEntry(s.pools[i], key).Some?
  }

  /** DECLINE: the lease on the named address, if the sender's pool has it, is abandoned
      now; no other lease and no prefix entry changes. */
  lemma {:induction false} DeclineAbandonsLease(
    cfg: seq<Subnet>, s: State, p: Packet, now: nat, probe: Address -> bool, i: nat, k: Key)
    requires |s.pools| == |s.pds| == |cfg| && p.msg == 9 && i == FindSubnet(cfg, p.src, 0)
    ensures var o := Step(cfg, s, Receive(p, now, probe));
      && o.na.None? && o.pd.None? && o.state.pds == s.pds
      && Lookup(o.state.db.leases, k) ==
         (if Declines(cfg, s, p, i, k) then Ended(Lookup(s.db.leases, k), Abandoned, now) else Lookup(s.db.leases, k))
  {
    if p.na.Some? { RetireRecords(s.db, Na(p.na.value.ip), Abandoned, now, k); }
  }

  /** And its entry is set aside as in conflict; no other address entry changes. */
  lemma {:induction false} DeclineSetsAside(
    cfg: seq<Subnet>, s: State, p: Packet, now: nat, probe: Address -> bool, i: nat, n: nat, j: nat)
    requires |s.pools| == |s.pds| == |cfg| && p.msg == 9 && i == FindSubnet(cfg, p.src, 0)
    requires n < |s.pools| && j < |s.pools[n]|
    ensures var o, e := Step(cfg, s, Receive(p, now, probe)), s.pools[n][j];
      o.state.pools[n][j] ==
        if n == i && Declines(cfg, s, p, i, e.key) && FirstWith(s.pools[n], e.key, j)
        then Entry(e.key, Conflict, e.text) else e
  {
  }

  /** SOLICIT, REQUEST, RENEW and REBIND: the address part is what the sender's address
      pool answers to the client's name and IAID, and the prefix part what its prefix
      pool then answers; for a sender without a subnet there is nothing. */
  lemma {:induction false} RequestsGoToThePools(
    cfg: seq<Subnet>, s: State, p: Packet, now: nat, probe: Address -> bool, i: nat)
    requires |s.pools| == |s.pds| == |cfg| && p.msg in {1, 3, 5, 6} && i == FindSubnet(cfg, p.src, 0)
    ensures var o := Step(cfg, s, Receive(p, now, probe));
      if i >= |cfg| then o == Outcome(s, None, None)
      else
        var name := if |p.duid| <= 85 then p.duid else [];
        var a := if p.na.None? then Alloc(s.pools[i], s.db, None)
                 else Allocate(cfg[i], s.pools[i], s.db, Request(name, p.na.value.iaid, now, cfg[i].leaseTime),
                               p.na.value.ip, probe);
        var b := if p.pd.None? then Alloc(s.pds[i], a.db, None)
                 else PdAllocate(s.pds[i], a.db, Request(name, p.pd.value.iaid, now, cfg[i].leaseTime));
        o == Outcome(State(b.db, s.pools[i := a.entries], s.pds[i := b.entries]), a.granted, b.granted)
  {
    if i < |cfg| {
      assert s.pools[i := s.pools[i]] == s.pools && s.pds[i := s.pds[i]] == s.pds;
    }
  }

  /** Every other message type changes nothing and grants nothing. */
  lemma {:induction false} OtherMessagesChangeNothing(
    cfg: seq<Subnet>, s: State, p: Packet, now: nat, probe: Address -> bool)
    requires |s.pools| == |s.pds| == |cfg| && p.msg !in {1, 3, 5, 6, 8, 9}
    ensures Step(cfg, s, Receive(p, now, probe)) == Outcome(s, None, None)
  {
  }

  /** Some lease's time is up. */
  ghost predicate SomeOverdue(ls: seq<Lease>, now: nat)
  {
    exists i :: 0 <= i < |ls| && ls[i].state == Active && ls[i].ends < now
  }

  /** A clean-up turn, if the time of some active lease is up, drops exactly the leases
      whose time is up, the expired and the released; otherwise it drops none. */
  lemma {:induction false} CleanUpDropsExactly(cfg: seq<Subnet>, s: State, now: nat, l: Lease)
    requires |s.pools| == |s.pds| == |cfg|
    ensures var o := Step(cfg, s, CleanUp(now)).state;
      && (SomeOverdue(s.db.leases, now) ==>
          (l in o.db.leases <==>
           l in s.db.leases && l.state != Expired && l.state != Released && !(l.state == Active && l.ends < now)))
      && (!SomeOverdue(s.db.leases, now) ==> o.db.leases == s.db.leases)
      && o.pds == s.pds && o.db.file == Records(o.db.leases)
  {
    var marked := MarkExpired(s.db, now);
    if SomeOverdue(s.db.leases, now) {
      CleanupDrops(marked, l);
      if l.state != Expired { MarkedMembers(s.db, now, l); }
      assert exists i :: 0 <= i < |s.db.leases| && Overdue(s.db.leases[i], now);
    } else {
      assert !exists i :: 0 <= i < |s.db.leases| && Overdue(s.db.leases[i], now);
    }
  }

  lemma {:induction false} MarkedMembers(db: Db, now: nat, l: Lease)
    requires l.state != Expired
    ensures l in MarkExpired(db, now).leases <==> l in db.leases && !(l.state == Active && l.ends < now)
  {
    forall i | 0 <= i < |db.leases|
      ensures MarkExpired(db, now).leases[i] == l <==> db.leases[i] == l && !(l.state == Active && l.ends < now)
    {
      ExpiresExactly(db, now, i);
    }
    if l in db.leases && !(l.state == Active && l.ends < now) {
      var i :| 0 <= i < |db.leases| && db.leases[i] == l;
      assert MarkExpired(db, now).leases[i] == l;
    }
  }

  /** So after a turn no lease is active past its end, and whoever held a key by a lease
      whose time is not up, or a backup one, still does. */
  lemma {:induction false} CleanUpIsExact(cfg: seq<Subnet>, s: State, now: nat, l: Lease)
    requires |s.pools| == |s.pds| == |cfg| && Durable(s.db)
    ensures var o := Step(cfg, s, CleanUp(now)).state;
      && (l in o.db.leases ==> !(l.state == Active && l.ends < now))
      && (l in s.db.leases && (l.state == Backup || (l.state == Active && l.ends >= now)) ==>
          l in o.db.leases && Holder(o.db.leases, l.key) == Some(l.duid))
  {
    var o := Step(cfg, s, CleanUp(now)).state;
    CleanUpDropsExactly(cfg, s, now, l);
    StepIsDurable(cfg, s, CleanUp(now));
    if l in o.db.leases && Live(l.state) { LiveIsHolder(o.db.leases, l); }
    if l in o.db.leases && !SomeOverdue(s.db.leases, now) {
      var i :| 0 <= i < |s.db.leases| && s.db.leases[i] == l;
    }
  }

  /** And every address entry of every pool follows the lease that is left for it. */
  lemma {:induction false} CleanUpSyncs(cfg: seq<Subnet>, s: State, now: nat, n: nat)
    requires |s.pools| == |s.pds| == |cfg| && n < |s.pools|
    ensures Step(cfg, s, CleanUp(now)).state.pools[n] == Sync(s.pools[n], Step(cfg, s, CleanUp(now)).state.db.leases)
  {
  }
}
