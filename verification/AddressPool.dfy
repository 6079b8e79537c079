/** The IA_NA address pool, DHCP_Server/DHCPv6/sources/ip6_pool.c. */
module AddressPool {
  import opened Bytes
  import opened Address6
  import opened Identifiers
  import opened Leases6
  import opened Pools6

  const MAX_POOL6_SIZE: nat := 4096

  /* ---------- a lease seen from the pool ---------- */

  /** The ip6_addr field of a lease; IA_PD leases leave it zero. */
  function IpField(key: Key): Address
  {
    match key case Na(ip) => ip case Pd(_, _) => UNSPECIFIED
  }

  /** The entry as ip6_pool_update_from_lease leaves it. */
  function FromLease(e: Entry, l: Lease): Entry
  {
    var state := StateOf(l.state);
    e.(state := state,
       text := if state == Allocated || state == ReservedIp then HexIn(l.duid, ENTRY_TEXT_SIZE) else "")
  }

  function UpdateFromLease(es: seq<Entry>, l: Lease): (fs: seq<Entry>)
    ensures SameKeys(es, fs)
  {
    match FindEntry(es, Na(IpField(l.key)))
    case None => es
    case Some(i) => es[i := FromLease(es[i], l)]
  }

  /** ip6_pool_sync_with_leases. */
  function Sync(es: seq<Entry>, ls: seq<Lease>): (fs: seq<Entry>)
    ensures SameKeys(es, fs)
  {
    if ls == [] then es else UpdateFromLease(Sync(es, ls[..|ls| - 1]), ls[|ls| - 1])
  }

  /** Addresses only, and not the unspecified one that IA_PD leases carry. */
  ghost predicate AddressKeys(es: seq<Entry>)
  {
    forall i :: 0 <= i < |es| ==> es[i].key.Na? && es[i].key.ip != UNSPECIFIED
  }

  /** The entry brought up to date with its lease, if it has one. */
  function Synced(e: Entry, l: Option<Lease>): Entry
  {
    if l.None? then e else FromLease(e, l.value)
  }

  /** Where a synchronised entry comes from: its own lease if there is one, and
      never an IA_PD lease. */
  lemma {:induction false} SyncAt(es: seq<Entry>, ls: seq<Lease>, i: nat)
    requires Distinct(es) && AddressKeys(es) && UniqueKeys(ls) && i < |es|
    ensures Sync(es, ls)[i] == Synced(es[i], Lookup(ls, es[i].key))
  {
    if ls != [] {
      var rest, last := ls[..|ls| - 1], ls[|ls| - 1];
      SyncAt(es, rest, i);
      assert ls == rest + [last];
      FindAfterAppend(rest, last, es[i].key);
      var mid := Sync(es, rest);
      FindSameEntry(es, mid, Na(IpField(last.key)));
      match FindEntry(es, Na(IpField(last.key))) {
        case Some(j) => assert es[j].key == Na(IpField(last.key));
        case None =>
      }
    }
  }

  /** After a pass the pool shows every holding, whatever it showed before. */
  lemma {:induction false} SyncOwns(strict: bool, hosts: seq<Host>, es: seq<Entry>, ls: seq<Lease>)
    requires Distinct(es) && AddressKeys(es) && UniqueKeys(ls)
    ensures Owned(strict, hosts, Sync(es, ls), ls)
  {
    forall i | 0 <= i < |es|
      ensures OwnedAt(strict, Sync(es, ls)[i], Holder(ls, es[i].key))
    {
      SyncAt(es, ls, i);
      if Holder(ls, es[i].key).Some? { HexInNames(Holder(ls, es[i].key).value); }
    }
  }

  /** A pass over a pool that already shows every holding gives no client a second
      entry: what it marks allocated was allocated under the same name. */
  lemma {:induction false} SyncKeepsOneEach(hosts: seq<Host>, es: seq<Entry>, ls: seq<Lease>)
    requires Distinct(es) && AddressKeys(es) && UniqueKeys(ls)
    requires Owned(true, hosts, es, ls) && OneEach(hosts, es)
    ensures OneEach(hosts, Sync(es, ls))
  {
    var fs := Sync(es, ls);
    forall i | 0 <= i < |es| && Dynamic(hosts, fs[i])
      ensures fs[i] == es[i]
    {
      SyncAt(es, ls, i);
      var holder := Holder(ls, es[i].key);
      if holder.Some? {
        assert OwnedAt(true, es[i], holder);
        assert fs[i].text == HexIn(holder.value, ENTRY_TEXT_SIZE);
      }
    }
  }

  /* ---------- allocation ---------- */

  /** A probe that got an answer: the address is set aside and its lease abandoned. */
  function SetAside(es: seq<Entry>, db: Db, i: nat, now: nat): (a: Alloc)
    requires i < |es|
    ensures SameKeys(es, a.entries)
  {
    Alloc(es[i := es[i].(state := Conflict)], Retire(db, es[i].key, Abandoned, now), None)
  }

  /** Renewing an allocation the client already has succeeds even when the table is
      too full to record it. */
  function Refresh(es: seq<Entry>, db: Db, i: nat, r: Request): (a: Alloc)
    requires i < |es|
    ensures SameKeys(es, a.entries)
  {
    var d := Add(db, es[i].key, r.name, r.iaid, r.now, r.secs);
    Alloc(es, if d.Some? then d.value else db, Some(es[i].key))
  }

  /** The address reserved for the client: the first host with that text decides. */
  function FixedFor(hosts: seq<Host>, text: string): Option<Address>
  {
    if hosts == [] then None
    else if hosts[0].fixed.Some? && hosts[0].text != "" && hosts[0].text == text then hosts[0].fixed
    else FixedFor(hosts[1..], text)
  }

  function HostEntry(hosts: seq<Host>, es: seq<Entry>, text: string): (r: Option<nat>)
    ensures r.Some? ==> r.value < |es|
  {
    var fixed := FixedFor(hosts, text);
    if fixed.None? then None else FindEntry(es, Na(fixed.value))
  }

  predicate InRange(range: Option<(Address, Address)>, ip: Address)
  {
    range.Some? && Compare(ip, range.value.0) >= 0 && Compare(ip, range.value.1) <= 0
  }

  /** The last resort: the first available entry that answers no probe and whose
      lease can be recorded. */
  function Scan(es: seq<Entry>, db: Db, i: nat, r: Request, probe: Address -> bool): (a: Alloc)
    requires i <= |es|
    ensures SameKeys(es, a.entries)
    decreases |es| - i
  {
    if i == |es| then Alloc(es, db, None)
    else if es[i].state != Available then Scan(es, db, i + 1, r, probe)
    else
      var a := Try(es, db, i, r, probe);
      if a.granted.Some? then a else Scan(a.entries, a.db, i + 1, r, probe)
  }

  /** Probe, then claim. */
  function Try(es: seq<Entry>, db: Db, i: nat, r: Request, probe: Address -> bool): (a: Alloc)
    requires i < |es|
    ensures SameKeys(es, a.entries)
  {
    if probe(IpField(es[i].key)) then SetAside(es, db, i, r.now) else Claim(es, db, i, r)
  }

  /** The index of the requested address when it may be handed out. */
  function Wanted(sub: Subnet, es: seq<Entry>, requested: Address): (r: Option<nat>)
    ensures r.Some? ==> r.value < |es| && es[r.value].state == Available
  {
    var i := FindEntry(es, Na(requested));
    if requested != UNSPECIFIED && InRange(sub.range, requested) && i.Some? && es[i.value].state == Available
    then i else None
  }

  /** ip6_pool_allocate: a static reservation, an allocation the client already has,
      the address it asks for, or the first one free. */
  function Allocate(
    sub: Subnet, es: seq<Entry>, db: Db, r: Request, requested: Address, probe: Address -> bool): (a: Alloc)
    ensures SameKeys(es, a.entries)
  {
    var host, mine, wanted :=
      HostEntry(sub.hosts, es, Hex(r.name)), FindOwned(es, Hex(r.name)), Wanted(sub, es, requested);
    if host.Some? then Try(es, db, host.value, r, probe)
    else if r.name != [] && mine.Some? then Refresh(es, db, mine.value, r)
    else if wanted.Some? then Try(es, db, wanted.value, r, probe)
    else Scan(es, db, 0, r, probe)
  }

  /** Host h is the client's: the first with an address and the client's text. */
  ghost predicate ReservedFor(hosts: seq<Host>, text: string, h: nat)
  {
    && h < |hosts| && hosts[h].fixed.Some? && text != "" && hosts[h].text == text
    && forall g :: 0 <= g < h ==> !(hosts[g].fixed.Some? && hosts[g].text == text)
  }

  /** The search stops at that host. */
  lemma {:induction false} FixedForMeans(hosts: seq<Host>, text: string) returns (h: nat)
    ensures if FixedFor(hosts, text).Some? then ReservedFor(hosts, text, h) && hosts[h].fixed == FixedFor(hosts, text)
            else forall g :: 0 <= g < |hosts| ==> !(hosts[g].fixed.Some? && text != "" && hosts[g].text == text)
  {
    h := 0;
    if hosts != [] && !(hosts[0].fixed.Some? && hosts[0].text != "" && hosts[0].text == text) {
      h := FixedForMeans(hosts[1..], text);
      h := h + 1;
      forall g | 0 < g < |hosts| ensures hosts[g] == hosts[1..][g - 1] {}
    }
  }

  /** There is at most one such host. */
  lemma {:induction false} ReservedOnce(hosts: seq<Host>, text: string, g: nat, h: nat)
    requires ReservedFor(hosts, text, g) && ReservedFor(hosts, text, h)
    ensures g == h
  {
  }

  lemma {:induction false} FixedIsStatic(hosts: seq<Host>, text: string)
    requires FixedFor(hosts, text).Some?
    ensures IsStatic(hosts, Na(FixedFor(hosts, text).value))
  {
    if !(hosts[0].fixed.Some? && hosts[0].text != "" && hosts[0].text == text) {
      FixedIsStatic(hosts[1..], text);
      var j :| 0 <= j < |hosts[1..]| && hosts[1..][j].fixed.Some?
               && Na(FixedFor(hosts, text).value) == Na(hosts[1..][j].fixed.value);
      assert hosts[j + 1] == hosts[1..][j];
    }
  }

  lemma {:induction false} SetAsideIsSafe(
    strict: bool, hosts: seq<Host>, es: seq<Entry>, db: Db, i: nat, now: nat, name: seq<uint8>)
    requires Distinct(es) && Owned(strict, hosts, es, db.leases) && i < |es|
    ensures Safe(strict, hosts, es, db, name, SetAside(es, db, i, now))
  {
    var a, key := SetAside(es, db, i, now), es[i].key;
    forall k ensures Holder(a.db.leases, k) == if k == key then None else Holder(db.leases, k) {
      RetireHolder(db, key, Abandoned, now, k);
    }
  }

  lemma {:induction false} RefreshIsSafe(strict: bool, hosts: seq<Host>, es: seq<Entry>, db: Db, i: nat, r: Request)
    requires Distinct(es) && Owned(strict, hosts, es, db.leases) && i < |es|
    requires strict ==> NamesClient(Refresh(es, db, i, r), db, r.name)
    requires es[i].state == Allocated && es[i].text == Hex(r.name)
    ensures Safe(strict, hosts, es, db, r.name, Refresh(es, db, i, r))
  {
    var a, key := Refresh(es, db, i, r), es[i].key;
    if Add(db, key, r.name, r.iaid, r.now, r.secs).Some? {
      forall k
        ensures Holder(a.db.leases, k) ==
          if k == key then Some(NameAfter(db.leases, k, r.name)) else Holder(db.leases, k)
      {
        AddHolder(db, key, r.name, r.iaid, r.now, r.secs, k);
      }
    }
    assert es[i := es[i]] == es;
    if !IsStatic(hosts, key) && NamesClient(a, db, r.name) {
      GrantPermitted(strict, hosts, es, db.leases, i, r.name);
    }
  }

  /** A step that granted nothing, followed by a safe one. */
  lemma {:induction false} SafeThen(
    strict: bool, hosts: seq<Host>, es: seq<Entry>, db: Db, name: seq<uint8>, a: Alloc, b: Alloc)
    requires Safe(strict, hosts, es, db, name, a) && a.granted.None?
    requires forall k :: NameAfter(a.db.leases, k, name) == NameAfter(db.leases, k, name)
    requires Safe(strict, hosts, a.entries, a.db, name, b)
    requires b.granted.Some? && !IsStatic(hosts, b.granted.value) ==> Permits(db.leases, b.granted.value, name)
    ensures Safe(strict, hosts, es, db, name, b)
  {
    forall k ensures FindEntry(es, k) == FindEntry(a.entries, k) { FindSameEntry(es, a.entries, k); }
  }

  lemma {:induction false} TryIsSafe(
    strict: bool, hosts: seq<Host>, es: seq<Entry>, db: Db, i: nat, r: Request, probe: Address -> bool)
    requires Distinct(es) && Owned(strict, hosts, es, db.leases) && i < |es|
    requires strict ==> NamesClient(Try(es, db, i, r, probe), db, r.name)
    requires IsStatic(hosts, es[i].key)
          || (es[i].state == Available && (r.name == [] || FindOwned(es, Hex(r.name)).None?))
    ensures Safe(strict, hosts, es, db, r.name, Try(es, db, i, r, probe))
  {
    if probe(IpField(es[i].key)) {
      SetAsideIsSafe(strict, hosts, es, db, i, r.now, r.name);
    } else {
      ClaimIsSafe(strict, hosts, es, db, i, r);
    }
  }

  lemma {:induction false} ScanGrantsAvailable(es: seq<Entry>, db: Db, i: nat, r: Request, probe: Address -> bool)
    requires i <= |es|
    ensures var g := Scan(es, db, i, r, probe).granted;
      g.Some? ==> exists j :: i <= j < |es| && es[j].key == g.value && es[j].state == Available
    decreases |es| - i
  {
    if i < |es| {
      if es[i].state != Available {
        ScanGrantsAvailable(es, db, i + 1, r, probe);
      } else {
        var a := Try(es, db, i, r, probe);
        if a.granted.None? {
          ScanGrantsAvailable(a.entries, a.db, i + 1, r, probe);
        }
      }
    }
  }

  /** What a scan grants, nobody but the client held before it. */
  lemma {:induction false} ScanPermitted(
    strict: bool, hosts: seq<Host>, es: seq<Entry>, db: Db, i: nat, r: Request, probe: Address -> bool)
    requires Owned(strict, hosts, es, db.leases) && i <= |es|
    ensures var g := Scan(es, db, i, r, probe).granted;
      g.Some? && !IsStatic(hosts, g.value) ==> Permits(db.leases, g.value, r.name)
  {
    var g := Scan(es, db, i, r, probe).granted;
    ScanGrantsAvailable(es, db, i, r, probe);
    if g.Some? && !IsStatic(hosts, g.value) {
      var j :| i <= j < |es| && es[j].key == g.value && es[j].state == Available;
      GrantPermitted(strict, hosts, es, db.leases, j, r.name);
    }
  }

  /** A try that grants nothing leaves the next one as good a starting point. */
  lemma {:induction false} TryAgain(
    strict: bool, hosts: seq<Host>, es: seq<Entry>, db: Db, i: nat, r: Request, probe: Address -> bool)
    requires Distinct(es) && Owned(strict, hosts, es, db.leases) && i < |es| && es[i].state == Available
    requires r.name == [] || FindOwned(es, Hex(r.name)).None?
    requires Try(es, db, i, r, probe).granted.None?
    ensures var a := Try(es, db, i, r, probe);
      && Safe(strict, hosts, es, db, r.name, a)
      && Distinct(a.entries) && Owned(strict, hosts, a.entries, a.db.leases)
      && (r.name == [] || FindOwned(a.entries, Hex(r.name)).None?)
  {
    TryIsSafe(strict, hosts, es, db, i, r, probe);
  }

  /** A try that grants nothing takes no name off the table. */
  lemma {:induction false} TryKeepsNames(es: seq<Entry>, db: Db, i: nat, r: Request, probe: Address -> bool)
    requires i < |es| && Try(es, db, i, r, probe).granted.None?
    ensures forall k :: NameAfter(Try(es, db, i, r, probe).db.leases, k, r.name) == NameAfter(db.leases, k, r.name)
  {
    if probe(IpField(es[i].key)) {
      var retired := Retire(db, es[i].key, Abandoned, r.now);
      forall k ensures NameAfter(retired.leases, k, r.name) == NameAfter(db.leases, k, r.name) {
        RetireHolder(db, es[i].key, Abandoned, r.now, k);
        RetireKeepsName(db, es[i].key, Abandoned, r.now, r.name);
      }
    }
  }

  lemma {:induction false} ScanFurther(
    strict: bool, hosts: seq<Host>, es: seq<Entry>, db: Db, i: nat, r: Request, probe: Address -> bool)
    requires Distinct(es) && Owned(strict, hosts, es, db.leases) && i < |es| && es[i].state == Available
    requires r.name == [] || FindOwned(es, Hex(r.name)).None?
    requires Try(es, db, i, r, probe).granted.None?
    requires var a := Try(es, db, i, r, probe);
      Safe(strict, hosts, a.entries, a.db, r.name, Scan(a.entries, a.db, i + 1, r, probe))
    ensures Safe(strict, hosts, es, db, r.name, Scan(es, db, i, r, probe))
  {
    var a := Try(es, db, i, r, probe);
    TryAgain(strict, hosts, es, db, i, r, probe);
    TryKeepsNames(es, db, i, r, probe);
    ScanPermitted(strict, hosts, es, db, i, r, probe);
    SafeThen(strict, hosts, es, db, r.name, a, Scan(a.entries, a.db, i + 1, r, probe));
  }

  /** One turn of the scan, given that the rest of it is safe. */
  lemma {:induction false} ScanTurn(
    strict: bool, hosts: seq<Host>, es: seq<Entry>, db: Db, i: nat, r: Request, probe: Address -> bool)
    requires Distinct(es) && Owned(strict, hosts, es, db.leases) && i < |es| && es[i].state == Available
    requires r.name == [] || FindOwned(es, Hex(r.name)).None?
    requires strict ==> NamesClient(Scan(es, db, i, r, probe), db, r.name)
    requires var a := Try(es, db, i, r, probe);
      a.granted.None? ==> Safe(strict, hosts, a.entries, a.db, r.name, Scan(a.entries, a.db, i + 1, r, probe))
    ensures Safe(strict, hosts, es, db, r.name, Scan(es, db, i, r, probe))
  {
    if Try(es, db, i, r, probe).granted.None? {
      ScanFurther(strict, hosts, es, db, i, r, probe);
    } else {
      TryIsSafe(strict, hosts, es, db, i, r, probe);
    }
  }

  /** What a scan from i on may start from. */
  ghost predicate Scannable(
    strict: bool, hosts: seq<Host>, es: seq<Entry>, db: Db, i: nat, r: Request, probe: Address -> bool)
  {
    && Distinct(es) && Owned(strict, hosts, es, db.leases) && i <= |es|
    && (r.name == [] || FindOwned(es, Hex(r.name)).None?)
    && (strict ==> NamesClient(Scan(es, db, i, r, probe), db, r.name))
  }

  lemma {:induction false} ScannableNext(
    strict: bool, hosts: seq<Host>, es: seq<Entry>, db: Db, i: nat, r: Request, probe: Address -> bool)
    requires Scannable(strict, hosts, es, db, i, r, probe) && i < |es| && es[i].state == Available
    requires Try(es, db, i, r, probe).granted.None?
    ensures var a := Try(es, db, i, r, probe); Scannable(strict, hosts, a.entries, a.db, i + 1, r, probe)
  {
    TryAgain(strict, hosts, es, db, i, r, probe);
    TryKeepsNames(es, db, i, r, probe);
  }

  lemma {:induction false} ScanIsSafe(
    strict: bool, hosts: seq<Host>, es: seq<Entry>, db: Db, i: nat, r: Request, probe: Address -> bool)
    requires Scannable(strict, hosts, es, db, i, r, probe)
    ensures Safe(strict, hosts, es, db, r.name, Scan(es, db, i, r, probe))
    decreases |es| - i
  {
    if i == |es| {
    } else if es[i].state != Available {
      ScanIsSafe(strict, hosts, es, db, i + 1, r, probe);
    } else {
      var a := Try(es, db, i, r, probe);
      if a.granted.None? {
        ScannableNext(strict, hosts, es, db, i, r, probe);
        ScanIsSafe(strict, hosts, a.entries, a.db, i + 1, r, probe);
      }
      ScanTurn(strict, hosts, es, db, i, r, probe);
    }
  }

  /** Whatever branch is taken, allocation keeps the pool and the table in step,
      and grants a dynamic address only when nobody else holds it. */
  lemma {:induction false} AllocateIsSafe(
    strict: bool, sub: Subnet, es: seq<Entry>, db: Db, r: Request, requested: Address, probe: Address -> bool)
    requires Distinct(es) && Owned(strict, sub.hosts, es, db.leases)
    requires strict ==> NamesClient(Allocate(sub, es, db, r, requested, probe), db, r.name)
    ensures Safe(strict, sub.hosts, es, db, r.name, Allocate(sub, es, db, r, requested, probe))
  {
    var host, mine, wanted :=
      HostEntry(sub.hosts, es, Hex(r.name)), FindOwned(es, Hex(r.name)), Wanted(sub, es, requested);
    if host.Some? {
      FixedIsStatic(sub.hosts, Hex(r.name));
      TryIsSafe(strict, sub.hosts, es, db, host.value, r, probe);
    } else if r.name != [] && mine.Some? {
      RefreshIsSafe(strict, sub.hosts, es, db, mine.value, r);
    } else if wanted.Some? {
      TryIsSafe(strict, sub.hosts, es, db, wanted.value, r, probe);
    } else {
      ScanIsSafe(strict, sub.hosts, es, db, 0, r, probe);
    }
  }

  /* ---------- start-up ---------- */

  /** How many addresses a range fills the pool with. */
  function RangeSize(start: Address, end: Address): nat
  {
    if Value(start) > Value(end) then 0
    else if Value(end) - Value(start) < MAX_POOL6_SIZE then Value(end) - Value(start) + 1
    else MAX_POOL6_SIZE
  }

  /** The pool as first laid down: consecutive addresses from the start, all
      available. */
  ghost predicate FreshRange(es: seq<Entry>, start: Address, end: Address)
  {
    && |es| == RangeSize(start, end)
    && forall i :: 0 <= i < |es| ==> FreshAddress(es[i], Value(start) + i)
  }

  ghost predicate FreshAddress(e: Entry, v: nat)
  {
    e.key.Na? && Value(e.key.ip) == v && e.state == Available && e.text == ""
  }

  ghost predicate Fresh(es: seq<Entry>, range: Option<(Address, Address)>)
  {
    if range.None? then es == [] else FreshRange(es, range.value.0, range.value.1)
  }

  lemma {:induction false} FreshIsDistinct(es: seq<Entry>, range: Option<(Address, Address)>)
    requires Fresh(es, range)
    ensures Distinct(es)
  {
    if range.Some? {
      forall i, j | 0 <= i < j < |es|
        ensures es[i].key != es[j].key
      {
        assert FreshAddress(es[i], Value(range.value.0) + i) && FreshAddress(es[j], Value(range.value.0) + j);
      }
    }
  }

  /** The address numbers a configured range spans. */
  predicate InSpan(range: Option<(Address, Address)>, v: nat)
  {
    range.Some? && Value(range.value.0) <= v <= Value(range.value.1)
  }

  lemma {:induction false} FreshInSpan(es: seq<Entry>, range: Option<(Address, Address)>, i: nat)
    requires Fresh(es, range) && i < |es|
    ensures es[i].key.Na? && InSpan(range, Value(es[i].key.ip))
  {
    assert FreshAddress(es[i], Value(range.value.0) + i);
  }

  /** The configuration alone decides which addresses a pool has, and in which order. */
  lemma {:induction false} FreshSameKeys(es: seq<Entry>, fs: seq<Entry>, range: Option<(Address, Address)>)
    requires Fresh(es, range) && Fresh(fs, range)
    ensures SameKeys(es, fs)
  {
    forall i | 0 <= i < |es| ensures range.Some? && i < |fs| && es[i].key == fs[i].key {
      var v := Value(range.value.0) + i;
      assert FreshAddress(es[i], v) && FreshAddress(fs[i], v);
      ValueInjective(es[i].key.ip, fs[i].key.ip);
    }
  }

  /** ip6_pool_reserve_ip. */
  function Reserve(es: seq<Entry>, ip: Address, text: string): (fs: seq<Entry>)
    ensures SameKeys(es, fs)
  {
    match FindEntry(es, Na(ip))
    case None => es
    case Some(i) => es[i := es[i].(state := ReservedIp, text := if text == "" then es[i].text else Clip(text))]
  }

  function ReserveAll(es: seq<Entry>, hosts: seq<Host>): (fs: seq<Entry>)
    ensures SameKeys(es, fs)
  {
    if hosts == [] then es
    else
      var last := hosts[|hosts| - 1];
      var fs := ReserveAll(es, hosts[..|hosts| - 1]);
      if last.fixed.None? then fs else Reserve(fs, last.fixed.value, last.text)
  }

  /** ip6_pool_init: lay the range down, bring it up to date with the table, then
      put the static reservations over it. */
  ghost predicate Started(sub: Subnet, ls: seq<Lease>, es: seq<Entry>)
  {
    exists raw :: Fresh(raw, sub.range) && es == ReserveAll(Sync(raw, ls), sub.hosts)
  }

  /** Reservations change only the entries they reserve. */
  lemma {:induction false} ReserveAllElsewhere(es: seq<Entry>, hosts: seq<Host>, i: nat)
    requires i < |es| && !IsStatic(hosts, es[i].key)
    ensures ReserveAll(es, hosts)[i] == es[i]
  {
    if hosts != [] {
      var rest, last := hosts[..|hosts| - 1], hosts[|hosts| - 1];
      assert !IsStatic(rest, es[i].key) by {
        forall j | 0 <= j < |rest| ensures !(rest[j].fixed.Some? && es[i].key == Na(rest[j].fixed.value)) {
          assert rest[j] == hosts[j];
        }
      }
      ReserveAllElsewhere(es, rest, i);
      if last.fixed.Some? {
        assert es[i].key != Na(last.fixed.value) by { assert hosts[|hosts| - 1] == last; }
      }
    }
  }

  /** No client holds two of the pool's addresses, static reservations aside. */
  ghost predicate HeldSingly(hosts: seq<Host>, es: seq<Entry>, ls: seq<Lease>)
  {
    forall i, j :: 0 <= i < j < |es| && HeldShort(hosts, es[i].key, ls) && HeldShort(hosts, es[j].key, ls) ==>
      Holder(ls, es[i].key) != Holder(ls, es[j].key)
  }

  /** Held, and by a DUID that an entry can name in full. */
  predicate HeldShort(hosts: seq<Host>, key: Key, ls: seq<Lease>)
  {
    && !IsStatic(hosts, key) && Holder(ls, key).Some?
    && Holder(ls, key).value != [] && 3 * |Holder(ls, key).value| <= ENTRY_TEXT_SIZE
  }

  /** The entry is allocated because its key is held, and under the holder's text. */
  ghost predicate ShowsHolder(hosts: seq<Host>, e: Entry, ls: seq<Lease>)
  {
    Dynamic(hosts, e) ==> HeldShort(hosts, e.key, ls) && e.text == Hex(Holder(ls, e.key).value)
  }

  lemma {:induction false} HeldSinglyIsOneEach(hosts: seq<Host>, es: seq<Entry>, ls: seq<Lease>)
    requires HeldSingly(hosts, es, ls)
    requires forall i :: 0 <= i < |es| ==> ShowsHolder(hosts, es[i], ls)
    ensures OneEach(hosts, es)
  {
    forall i, j | 0 <= i < j < |es| && Dynamic(hosts, es[i]) && Dynamic(hosts, es[j])
      ensures es[i].text != es[j].text
    {
      if es[i].text == es[j].text {
        assert ShowsHolder(hosts, es[i], ls) && ShowsHolder(hosts, es[j], ls);
        HexInjective(Holder(ls, es[i].key).value, Holder(ls, es[j].key).value);
      }
    }
  }

  lemma {:induction false} FreshShowsHolder(hosts: seq<Host>, raw: seq<Entry>, ls: seq<Lease>, i: nat)
    requires Distinct(raw) && AddressKeys(raw) && UniqueKeys(ls) && i < |raw| && raw[i].state == Available
    requires !IsStatic(hosts, raw[i].key)
    ensures ShowsHolder(hosts, Sync(raw, ls)[i], ls)
  {
    SyncAt(raw, ls, i);
  }

  /** A started pool mirrors the loaded table. */
  lemma {:induction false} StartedIsOk(sub: Subnet, ls: seq<Lease>, es: seq<Entry>)
    requires Started(sub, ls, es) && UniqueKeys(ls) && AddressKeys(es)
    ensures Distinct(es) && Owned(true, sub.hosts, es, ls)
    ensures HeldSingly(sub.hosts, es, ls) ==> OneEach(sub.hosts, es)
  {
    var raw :| Fresh(raw, sub.range) && es == ReserveAll(Sync(raw, ls), sub.hosts);
    FreshIsDistinct(raw, sub.range);
    assert AddressKeys(raw);
    SyncOwns(true, sub.hosts, raw, ls);
    forall i | 0 <= i < |es|
      ensures !IsStatic(sub.hosts, es[i].key) ==> es[i] == Sync(raw, ls)[i]
      ensures ShowsHolder(sub.hosts, es[i], ls)
    {
      if !IsStatic(sub.hosts, es[i].key) {
        ReserveAllElsewhere(Sync(raw, ls), sub.hosts, i);
        FreshShowsHolder(sub.hosts, raw, ls, i);
      }
    }
    if HeldSingly(sub.hosts, es, ls) { HeldSinglyIsOneEach(sub.hosts, es, ls); }
  }

  /* ---------- where the guarantees stop ---------- */

  lemma {:induction false} TryNames(es: seq<Entry>, db: Db, i: nat, r: Request, probe: Address -> bool)
    requires i < |es| && Try(es, db, i, r, probe).granted.Some?
    ensures Holder(Try(es, db, i, r, probe).db.leases, es[i].key) == Some(NameAfter(db.leases, es[i].key, r.name))
  {
    AddHolder(db, es[i].key, r.name, r.iaid, r.now, r.secs, es[i].key);
  }

  lemma {:induction false} ScanNames(es: seq<Entry>, db: Db, i: nat, r: Request, probe: Address -> bool)
    requires i <= |es|
    ensures var a := Scan(es, db, i, r, probe);
      a.granted.Some? ==> Holder(a.db.leases, a.granted.value) == Some(NameAfter(db.leases, a.granted.value, r.name))
    decreases |es| - i
  {
    if i < |es| {
      if es[i].state != Available {
        ScanNames(es, db, i + 1, r, probe);
      } else {
        var a := Try(es, db, i, r, probe);
        if a.granted.Some? {
          TryNames(es, db, i, r, probe);
        } else {
          TryKeepsNames(es, db, i, r, probe);
          ScanNames(a.entries, a.db, i + 1, r, probe);
        }
      }
    }
  }

  /** A dynamic address is granted to a client, named or not, while nobody else holds
      it before and after, exactly if the client has a name or the table has no
      other's name left over for the address. */
  lemma {:induction false} GrantIsOwn(
    sub: Subnet, es: seq<Entry>, db: Db, r: Request, requested: Address, probe: Address -> bool)
    requires Distinct(es) && Owned(false, sub.hosts, es, db.leases)
    requires var g := Allocate(sub, es, db, r, requested, probe).granted; g.Some? && !IsStatic(sub.hosts, g.value)
    ensures var a := Allocate(sub, es, db, r, requested, probe);
      var key := a.granted.value;
      (Permits(db.leases, key, r.name) && Permits(a.db.leases, key, r.name)) <==>
        NameAfter(db.leases, key, r.name) == r.name
  {
    var a := Allocate(sub, es, db, r, requested, probe);
    if NameAfter(db.leases, a.granted.value, r.name) == r.name {
      AllocateIsSafe(false, sub, es, db, r, requested, probe);
    } else {
      var host, wanted := HostEntry(sub.hosts, es, Hex(r.name)), Wanted(sub, es, requested);
      if host.Some? {
        TryNames(es, db, host.value, r, probe);
      } else if wanted.Some? {
        TryNames(es, db, wanted.value, r, probe);
      } else {
        ScanNames(es, db, 0, r, probe);
      }
    }
  }

  /** What may be granted at all: an address reserved for the client by its text, one
      that was available, or one already allocated under the client's text. */
  predicate Grantable(hosts: seq<Host>, e: Entry, name: seq<uint8>)
  {
    || (exists h :: 0 <= h < |hosts| && ReservedTo(hosts[h], e.key, name))
    || e.state == Available
    || (e.state == Allocated && name != [] && e.text == Hex(name))
  }

  predicate ReservedTo(host: Host, key: Key, name: seq<uint8>)
  {
    host.fixed.Some? && key == Na(host.fixed.value) && host.text != "" && host.text == Hex(name)
  }

  lemma {:induction false} GrantsOnlyGrantable(
    sub: Subnet, es: seq<Entry>, db: Db, r: Request, requested: Address, probe: Address -> bool)
    ensures var g := Allocate(sub, es, db, r, requested, probe).granted;
      g.Some? ==> exists i :: 0 <= i < |es| && es[i].key == g.value && Grantable(sub.hosts, es[i], r.name)
  {
    var host, mine, wanted :=
      HostEntry(sub.hosts, es, Hex(r.name)), FindOwned(es, Hex(r.name)), Wanted(sub, es, requested);
    if host.Some? {
      var h := FixedForMeans(sub.hosts, Hex(r.name));
      assert ReservedTo(sub.hosts[h], es[host.value].key, r.name);
      assert Grantable(sub.hosts, es[host.value], r.name);
    } else if r.name != [] && mine.Some? {
      assert Grantable(sub.hosts, es[mine.value], r.name);
    } else if wanted.Some? {
      assert Grantable(sub.hosts, es[wanted.value], r.name);
    } else {
      ScanGrantsAvailable(es, db, 0, r, probe);
      var g := Allocate(sub, es, db, r, requested, probe).granted;
      if g.Some? {
        var j :| 0 <= j < |es| && es[j].key == g.value && es[j].state == Available;
        assert Grantable(sub.hosts, es[j], r.name);
      }
    }
  }

  /* ---------- what allocation leaves alone ---------- */

  lemma {:induction false} TryElsewhere(es: seq<Entry>, db: Db, i: nat, r: Request, probe: Address -> bool, k: Key)
    requires i < |es|
    ensures k != es[i].key ==> Lookup(Try(es, db, i, r, probe).db.leases, k) == Lookup(db.leases, k)
    ensures Durable(db) ==> Durable(Try(es, db, i, r, probe).db)
  {
    RetireHolder(db, es[i].key, Abandoned, r.now, k);
    AddHolder(db, es[i].key, r.name, r.iaid, r.now, r.secs, k);
    if Durable(db) {
      RetireIsDurable(db, es[i].key, Abandoned, r.now);
      if Add(db, es[i].key, r.name, r.iaid, r.now, r.secs).Some? {
        AddIsDurable(db, es[i].key, r.name, r.iaid, r.now, r.secs);
      }
    }
  }

  lemma {:induction false} RefreshElsewhere(es: seq<Entry>, db: Db, i: nat, r: Request, k: Key)
    requires i < |es|
    ensures k != es[i].key ==> Lookup(Refresh(es, db, i, r).db.leases, k) == Lookup(db.leases, k)
    ensures Durable(db) ==> Durable(Refresh(es, db, i, r).db)
  {
    AddHolder(db, es[i].key, r.name, r.iaid, r.now, r.secs, k);
    if Durable(db) && Add(db, es[i].key, r.name, r.iaid, r.now, r.secs).Some? {
      AddIsDurable(db, es[i].key, r.name, r.iaid, r.now, r.secs);
    }
  }

  lemma {:induction false} ScanElsewhere(es: seq<Entry>, db: Db, i: nat, r: Request, probe: Address -> bool, k: Key)
    requires i <= |es|
    ensures (forall j :: 0 <= j < |es| ==> es[j].key != k) ==>
      Lookup(Scan(es, db, i, r, probe).db.leases, k) == Lookup(db.leases, k)
    ensures Durable(db) ==> Durable(Scan(es, db, i, r, probe).db)
    decreases |es| - i
  {
    if i < |es| {
      if es[i].state != Available {
        ScanElsewhere(es, db, i + 1, r, probe, k);
      } else {
        var a := Try(es, db, i, r, probe);
        TryElsewhere(es, db, i, r, probe, k);
        if a.granted.None? { ScanElsewhere(a.entries, a.db, i + 1, r, probe, k); }
      }
    }
  }

  /** Named or not, a request leaves the leases outside the pool as they are, and the
      file ready to rebuild the table. */
  lemma {:induction false} AllocateElsewhere(
    sub: Subnet, es: seq<Entry>, db: Db, r: Request, requested: Address, probe: Address -> bool, k: Key)
    ensures var a := Allocate(sub, es, db, r, requested, probe);
      && ((forall j :: 0 <= j < |es| ==> es[j].key != k) ==> Lookup(a.db.leases, k) == Lookup(db.leases, k))
      && (Durable(db) ==> Durable(a.db))
  {
    var host, mine, wanted :=
      HostEntry(sub.hosts, es, Hex(r.name)), FindOwned(es, Hex(r.name)), Wanted(sub, es, requested);
    if host.Some? {
      TryElsewhere(es, db, host.value, r, probe, k);
    } else if r.name != [] && mine.Some? {
      RefreshElsewhere(es, db, mine.value, r, k);
    } else if wanted.Some? {
      TryElsewhere(es, db, wanted.value, r, probe, k);
    } else {
      ScanElsewhere(es, db, 0, r, probe, k);
    }
  }

  /** A client finds its entry again exactly when its DUID has at most 42 bytes; a
      longer one takes a fresh address with every request. */
  lemma {:induction false} ClaimIsFoundAgain(es: seq<Entry>, db: Db, i: nat, r: Request)
    requires i < |es| && r.name != [] && FindOwned(es, Hex(r.name)).None? && Claim(es, db, i, r).granted.Some?
    ensures FindOwned(Claim(es, db, i, r).entries, Hex(r.name)).Some? <==> |r.name| <= 42
  {
    var fs := Claim(es, db, i, r).entries;
    assert fs[i].state == Allocated && fs[i].text == Clip(Hex(r.name));
    match FindOwned(fs, Hex(r.name)) {
      case Some(j) => assert j == i;
      case None =>
    }
  }

  /** Why the unspecified address must stay out of a pool: a retired IA_PD lease frees
      the entry of whoever holds that address. */
  lemma {:induction false} PrefixLeaseFreesUnspecified(e: Entry, holder: Lease, prefix: Lease)
    requires e.key == Na(UNSPECIFIED) == holder.key && Live(holder.state) && prefix.key.Pd? && prefix.state == Released
    ensures Sync([e], [holder, prefix])[0].state == Available
    ensures UniqueKeys([holder, prefix]) && Holder([holder, prefix], e.key).Some?
  {
    var ls := [holder, prefix];
    assert ls[..1] == [holder] && [holder][..0] == [];
    assert Sync([e], [holder]) == UpdateFromLease([e], holder);
    assert FindKey([holder], holder.key) == Some(0);
  }
}
