/** The DHCPv4 address pool, DHCP_Server/DHCPv4/src/ip_pool.c: initialisation from a
    subnet and a lease table, allocation by four priorities, release, and the
    background pass that brings the pool into line with the leases. The ping check is
    off, as in the shipped configuration. */
module Pool4 {
  import opened Bytes

  const MAX_POOL_SIZE := 1024
  const ADDRESSES := 0x1_0000_0000

  type Mac = m: seq<uint8> | |m| == 6 witness [0, 0, 0, 0, 0, 0]

  const NO_MAC: Mac := [0, 0, 0, 0, 0, 0]

  datatype IpState = Available | Allocated | ReservedIp | Excluded | Conflict | UnknownIp

  datatype LeaseState = Free | Active | Expired | Released | Abandoned | ReservedLease | Backup | UnknownLease

  datatype Entry = Entry(ip: uint32, state: IpState, mac: Mac)

  datatype Lease = Lease(ip: uint32, mac: Mac, ends: int, state: LeaseState)

  datatype Host = Host(mac: Mac, ip: uint32)

  datatype Subnet = Subnet(network: uint32, netmask: uint32, router: uint32,
                           start: uint32, end: uint32, hosts: seq<Host>)

  /** The entries and the two counters kept beside them. */
  datatype Pool = Pool(entries: seq<Entry>, available: int, taken: int)

  /** ip_state_from_lease_state. */
  function StateOf(s: LeaseState): IpState
  {
    match s
    case Active => Allocated
    case ReservedLease => ReservedIp
    case Abandoned => Conflict
    case Free => Available
    case Expired => Available
    case Released => Available
    case Backup => Allocated
    case UnknownLease => UnknownIp
  }

  /* ---------- entries and counters ---------- */

  function Find(es: seq<Entry>, ip: uint32): (r: Option<nat>)
    ensures r.Some? ==> r.value < |es| && es[r.value].ip == ip && forall j :: 0 <= j < r.value ==> es[j].ip != ip
    ensures r.None? ==> forall j :: 0 <= j < |es| ==> es[j].ip != ip
  {
    if es == [] then None
    else
      var r := Find(es[..|es| - 1], ip);
      if r.Some? then r else if es[|es| - 1].ip == ip then Some(|es| - 1) else None
  }

  function Hit(e: Entry, s: IpState): nat
  {
    if e.state == s then 1 else 0
  }

  function Count(es: seq<Entry>, s: IpState): nat
  {
    if es == [] then 0 else Count(es[..|es| - 1], s) + Hit(es[|es| - 1], s)
  }

  lemma {:induction false} CountUpdate(es: seq<Entry>, i: nat, e: Entry, s: IpState)
    requires i < |es|
    ensures Count(es[i := e], s) + Hit(es[i], s) == Count(es, s) + Hit(e, s)
  {
    var n := |es| - 1;
    if i == n {
      assert es[i := e][..n] == es[..n];
    } else {
      CountUpdate(es[..n], i, e, s);
      assert es[i := e][..n] == es[..n][i := e];
    }
  }

  /** Both counters tell the truth. */
  ghost predicate Exact(p: Pool)
  {
    p.available == Count(p.entries, Available) && p.taken == Count(p.entries, Allocated)
  }

  ghost predicate Distinct(es: seq<Entry>)
  {
    forall i, j :: 0 <= i < j < |es| ==> es[i].ip != es[j].ip
  }

  ghost predicate SameIps(es: seq<Entry>, fs: seq<Entry>)
  {
    |es| == |fs| && forall i :: 0 <= i < |es| ==> es[i].ip == fs[i].ip
  }

  /** A change of one entry's state with its counters. */
  function Moved(p: Pool, i: nat, s: IpState, mac: Mac): Pool
    requires i < |p.entries|
  {
    var e := p.entries[i];
    Pool(p.entries[i := Entry(e.ip, s, mac)],
         p.available - Hit(e, Available) + (if s == Available then 1 else 0),
         p.taken - Hit(e, Allocated) + (if s == Allocated then 1 else 0))
  }

  lemma {:induction false} MovedIsExact(p: Pool, i: nat, s: IpState, mac: Mac)
    requires i < |p.entries| && Exact(p)
    ensures Exact(Moved(p, i, s, mac))
  {
    var e := Entry(p.entries[i].ip, s, mac);
    CountUpdate(p.entries, i, e, Available);
    CountUpdate(p.entries, i, e, Allocated);
  }

  /* ---------- allocation and release ---------- */

  function HostFor(hosts: seq<Host>, mac: Mac): (r: Option<nat>)
    ensures r.Some? ==> r.value < |hosts| && hosts[r.value].mac == mac
    ensures r.Some? ==> forall j :: 0 <= j < r.value ==> hosts[j].mac != mac
    ensures r.None? ==> forall j :: 0 <= j < |hosts| ==> hosts[j].mac != mac
  {
    if hosts == [] then None
    else
      var r := HostFor(hosts[..|hosts| - 1], mac);
      if r.Some? then r else if hosts[|hosts| - 1].mac == mac then Some(|hosts| - 1) else None
  }

  /** The first entry from i on that is allocated to mac. */
  function Mine(es: seq<Entry>, mac: Mac, i: nat): (r: Option<nat>)
    requires i <= |es|
    ensures r.Some? ==> i <= r.value < |es| && es[r.value].state == Allocated && es[r.value].mac == mac
    ensures r.Some? ==> forall j :: i <= j < r.value ==> !(es[j].state == Allocated && es[j].mac == mac)
    ensures r.None? ==> forall j :: i <= j < |es| ==> !(es[j].state == Allocated && es[j].mac == mac)
    decreases |es| - i
  {
    if i == |es| then None
    else if es[i].state == Allocated && es[i].mac == mac then Some(i)
    else Mine(es, mac, i + 1)
  }

  function FirstAvailable(es: seq<Entry>, i: nat): (r: Option<nat>)
    requires i <= |es|
    ensures r.Some? ==> i <= r.value < |es| && es[r.value].state == Available
    ensures r.Some? ==> forall j :: i <= j < r.value ==> es[j].state != Available
    ensures r.None? ==> forall j :: i <= j < |es| ==> es[j].state != Available
    decreases |es| - i
  {
    if i == |es| then None else if es[i].state == Available then Some(i) else FirstAvailable(es, i + 1)
  }

  /** The requested entry, if it can be had. */
  function Wanted(sub: Subnet, es: seq<Entry>, requested: uint32): Option<nat>
  {
    var i := Find(es, requested);
    if requested != 0 && sub.start <= requested <= sub.end && i.Some? && es[i.value].state == Available then i else None
  }

  datatype Grant = Grant(pool: Pool, ip: Option<uint32>)

  /** The entry an allocation for mac would newly take: the one asked for, else the
      first one free. */
  function Choice(sub: Subnet, es: seq<Entry>, requested: uint32): (r: Option<nat>)
    ensures r.Some? ==> r.value < |es| && es[r.value].state == Available
  {
    var w := Wanted(sub, es, requested);
    if w.Some? then w else FirstAvailable(es, 0)
  }

  /** ip_pool_allocate. */
  function Allocate(sub: Subnet, p: Pool, mac: Mac, requested: uint32): Grant
  {
    var h := HostFor(sub.hosts, mac);
    var m := Mine(p.entries, mac, 0);
    var c := Choice(sub, p.entries, requested);
    if h.Some? then Grant(p, Some(sub.hosts[h.value].ip))
    else if m.Some? then Grant(p, Some(p.entries[m.value].ip))
    else if c.Some? then Grant(Moved(p, c.value, Allocated, mac), Some(p.entries[c.value].ip))
    else Grant(p, None)
  }

  /** ip_pool_release_ip. */
  function Release(p: Pool, ip: uint32): Pool
  {
    var i := Find(p.entries, ip);
    if i.Some? && p.entries[i.value].state == Allocated then Moved(p, i.value, Available, NO_MAC) else p
  }

  /* ---------- the synchronisation pass ---------- */

  predicate Overdue(l: Lease, now: int)
  {
    l.state == Active && l.ends < now
  }

  predicate Touchable(e: Entry)
  {
    e.state != ReservedIp && e.state != Excluded
  }

  datatype Synced = Synced(pool: Pool, leases: seq<Lease>)

  /** One turn of the loop in ip_pool_sync_thread_func. */
  function PassOne(p: Pool, ls: seq<Lease>, k: nat, now: int): (r: Synced)
    requires k < |ls|
    ensures |r.leases| == |ls|
  {
    var i := Find(p.entries, ls[k].ip);
    if i.None? || !Touchable(p.entries[i.value]) then Synced(p, ls)
    else
      var l := if Overdue(ls[k], now) then ls[k].(state := Expired) else ls[k];
      var e := p.entries[i.value];
      var s := StateOf(l.state);
      if e.state == s then Synced(p, ls[k := l])
      else Synced(Moved(p, i.value, s, if s == Available then NO_MAC else if s == Allocated then l.mac else e.mac),
                  ls[k := l])
  }

  /** The pass over the first n leases. */
  function Pass(p: Pool, ls: seq<Lease>, n: nat, now: int): (r: Synced)
    requires n <= |ls|
    ensures |r.leases| == |ls|
  {
    if n == 0 then Synced(p, ls)
    else
      var r := Pass(p, ls, n - 1, now);
      PassOne(r.pool, r.leases, n - 1, now)
  }

  /* ---------- what every operation keeps ---------- */

  /** Every configured fixed address that lies in the pool is reserved. */
  ghost predicate HostsReserved(hosts: seq<Host>, es: seq<Entry>)
  {
    forall h, i :: 0 <= h < |hosts| && 0 <= i < |es| && es[i].ip == hosts[h].ip ==> es[i].state == ReservedIp
  }

  ghost predicate Inv(sub: Subnet, p: Pool)
  {
    Exact(p) && Distinct(p.entries) && HostsReserved(sub.hosts, p.entries)
  }

  lemma {:induction false} MovedKeepsInv(sub: Subnet, p: Pool, i: nat, s: IpState, mac: Mac)
    requires Inv(sub, p) && i < |p.entries| && p.entries[i].state != ReservedIp
    ensures Inv(sub, Moved(p, i, s, mac)) && SameIps(p.entries, Moved(p, i, s, mac).entries)
  {
    MovedIsExact(p, i, s, mac);
  }

  lemma {:induction false} AllocateKeepsInv(sub: Subnet, p: Pool, mac: Mac, requested: uint32)
    requires Inv(sub, p)
    ensures Inv(sub, Allocate(sub, p, mac, requested).pool)
  {
    var c := Choice(sub, p.entries, requested);
    if c.Some? {
      MovedKeepsInv(sub, p, c.value, Allocated, mac);
    }
  }

  lemma {:induction false} ReleaseKeepsInv(sub: Subnet, p: Pool, ip: uint32)
    requires Inv(sub, p)
    ensures Inv(sub, Release(p, ip))
  {
    var i := Find(p.entries, ip);
    if i.Some? && p.entries[i.value].state == Allocated {
      MovedKeepsInv(sub, p, i.value, Available, NO_MAC);
    }
  }

  lemma {:induction false} PassOneKeepsInv(sub: Subnet, p: Pool, ls: seq<Lease>, k: nat, now: int)
    requires Inv(sub, p) && k < |ls|
    ensures Inv(sub, PassOne(p, ls, k, now).pool)
  {
    var i := Find(p.entries, ls[k].ip);
    if i.Some? && Touchable(p.entries[i.value]) {
      var l := if Overdue(ls[k], now) then ls[k].(state := Expired) else ls[k];
      var s := StateOf(l.state);
      MovedKeepsInv(sub, p, i.value, s,
                    if s == Available then NO_MAC else if s == Allocated then l.mac else p.entries[i.value].mac);
    }
  }

  lemma {:induction false} PassKeepsInv(sub: Subnet, p: Pool, ls: seq<Lease>, n: nat, now: int)
    requires Inv(sub, p) && n <= |ls|
    ensures Inv(sub, Pass(p, ls, n, now).pool)
  {
    if n > 0 {
      PassKeepsInv(sub, p, ls, n - 1, now);
      var r := Pass(p, ls, n - 1, now);
      PassOneKeepsInv(sub, r.pool, r.leases, n - 1, now);
    }
  }

  datatype Op =
    | AllocateOp(mac: Mac, requested: uint32)
    | ReleaseOp(ip: uint32)
    | SyncOp(leases: seq<Lease>, now: int)

  function Apply(sub: Subnet, p: Pool, op: Op): Pool
  {
    match op
    case AllocateOp(mac, requested) => Allocate(sub, p, mac, requested).pool
    case ReleaseOp(ip) => Release(p, ip)
    case SyncOp(leases, now) => Pass(p, leases, |leases|, now).pool
  }

  function ApplyAll(sub: Subnet, p: Pool, ops: seq<Op>): Pool
  {
    if ops == [] then p else Apply(sub, ApplyAll(sub, p, ops[..|ops| - 1]), ops[|ops| - 1])
  }

  lemma {:induction false} RunKeepsInv(sub: Subnet, p: Pool, ops: seq<Op>)
    requires Inv(sub, p)
    ensures Inv(sub, ApplyAll(sub, p, ops))
  {
    if ops != [] {
      RunKeepsInv(sub, p, ops[..|ops| - 1]);
      var q := ApplyAll(sub, p, ops[..|ops| - 1]);
      match ops[|ops| - 1]
      case AllocateOp(mac, requested) => AllocateKeepsInv(sub, q, mac, requested);
      case ReleaseOp(ip) => ReleaseKeepsInv(sub, q, ip);
      case SyncOp(leases, now) => PassKeepsInv(sub, q, leases, |leases|, now);
    }
  }

  /** After any run of allocations, releases and passes, an address granted to a client
      without a reservation is nobody's fixed address. */
  lemma {:induction false} FixedAddressIsNotGranted(
    sub: Subnet, p: Pool, ops: seq<Op>, mac: Mac, requested: uint32, h: nat)
    requires Inv(sub, p) && HostFor(sub.hosts, mac).None? && h < |sub.hosts|
    ensures Allocate(sub, ApplyAll(sub, p, ops), mac, requested).ip != Some(sub.hosts[h].ip)
  {
    RunKeepsInv(sub, p, ops);
  }

  /* ---------- one address a client ---------- */

  ghost predicate OneEach(es: seq<Entry>)
  {
    forall i, j :: 0 <= i < j < |es| && es[i].state == Allocated && es[j].state == Allocated ==> es[i].mac != es[j].mac
  }

  predicate IsSync(op: Op)
  {
    op.SyncOp?
  }

  /** Runs of allocation and release alone never give a client two addresses. */
  lemma {:induction false} OneAddressPerClient(sub: Subnet, p: Pool, ops: seq<Op>)
    requires OneEach(p.entries) && forall i :: 0 <= i < |ops| ==> !IsSync(ops[i])
    ensures OneEach(ApplyAll(sub, p, ops).entries)
  {
    if ops != [] {
      var n := |ops| - 1;
      OneAddressPerClient(sub, p, ops[..n]);
      assert !IsSync(ops[n]);
    }
  }

  /** A client that holds an address and has no reservation is granted that address
      again, with nothing changed. */
  lemma {:induction false} AllocateIsStable(sub: Subnet, p: Pool, mac: Mac, requested: uint32, again: uint32)
    requires HostFor(sub.hosts, mac).None? && OneEach(p.entries)
    requires Allocate(sub, p, mac, requested).ip.Some?
    ensures var g := Allocate(sub, p, mac, requested); Allocate(sub, g.pool, mac, again) == g
  {
    var g := Allocate(sub, p, mac, requested);
    var m := Mine(p.entries, mac, 0);
    if m.None? {
      var c := Choice(sub, p.entries, requested);
      assert Mine(g.pool.entries, mac, 0).Some? by {
        assert g.pool.entries[c.value].state == Allocated && g.pool.entries[c.value].mac == mac;
      }
      var k := Mine(g.pool.entries, mac, 0).value;
      assert k == c.value;
    }
  }
}
