/** How the DHCPv4 pool starts: ip_pool_init, ip_pool.c. */
module PoolStart4 {
  import opened Bytes
  import opened Pool4
  import opened PoolSync4

  /** Bitwise and. */
  function And(a: nat, b: nat): nat
    decreases a
  {
    if a == 0 || b == 0 then 0 else 2 * And(a / 2, b / 2) + (a % 2) * (b % 2)
  }

  /** Bitwise or. */
  function Or(a: nat, b: nat): int
  {
    a + b - And(a, b)
  }

  /** The network, broadcast and router addresses. */
  predicate IsExcluded(sub: Subnet, ip: uint32)
  {
    || (And(ip, sub.netmask) == sub.network && ip == sub.network)
    || ip == Or(sub.network, ADDRESSES - 1 - sub.netmask)
    || ip == sub.router
  }

  /** How many entries the range loop lays down. Its 32-bit counter never passes the
      last address there is, so a range that ends there fills the whole pool. */
  function RangeSize(start: uint32, end: uint32): (n: nat)
    ensures n <= MAX_POOL_SIZE
  {
    if start > end then 0
    else if end == ADDRESSES - 1 || end - start + 1 > MAX_POOL_SIZE then MAX_POOL_SIZE
    else end - start + 1
  }

  /** start + i in 32-bit arithmetic. */
  function FreshIp(start: uint32, i: nat): uint32
    requires i < ADDRESSES
  {
    if start + i < ADDRESSES then start + i else start + i - ADDRESSES
  }

  function FreshEntry(sub: Subnet, i: nat): Entry
    requires i < ADDRESSES
  {
    var ip := FreshIp(sub.start, i);
    Entry(ip, if IsExcluded(sub, ip) then Excluded else Available, NO_MAC)
  }

  /** The pool after the range loop has laid down n entries. */
  function Fresh(sub: Subnet, n: nat): (p: Pool)
    requires n <= MAX_POOL_SIZE
    ensures |p.entries| == n && forall i :: 0 <= i < n ==> p.entries[i] == FreshEntry(sub, i)
  {
    if n == 0 then Pool([], 0, 0)
    else
      var p := Fresh(sub, n - 1);
      var e := FreshEntry(sub, n - 1);
      Pool(p.entries + [e], p.available + Hit(e, Available), 0)
  }

  lemma {:induction false} FreshIsExact(sub: Subnet, n: nat)
    requires n <= MAX_POOL_SIZE
    ensures Exact(Fresh(sub, n))
  {
    if n > 0 {
      FreshIsExact(sub, n - 1);
      var p := Fresh(sub, n - 1);
      var e := FreshEntry(sub, n - 1);
      assert (p.entries + [e])[..n - 1] == p.entries;
    }
  }

  lemma {:induction false} FreshIsDistinct(sub: Subnet, n: nat)
    requires n <= MAX_POOL_SIZE
    ensures Distinct(Fresh(sub, n).entries)
  {
    var es := Fresh(sub, n).entries;
    forall i, j | 0 <= i < j < n ensures es[i].ip != es[j].ip {
      assert es[i].ip == FreshIp(sub.start, i) && es[j].ip == FreshIp(sub.start, j);
    }
  }

  /* ---------- static reservations ---------- */

  /** The reservation loop's turn for one host: whatever state the entry is in, it is
      reserved and one is taken off the available counter. */
  function ReserveOne(p: Pool, h: Host): Pool
  {
    var i := Find(p.entries, h.ip);
    if i.None? then p else Pool(p.entries[i.value := Entry(h.ip, ReservedIp, h.mac)], p.available - 1, p.taken)
  }

  function Reserve(p: Pool, hosts: seq<Host>): Pool
  {
    if hosts == [] then p else ReserveOne(Reserve(p, hosts[..|hosts| - 1]), hosts[|hosts| - 1])
  }

  predicate Misses(p: Pool, h: Host)
  {
    var i := Find(p.entries, h.ip);
    i.Some? && p.entries[i.value].state != Available
  }

  /** How often the reservation loop takes off one too many. */
  function Miscount(p: Pool, hosts: seq<Host>): nat
  {
    if hosts == [] then 0
    else Miscount(p, hosts[..|hosts| - 1]) +
         (if Misses(Reserve(p, hosts[..|hosts| - 1]), hosts[|hosts| - 1]) then 1 else 0)
  }

  /** Where the loop leaves the pool: hosts' entries are reserved, all others alone. */
  lemma {:induction false} ReserveShape(p: Pool, hosts: seq<Host>)
    requires Distinct(p.entries)
    ensures var q := Reserve(p, hosts);
      SameIps(p.entries, q.entries) && Distinct(q.entries) && HostsReserved(hosts, q.entries)
    ensures var q := Reserve(p, hosts); forall i :: 0 <= i < |p.entries| ==>
      q.entries[i] == p.entries[i] || (exists h :: 0 <= h < |hosts| && hosts[h].ip == p.entries[i].ip)
  {
    if hosts != [] {
      var n := |hosts| - 1;
      ReserveShape(p, hosts[..n]);
      var r, q := Reserve(p, hosts[..n]), Reserve(p, hosts);
      forall h, i | 0 <= h < |hosts| && 0 <= i < |q.entries| && q.entries[i].ip == hosts[h].ip
        ensures q.entries[i].state == ReservedIp
      {
        if h < n {
          assert hosts[..n][h] == hosts[h];
        } else {
          assert Find(r.entries, hosts[n].ip) == Some(i);
        }
      }
      forall i | 0 <= i < |p.entries|
        ensures q.entries[i] == p.entries[i] || (exists h :: 0 <= h < |hosts| && hosts[h].ip == p.entries[i].ip)
      {
        if q.entries[i] == r.entries[i] {
          if h :| 0 <= h < n && hosts[..n][h].ip == p.entries[i].ip {
            assert hosts[h].ip == p.entries[i].ip;
          }
        } else {
          assert hosts[n].ip == p.entries[i].ip;
        }
      }
    }
  }

  ghost predicate NoneAllocated(es: seq<Entry>)
  {
    forall i :: 0 <= i < |es| ==> es[i].state != Allocated
  }

  lemma {:induction false} NoneAllocatedCount(es: seq<Entry>)
    requires NoneAllocated(es)
    ensures Count(es, Allocated) == 0
  {
    if es != [] {
      NoneAllocatedCount(es[..|es| - 1]);
    }
  }

  /** The available counter comes out short by exactly the number of misses. */
  lemma {:induction false} ReserveCounts(p: Pool, hosts: seq<Host>)
    requires Exact(p) && NoneAllocated(p.entries)
    ensures var q := Reserve(p, hosts);
      q.available == Count(q.entries, Available) - Miscount(p, hosts) && q.taken == 0 && NoneAllocated(q.entries)
  {
    if hosts == [] {
      NoneAllocatedCount(p.entries);
    } else {
      var n := |hosts| - 1;
      ReserveCounts(p, hosts[..n]);
      var r := Reserve(p, hosts[..n]);
      var i := Find(r.entries, hosts[n].ip);
      if i.Some? {
        CountUpdate(r.entries, i.value, Entry(hosts[n].ip, ReservedIp, hosts[n].mac), Available);
      }
    }
  }

  /** The reservations that lie in the pool name different addresses, none of them
      excluded. */
  ghost predicate CleanHosts(es: seq<Entry>, hosts: seq<Host>)
  {
    forall h :: 0 <= h < |hosts| ==> CleanHost(es, hosts, h)
  }

  ghost predicate CleanHost(es: seq<Entry>, hosts: seq<Host>, h: nat)
    requires h < |hosts|
  {
    var i := Find(es, hosts[h].ip);
    i.Some? ==> es[i.value].state == Available && forall k :: 0 <= k < h ==> hosts[k].ip != hosts[h].ip
  }

  /** Host h misses exactly when it is not clean. */
  lemma {:induction false} MissIsUnclean(p: Pool, hosts: seq<Host>, n: nat)
    requires Distinct(p.entries) && NoneAllocated(p.entries) && n < |hosts|
    ensures Misses(Reserve(p, hosts[..n]), hosts[n]) <==> !CleanHost(p.entries, hosts, n)
  {
    var q := Reserve(p, hosts[..n]);
    ReserveShape(p, hosts[..n]);
    var i := Find(p.entries, hosts[n].ip);
    if i.Some? {
      if k :| 0 <= k < n && hosts[k].ip == hosts[n].ip {
        assert hosts[..n][k] == hosts[k];
        assert q.entries[i.value].state == ReservedIp;
      } else {
        assert forall h :: 0 <= h < n ==> hosts[..n][h].ip != p.entries[i.value].ip;
      }
    }
  }

  lemma {:induction false} MiscountLast(p: Pool, hosts: seq<Host>, n: nat)
    requires 0 < n <= |hosts|
    ensures Miscount(p, hosts[..n]) ==
      Miscount(p, hosts[..n - 1]) + if Misses(Reserve(p, hosts[..n - 1]), hosts[n - 1]) then 1 else 0
  {
    assert hosts[..n][..n - 1] == hosts[..n - 1] && hosts[..n][n - 1] == hosts[n - 1];
  }

  ghost predicate CleanTo(es: seq<Entry>, hosts: seq<Host>, n: nat)
    requires n <= |hosts|
  {
    forall h :: 0 <= h < n ==> CleanHost(es, hosts, h)
  }

  lemma {:induction false} CleanToLast(es: seq<Entry>, hosts: seq<Host>, n: nat)
    requires 0 < n <= |hosts|
    ensures CleanTo(es, hosts, n) <==> CleanTo(es, hosts, n - 1) && CleanHost(es, hosts, n - 1)
  {
  }

  lemma {:induction false} MiscountIsUnclean(p: Pool, hosts: seq<Host>, n: nat)
    requires Distinct(p.entries) && NoneAllocated(p.entries) && n <= |hosts|
    ensures Miscount(p, hosts[..n]) == 0 <==> CleanTo(p.entries, hosts, n)
  {
    if n > 0 {
      MiscountIsUnclean(p, hosts, n - 1);
      MiscountLast(p, hosts, n);
      MissIsUnclean(p, hosts, n - 1);
      CleanToLast(p.entries, hosts, n);
    }
  }

  /** The reservations leave the counters exact if and only if they are clean. */
  lemma {:induction false} ReserveIsExact(p: Pool, hosts: seq<Host>)
    requires Exact(p) && Distinct(p.entries) && NoneAllocated(p.entries)
    ensures Exact(Reserve(p, hosts)) <==> CleanHosts(p.entries, hosts)
  {
    ReserveCounts(p, hosts);
    NoneAllocatedCount(Reserve(p, hosts).entries);
    MiscountIsUnclean(p, hosts, |hosts|);
    assert hosts[..|hosts|] == hosts;
  }

  /* ---------- the leases on file ---------- */

  function Aged(l: Lease, now: int): Lease
  {
    if Overdue(l, now) then l.(state := Expired) else l
  }

  /** The lease loop's turn for one lease. */
  function FollowOne(p: Pool, l: Lease): Pool
  {
    var i := Find(p.entries, l.ip);
    if i.None? || p.entries[i.value].state == ReservedIp then p
    else
      var e := p.entries[i.value];
      match StateOf(l.state)
      case Allocated =>
        Pool(p.entries[i.value := Entry(e.ip, Allocated, l.mac)],
             p.available - Hit(e, Available), p.taken + Hit(e, Available))
      case Conflict =>
        Pool(p.entries[i.value := Entry(e.ip, Conflict, e.mac)], p.available - Hit(e, Available), p.taken)
      case Available =>
        Pool(p.entries[i.value := Entry(e.ip, Available, NO_MAC)],
             p.available + Hit(e, Allocated), p.taken - Hit(e, Allocated))
      case _ => p
  }

  function Follow(p: Pool, ls: seq<Lease>, now: int): Pool
  {
    if ls == [] then p else FollowOne(Follow(p, ls[..|ls| - 1], now), Aged(ls[|ls| - 1], now))
  }

  /** ip_pool_init, the pool it builds. */
  function Started(sub: Subnet, ls: seq<Lease>, now: int): Pool
  {
    Follow(Reserve(Fresh(sub, RangeSize(sub.start, sub.end)), sub.hosts), ls, now)
  }

  /** No lease is on an excluded entry, and no two on one address. */
  ghost predicate CleanLeases(es: seq<Entry>, ls: seq<Lease>)
  {
    OneLeaseEach(ls)
    && forall k, i :: 0 <= k < |ls| && 0 <= i < |es| && es[i].ip == ls[k].ip ==> es[i].state != Excluded
  }

  /** p has only been changed where one of the leases is. */
  ghost predicate OnlyAt(es: seq<Entry>, fs: seq<Entry>, ls: seq<Lease>)
  {
    SameIps(es, fs)
    && forall i :: 0 <= i < |es| && (forall k :: 0 <= k < |ls| ==> ls[k].ip != es[i].ip) ==> fs[i] == es[i]
  }

  ghost predicate Settling(es: seq<Entry>)
  {
    forall i :: 0 <= i < |es| ==> es[i].state == Available || es[i].state == ReservedIp || es[i].state == Excluded
  }

  lemma {:induction false} FollowKeepsInv(sub: Subnet, p: Pool, ls: seq<Lease>, now: int)
    requires Inv(sub, p) && Settling(p.entries) && CleanLeases(p.entries, ls)
    ensures Inv(sub, Follow(p, ls, now)) && OnlyAt(p.entries, Follow(p, ls, now).entries, ls)
  {
    if ls != [] {
      var n := |ls| - 1;
      FollowKeepsInv(sub, p, ls[..n], now);
      var q := Follow(p, ls[..n], now);
      var l := Aged(ls[n], now);
      var i := Find(q.entries, l.ip);
      if i.Some? && q.entries[i.value].state != ReservedIp {
        forall k | 0 <= k < n ensures ls[..n][k].ip != l.ip {
          assert ls[k].ip != ls[n].ip;
        }
        assert q.entries[i.value] == p.entries[i.value];
        assert q.entries[i.value].state == Available;
        FollowOneKeepsInv(sub, q, l, i.value);
      }
    }
  }

  lemma {:induction false} FollowOneKeepsInv(sub: Subnet, p: Pool, l: Lease, i: nat)
    requires Inv(sub, p) && Find(p.entries, l.ip) == Some(i) && p.entries[i].state == Available
    ensures Inv(sub, FollowOne(p, l)) && SameIps(p.entries, FollowOne(p, l).entries)
    ensures forall j :: 0 <= j < |p.entries| && j != i ==> FollowOne(p, l).entries[j] == p.entries[j]
  {
    match StateOf(l.state)
    case Allocated => MovedKeepsInv(sub, p, i, Allocated, l.mac);
    case Conflict => MovedKeepsInv(sub, p, i, Conflict, p.entries[i].mac);
    case Available => MovedKeepsInv(sub, p, i, Available, NO_MAC);
    case _ =>
  }

  /** A pool that starts from clean reservations and clean leases starts with exact
      counters, distinct entries and every fixed address reserved. */
  lemma {:induction false} StartedIsInv(sub: Subnet, ls: seq<Lease>, now: int)
    requires var es := Fresh(sub, RangeSize(sub.start, sub.end)).entries;
      CleanHosts(es, sub.hosts) && CleanLeases(es, ls)
    ensures Inv(sub, Started(sub, ls, now))
  {
    var n := RangeSize(sub.start, sub.end);
    var p := Fresh(sub, n);
    FreshIsExact(sub, n);
    FreshIsDistinct(sub, n);
    ReserveIsExact(p, sub.hosts);
    ReserveShape(p, sub.hosts);
    ReserveStates(p, sub.hosts);
    FollowKeepsInv(sub, Reserve(p, sub.hosts), ls, now);
  }

  lemma {:induction false} ReserveStates(p: Pool, hosts: seq<Host>)
    ensures |Reserve(p, hosts).entries| == |p.entries|
    ensures forall i :: 0 <= i < |p.entries| ==>
      Reserve(p, hosts).entries[i].state == p.entries[i].state || Reserve(p, hosts).entries[i].state == ReservedIp
  {
    if hosts != [] {
      ReserveStates(p, hosts[..|hosts| - 1]);
    }
  }

  /** Every allocated entry is allocated to the owner of a lease on its address. */
  ghost predicate OwnedByLease(es: seq<Entry>, ls: seq<Lease>)
  {
    forall i :: 0 <= i < |es| && es[i].state == Allocated ==> HasLease(es[i], ls)
  }

  ghost predicate HasLease(e: Entry, ls: seq<Lease>)
  {
    exists k :: 0 <= k < |ls| && ls[k].ip == e.ip && ls[k].mac == e.mac && StateOf(ls[k].state) == Allocated
  }

  lemma {:induction false} FollowOwned(p: Pool, ls: seq<Lease>, now: int)
    requires NoneAllocated(p.entries)
    ensures OwnedByLease(Follow(p, ls, now).entries, ls)
  {
    if ls != [] {
      var n := |ls| - 1;
      FollowOwned(p, ls[..n], now);
      var q, r := Follow(p, ls[..n], now), Follow(p, ls, now);
      forall i | 0 <= i < |r.entries| && r.entries[i].state == Allocated ensures HasLease(r.entries[i], ls) {
        if r.entries[i] == q.entries[i] {
          var k :| 0 <= k < n && ls[..n][k].ip == q.entries[i].ip && ls[..n][k].mac == q.entries[i].mac
            && StateOf(ls[..n][k].state) == Allocated;
          assert ls[k] == ls[..n][k];
        } else {
          assert ls[n].ip == r.entries[i].ip && ls[n].mac == r.entries[i].mac && StateOf(ls[n].state) == Allocated;
        }
      }
    }
  }

  /** No client has two leases that count as allocated. */
  ghost predicate OneLeasePerClient(ls: seq<Lease>)
  {
    forall i, j :: 0 <= i < j < |ls| && StateOf(ls[i].state) == Allocated && StateOf(ls[j].state) == Allocated ==>
      ls[i].mac != ls[j].mac
  }

  /** If no client has two such leases on file, none starts with two addresses. */
  lemma {:induction false} StartedOneEach(sub: Subnet, ls: seq<Lease>, now: int)
    requires OneLeasePerClient(ls)
    requires var es := Fresh(sub, RangeSize(sub.start, sub.end)).entries;
      CleanHosts(es, sub.hosts) && CleanLeases(es, ls)
    ensures OneEach(Started(sub, ls, now).entries)
  {
    var n := RangeSize(sub.start, sub.end);
    var p := Fresh(sub, n);
    FreshIsExact(sub, n);
    ReserveCounts(p, sub.hosts);
    FollowOwned(Reserve(p, sub.hosts), ls, now);
    StartedIsInv(sub, ls, now);
    var es := Started(sub, ls, now).entries;
    forall i, j | 0 <= i < j < |es| && es[i].state == Allocated && es[j].state == Allocated
      ensures es[i].mac != es[j].mac {
      assert HasLease(es[i], ls) && HasLease(es[j], ls);
      var a :| 0 <= a < |ls| && ls[a].ip == es[i].ip && ls[a].mac == es[i].mac && StateOf(ls[a].state) == Allocated;
      var b :| 0 <= b < |ls| && ls[b].ip == es[j].ip && ls[b].mac == es[j].mac && StateOf(ls[b].state) == Allocated;
      assert a != b;
    }
  }
}
