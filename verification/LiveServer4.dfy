/** The DHCPv4 pool, lease table and server as the objects the source mutates, proved
    against the functions of Pool4, PoolStart4 and Server4. */
module LiveServer4 {
  import opened Bytes
  import opened Pool4
  import opened PoolSync4
  import opened PoolStart4
  import opened Server4

  /** struct lease_database_t. */
  class LeaseTable {
    var leases: seq<Lease>

    constructor (ls: seq<Lease>)
      ensures leases == ls
    {
      leases := ls;
    }

    /** lease_db_find_by_ip. */
    method FindByIp(ip: uint32) returns (r: Option<nat>)
      ensures r == FindLease(leases, ip)
    {
      for i := 0 to |leases|
        invariant forall j :: 0 <= j < i ==> leases[j].ip != ip
      {
        if leases[i].ip == ip {
          return Some(i);
        }
      }
      return None;
    }

    /** lease_db_find_by_mac. */
    method FindByMac(mac: Mac) returns (r: Option<nat>)
      ensures r == FindMac(leases, mac)
    {
      for i := 0 to |leases|
        invariant forall j :: 0 <= j < i ==> leases[j].mac != mac
      {
        if leases[i].mac == mac {
          return Some(i);
        }
      }
      return None;
    }

    /** lease_db_add_lease. */
    method AddLease(ip: uint32, mac: Mac, ends: int) returns (ok: bool)
      modifies this
      ensures ok <==> |old(leases)| < MAX_LEASES
      ensures leases == old(leases) + if ok then [Lease(ip, mac, ends, Active)] else []
    {
      ok := |leases| < MAX_LEASES;
      if ok {
        leases := leases + [Lease(ip, mac, ends, Active)];
      }
    }

    /** lease_db_renew_lease. */
    method RenewLease(ip: uint32, ends: int) returns (ok: bool)
      modifies this
      ensures ok <==> FindLease(old(leases), ip).Some?
      ensures leases == Renewed(old(leases), ip, ends)
    {
      var i := FindByIp(ip);
      ok := i.Some?;
      if ok {
        leases := leases[i.value := leases[i.value].(ends := ends, state := Active)];
      }
    }

    /** lease_db_release_lease. */
    method ReleaseLease(ip: uint32, now: int)
      modifies this
      ensures leases == Freed(old(leases), ip, now)
    {
      var i := FindByIp(ip);
      if i.Some? {
        leases := leases[i.value := leases[i.value].(ends := now, state := Released)];
      }
    }

    /** lease_db_expire_old_leases. */
    method ExpireOld(now: int)
      modifies this
      ensures leases == Expire(old(leases), now)
    {
      for i := 0 to |leases|
        invariant |leases| == |old(leases)|
        invariant forall k :: 0 <= k < i ==> leases[k] == Aged(old(leases)[k], now)
        invariant forall k :: i <= k < |leases| ==> leases[k] == old(leases)[k]
      {
        if leases[i].state == Active && leases[i].ends < now {
          leases := leases[i := leases[i].(state := Expired)];
        }
      }
    }
  }

  /** struct ip_pool_t. */
  class AddressPool {
    const sub: Subnet
    var entries: seq<Entry>
    var available: int
    var allocatedCount: int

    ghost function View(): Pool
      reads this
    {
      Pool(entries, available, allocatedCount)
    }

    /** ip_pool_init; the leases it finds overdue are marked so. */
    constructor (sub: Subnet, table: LeaseTable, now: int)
      modifies table
      ensures this.sub == sub && View() == Started(sub, old(table.leases), now)
      ensures table.leases == Expire(old(table.leases), now)
    {
      this.sub := sub;
      entries, available, allocatedCount := [], 0, 0;
      new;
      FillRange();
      ReserveHosts();
      FollowLeases(table, now);
    }

    /** The range loop. */
    method FillRange()
      requires View() == Pool([], 0, 0)
      modifies this
      ensures View() == Fresh(sub, RangeSize(sub.start, sub.end))
    {
      var ip := sub.start;
      while ip <= sub.end && |entries| < MAX_POOL_SIZE
        invariant |entries| <= MAX_POOL_SIZE && ip == FreshIp(sub.start, |entries|)
        invariant View() == Fresh(sub, |entries|)
        invariant |entries| <= RangeSize(sub.start, sub.end)
        invariant sub.end < ADDRESSES - 1 && sub.start <= sub.end ==> sub.start + |entries| <= sub.end + 1
        decreases MAX_POOL_SIZE - |entries|
      {
        var e := Entry(ip, if IsExcluded(sub, ip) then Excluded else Available, NO_MAC);
        if e.state == Available {
          available := available + 1;
        }
        entries := entries + [e];
        ip := if ip == ADDRESSES - 1 then 0 else ip + 1;
      }
    }

    /** ip_pool_find_entry. */
    method FindEntry(ip: uint32) returns (r: Option<nat>)
      ensures r == Find(entries, ip)
    {
      for i := 0 to |entries|
        invariant forall j :: 0 <= j < i ==> entries[j].ip != ip
      {
        if entries[i].ip == ip {
          return Some(i);
        }
      }
      return None;
    }

    /** The reservation loop. */
    method ReserveHosts()
      modifies this
      ensures View() == Reserve(old(View()), sub.hosts)
    {
      for h := 0 to |sub.hosts|
        invariant View() == Reserve(old(View()), sub.hosts[..h])
      {
        assert sub.hosts[..h + 1][..h] == sub.hosts[..h];
        var i := FindEntry(sub.hosts[h].ip);
        if i.Some? {
          entries := entries[i.value := Entry(sub.hosts[h].ip, ReservedIp, sub.hosts[h].mac)];
          available := available - 1;
        }
      }
      assert sub.hosts[..|sub.hosts|] == sub.hosts;
    }

    /** One turn of the lease loop. */
    method FollowLease(l: Lease)
      modifies this
      ensures View() == FollowOne(old(View()), l)
    {
      var i := FindEntry(l.ip);
      if i.None? || entries[i.value].state == ReservedIp {
        return;
      }
      var e := entries[i.value];
      var s := StateOf(l.state);
      if s == Allocated {
        if e.state == Available {
          available := available - 1;
          allocatedCount := allocatedCount + 1;
        }
        entries := entries[i.value := Entry(e.ip, Allocated, l.mac)];
      } else if s == Conflict {
        if e.state == Available {
          available := available - 1;
        }
        entries := entries[i.value := Entry(e.ip, Conflict, e.mac)];
      } else if s == Available {
        if e.state == Allocated {
          allocatedCount := allocatedCount - 1;
          available := available + 1;
        }
        entries := entries[i.value := Entry(e.ip, Available, NO_MAC)];
      }
    }

    /** The lease loop. */
    method FollowLeases(table: LeaseTable, now: int)
      modifies this, table
      ensures View() == Follow(old(View()), old(table.leases), now)
      ensures table.leases == Expire(old(table.leases), now)
    {
      for k := 0 to |table.leases|
        invariant |table.leases| == |old(table.leases)|
        invariant forall j :: 0 <= j < k ==> table.leases[j] == Aged(old(table.leases)[j], now)
        invariant forall j :: k <= j < |table.leases| ==> table.leases[j] == old(table.leases)[j]
        invariant View() == Follow(old(View()), old(table.leases)[..k], now)
      {
        ghost var ls := old(table.leases);
        assert ls[..k + 1][..k] == ls[..k];
        if table.leases[k].state == Active && table.leases[k].ends < now {
          table.leases := table.leases[k := table.leases[k].(state := Expired)];
        }
        FollowLease(table.leases[k]);
      }
      assert old(table.leases)[..|old(table.leases)|] == old(table.leases);
    }

    /** Moving one entry to a new state, with the counters. */
    method Move(i: nat, s: IpState, mac: Mac)
      requires i < |entries|
      modifies this
      ensures View() == Moved(old(View()), i, s, mac)
    {
      if entries[i].state == Available {
        available := available - 1;
      } else if entries[i].state == Allocated {
        allocatedCount := allocatedCount - 1;
      }
      if s == Available {
        available := available + 1;
      } else if s == Allocated {
        allocatedCount := allocatedCount + 1;
      }
      entries := entries[i := Entry(entries[i].ip, s, mac)];
    }

    method FindMine(mac: Mac) returns (r: Option<nat>)
      ensures r == Mine(entries, mac, 0)
    {
      for i := 0 to |entries|
        invariant Mine(entries, mac, i) == Mine(entries, mac, 0)
      {
        if entries[i].state == Allocated && entries[i].mac == mac {
          return Some(i);
        }
      }
      return None;
    }

    method FindAvailable() returns (r: Option<nat>)
      ensures r == FirstAvailable(entries, 0)
    {
      for i := 0 to |entries|
        invariant FirstAvailable(entries, i) == FirstAvailable(entries, 0)
      {
        if entries[i].state == Available {
          return Some(i);
        }
      }
      return None;
    }

    method FindHost(mac: Mac) returns (r: Option<nat>)
      ensures r == HostFor(sub.hosts, mac)
    {
      for i := 0 to |sub.hosts|
        invariant HostFor(sub.hosts[..i], mac) == None
      {
        assert sub.hosts[..i + 1][..i] == sub.hosts[..i];
        if sub.hosts[i].mac == mac {
          HostForPrefix(sub.hosts, i + 1, mac);
          return Some(i);
        }
      }
      assert sub.hosts[..|sub.hosts|] == sub.hosts;
      return None;
    }

    /** ip_pool_allocate. */
    method AllocateIp(mac: Mac, requested: uint32) returns (ip: Option<uint32>)
      modifies this
      ensures Grant(View(), ip) == Allocate(sub, old(View()), mac, requested)
    {
      var h := FindHost(mac);
      if h.Some? {
        return Some(sub.hosts[h.value].ip);
      }
      var m := FindMine(mac);
      if m.Some? {
        return Some(entries[m.value].ip);
      }
      if requested != 0 && sub.start <= requested <= sub.end {
        var i := FindEntry(requested);
        if i.Some? && entries[i.value].state == Available {
          Move(i.value, Allocated, mac);
          return Some(requested);
        }
      }
      var f := FindAvailable();
      if f.None? {
        return None;
      }
      ip := Some(entries[f.value].ip);
      Move(f.value, Allocated, mac);
    }

    /** ip_pool_release_ip. */
    method ReleaseIp(ip: uint32)
      modifies this
      ensures View() == Release(old(View()), ip)
    {
      var i := FindEntry(ip);
      if i.Some? && entries[i.value].state == Allocated {
        Move(i.value, Available, NO_MAC);
      }
    }

    /** One turn of the loop in ip_pool_sync_thread_func. */
    method SyncLease(table: LeaseTable, k: nat, now: int)
      requires k < |table.leases|
      modifies this, table
      ensures Synced(View(), table.leases) == PassOne(old(View()), old(table.leases), k, now)
    {
      var l := table.leases[k];
      var i := FindEntry(l.ip);
      if i.None? || entries[i.value].state == ReservedIp || entries[i.value].state == Excluded {
        return;
      }
      if l.state == Active && l.ends < now {
        l := l.(state := Expired);
      }
      table.leases := table.leases[k := l];
      var s := StateOf(l.state);
      if entries[i.value].state != s {
        Move(i.value, s, if s == Available then NO_MAC else if s == Allocated then l.mac else entries[i.value].mac);
      }
    }

    /** The pass of ip_pool_sync_thread_func. */
    method SyncPass(table: LeaseTable, now: int)
      modifies this, table
      ensures Synced(View(), table.leases) == Pass(old(View()), old(table.leases), |old(table.leases)|, now)
    {
      for k := 0 to |table.leases|
        invariant |table.leases| == |old(table.leases)|
        invariant Synced(View(), table.leases) == Pass(old(View()), old(table.leases), k, now)
      {
        SyncLease(table, k, now);
      }
    }
  }

  lemma {:induction false} HostForPrefix(hosts: seq<Host>, n: nat, mac: Mac)
    requires n <= |hosts| && HostFor(hosts[..n], mac).Some?
    ensures HostFor(hosts, mac) == HostFor(hosts[..n], mac)
    decreases |hosts|
  {
    if n == |hosts| {
      assert hosts[..n] == hosts;
    } else {
      assert hosts[..|hosts| - 1][..n] == hosts[..n];
      HostForPrefix(hosts[..|hosts| - 1], n, mac);
    }
  }

  /** What the packet workers share. */
  class Server {
    const pool: AddressPool
    const table: LeaseTable
    const secs: nat

    ghost function View(): State
      reads this, pool, table
    {
      State(pool.View(), table.leases)
    }

    constructor (sub: Subnet, ls: seq<Lease>, secs: nat, now: int)
      ensures pool.sub == sub && this.secs == secs && fresh(pool) && fresh(table)
      ensures View() == State(Started(sub, ls, now), Expire(ls, now))
    {
      var t := new LeaseTable(ls);
      var p := new AddressPool(sub, t, now);
      pool, table, this.secs := p, t, secs;
    }

    /** ip_pool_allocate_and_create_lease. */
    method AllocateAndCreate(mac: Mac, requested: uint32, ends: int) returns (reply: Reply)
      modifies pool, table
      ensures Turn(View(), reply) == AllocateAndLease(pool.sub, old(View()), mac, requested, ends)
    {
      var ip := pool.AllocateIp(mac, requested);
      if ip.None? {
        return Silence;
      }
      var k := table.FindByIp(ip.value);
      if k.Some? {
        var ok := table.RenewLease(ip.value, ends);
        return Offer(ip.value);
      }
      var ok := table.AddLease(ip.value, mac, ends);
      if ok {
        return Offer(ip.value);
      }
      pool.ReleaseIp(ip.value);
      return Silence;
    }

    /** packet_processor, and one turn of each background thread. */
    method Handle(e: Event) returns (reply: Reply)
      modifies pool, table
      ensures Turn(View(), reply) == Step(pool.sub, secs, old(View()), e)
    {
      reply := Silence;
      match e
      case Discover(mac, requested, now) =>
        var k := table.FindByMac(mac);
        if k.Some? {
          reply := Offer(table.leases[k.value].ip);
        } else {
          reply := AllocateAndCreate(mac, requested, now + secs);
        }
      case Select(mac, requested, now) =>
        var k := table.FindByIp(requested);
        if k.Some? && table.leases[k.value].mac == mac {
          var ok := table.RenewLease(requested, now + secs);
          reply := Ack(requested, mac);
        } else {
          reply := Nak;
        }
      case Renew(ciaddr, now) =>
        if ciaddr != 0 {
          var ok := table.RenewLease(ciaddr, now + secs);
          reply := if ok then RenewalAck(ciaddr) else Silence;
        }
      case GiveUp(ciaddr, now) =>
        if ciaddr != 0 {
          table.ReleaseLease(ciaddr, now);
          pool.ReleaseIp(ciaddr);
        }
      case SyncTick(now) => pool.SyncPass(table, now);
      case ExpireTick(now) => table.ExpireOld(now);
    }
  }
}
