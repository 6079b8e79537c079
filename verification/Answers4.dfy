/** What the operations of the DHCPv4 pool and server answer, said in terms of the
    entries, leases and reservations before and after alone; and, from that, whose a
    fixed address is over whole runs. */
module Answers4 {
  import opened Bytes
  import opened Pool4
  import opened PoolSync4
  import opened PoolStart4
  import opened Server4

  /* ---------- ip_pool_allocate ---------- */

  /** Host k is the client's: the first with its hardware address. */
  ghost predicate HostOf(hosts: seq<Host>, mac: Mac, k: nat)
  {
    k < |hosts| && hosts[k].mac == mac && forall j :: 0 <= j < k ==> hosts[j].mac != mac
  }

  ghost predicate NoHost(hosts: seq<Host>, mac: Mac)
  {
    forall j :: 0 <= j < |hosts| ==> hosts[j].mac != mac
  }

  /** Entry i is the first allocated to the client. */
  ghost predicate OwnEntry(es: seq<Entry>, mac: Mac, i: nat)
  {
    && i < |es| && es[i].state == Allocated && es[i].mac == mac
    && forall j :: 0 <= j < i ==> !(es[j].state == Allocated && es[j].mac == mac)
  }

  ghost predicate NoOwnEntry(es: seq<Entry>, mac: Mac)
  {
    forall j :: 0 <= j < |es| ==> !(es[j].state == Allocated && es[j].mac == mac)
  }

  /** Entry i is the requested one, in range and available. */
  ghost predicate Asked(sub: Subnet, es: seq<Entry>, requested: uint32, i: nat)
  {
    && requested != 0 && sub.start <= requested <= sub.end
    && i < |es| && es[i].ip == requested && es[i].state == Available
    && forall j :: 0 <= j < i ==> es[j].ip != requested
  }

  ghost predicate FirstFree(es: seq<Entry>, i: nat)
  {
    i < |es| && es[i].state == Available && forall j :: 0 <= j < i ==> es[j].state != Available
  }

  /** The grant of an available entry: it is the client's, one less is available and one
      more allocated, and nothing else changes. */
  function Taken(p: Pool, i: nat, mac: Mac): Grant
    requires i < |p.entries|
  {
    Grant(Pool(p.entries[i := Entry(p.entries[i].ip, Allocated, mac)], p.available - 1, p.taken + 1),
          Some(p.entries[i].ip))
  }

  /** First: a client with a reservation gets the address of its first one, always, and
      the pool stays as it is. */
  lemma {:induction false} ReservationComesFirst(sub: Subnet, p: Pool, mac: Mac, requested: uint32, k: nat)
    requires HostOf(sub.hosts, mac, k)
    ensures Allocate(sub, p, mac, requested) == Grant(p, Some(sub.hosts[k].ip))
  {
    assert HostFor(sub.hosts, mac) == Some(k);
  }

  /** Second: without one, a client with an allocated entry gets the first of them. */
  lemma {:induction false} OwnComesSecond(sub: Subnet, p: Pool, mac: Mac, requested: uint32, i: nat)
    requires NoHost(sub.hosts, mac) && OwnEntry(p.entries, mac, i)
    ensures Allocate(sub, p, mac, requested) == Grant(p, Some(p.entries[i].ip))
  {
    assert Mine(p.entries, mac, 0) == Some(i);
  }

  /** Third: without either, a client gets the address it asks for, if that is in range
      and available. */
  lemma {:induction false} RequestComesThird(sub: Subnet, p: Pool, mac: Mac, requested: uint32, i: nat)
    requires NoHost(sub.hosts, mac) && NoOwnEntry(p.entries, mac) && Asked(sub, p.entries, requested, i)
    ensures Allocate(sub, p, mac, requested) == Taken(p, i, mac) && p.entries[i].ip == requested
  {
    assert Find(p.entries, requested) == Some(i);
  }

  /** Last: otherwise it gets the first available one, and nothing exactly if there is
      none. */
  lemma {:induction false} FreeComesLast(sub: Subnet, p: Pool, mac: Mac, requested: uint32)
    requires NoHost(sub.hosts, mac) && NoOwnEntry(p.entries, mac)
    requires forall i: nat :: !Asked(sub, p.entries, requested, i)
    ensures forall i: nat :: FirstFree(p.entries, i) ==> Allocate(sub, p, mac, requested) == Taken(p, i, mac)
    ensures (forall i :: 0 <= i < |p.entries| ==> p.entries[i].state != Available) ==>
      Allocate(sub, p, mac, requested) == Grant(p, None)
  {
    var w := Find(p.entries, requested);
    assert w.Some? && Wanted(sub, p.entries, requested).Some? ==> Asked(sub, p.entries, requested, w.value);
    forall i: nat | FirstFree(p.entries, i) ensures FirstAvailable(p.entries, 0) == Some(i) {
    }
  }

  /** Entry i is the first on the address. */
  ghost predicate EntryOn(es: seq<Entry>, ip: uint32, i: nat)
  {
    i < |es| && es[i].ip == ip && forall j :: 0 <= j < i ==> es[j].ip != ip
  }

  /** Releasing an address frees its entry if that is allocated, and changes nothing
      otherwise. */
  lemma {:induction false} ReleaseAnswers(p: Pool, ip: uint32)
    ensures forall i: nat :: EntryOn(p.entries, ip, i) ==>
      Release(p, ip) ==
        if p.entries[i].state == Allocated
        then Pool(p.entries[i := Entry(ip, Available, NO_MAC)], p.available + 1, p.taken - 1) else p
    ensures (forall i :: 0 <= i < |p.entries| ==> p.entries[i].ip != ip) ==> Release(p, ip) == p
  {
    forall i: nat | EntryOn(p.entries, ip, i) ensures Find(p.entries, ip) == Some(i) {
    }
  }

  /* ---------- the range ---------- */

  lemma {:induction false} AndTwice(a: nat, b: nat)
    ensures And(2 * a, 2 * b) == 2 * And(a, b) && And(2 * a, 2 * b + 1) == 2 * And(a, b)
  {
    if a > 0 && b == 0 { assert And(2 * a, 1) == 2 * And(a, 0); }
  }

  lemma {:induction false} TwiceAs(m: nat, p: nat)
    ensures m * (2 * p) == 2 * (m * p)
  {
  }

  lemma {:induction false} NoCommonTwice(m: nat, p: nat)
    requires p > 0 && And(m * p, p - 1) == 0
    ensures And(m * (2 * p), 2 * p - 1) == 0
  {
    TwiceAs(m, p);
    AndTwice(m * p, p - 1);
  }

  /** A number with k low zeros and one below 2^k have no bit in common. */
  lemma {:induction false} NoCommonBits(m: nat, k: nat)
    ensures And(m * Pow2(k), Pow2(k) - 1) == 0
  {
    if k > 0 {
      NoCommonBits(m, k - 1);
      NoCommonTwice(m, Pow2(k - 1));
    }
  }

  lemma {:induction false} AndShiftedTwice(a: nat, b: nat, c: nat, p: nat)
    requires And(a * p, b * p) == c * p
    ensures And(a * (2 * p), b * (2 * p)) == c * (2 * p)
  {
    TwiceAs(a, p);
    TwiceAs(b, p);
    TwiceAs(c, p);
    AndTwice(a * p, b * p);
  }

  lemma {:induction false} AndShifted(a: nat, b: nat, k: nat)
    ensures And(a * Pow2(k), b * Pow2(k)) == And(a, b) * Pow2(k)
  {
    if k > 0 {
      AndShifted(a, b, k - 1);
      AndShiftedTwice(a, b, And(a, b), Pow2(k - 1));
    }
  }

  lemma {:induction false} AndAllOnes(a: nat, j: nat)
    requires a < Pow2(j)
    ensures And(a, Pow2(j) - 1) == a
  {
    if a > 0 {
      var b := Pow2(j) - 1;
      AndAllOnes(a / 2, j - 1);
      assert b / 2 == Pow2(j - 1) - 1 && b % 2 == 1;
    }
  }

  lemma {:induction false} Pow2Of32()
    ensures Pow2(32) == 0x1_0000_0000
  {
    assert Pow2(4) == 16;
    Pow2Add(4, 4);
    Pow2Add(8, 8);
    Pow2Add(16, 16);
  }

  /** The mask of a network of 2^k addresses keeps its first address. */
  lemma {:induction false} MaskKeepsNetwork(m: nat, k: nat, mask: nat)
    requires k <= 32 && m < Pow2(32 - k) && mask == 0x1_0000_0000 - Pow2(k)
    ensures And(m * Pow2(k), mask) == m * Pow2(k)
  {
    var high := Pow2(32 - k) - 1;
    Pow2Of32();
    Pow2Add(32 - k, k);
    assert 32 - k + k == 32;
    assert high * Pow2(k) == mask by { Distribute(high, 1, Pow2(k)); }
    AndShifted(m, high, k);
    AndAllOnes(m, 32 - k);
  }

  /** In a network of 2^k addresses exactly the first address, the last and the router are
      excluded. */
  lemma {:induction false} ExcludedInNetwork(sub: Subnet, k: nat, m: nat, ip: uint32)
    requires k <= 32 && m < Pow2(32 - k)
    requires sub.netmask == 0x1_0000_0000 - Pow2(k) && sub.network == m * Pow2(k)
    ensures IsExcluded(sub, ip) <==> ip == sub.network || ip == sub.network + Pow2(k) - 1 || ip == sub.router
  {
    NoCommonBits(m, k);
    MaskKeepsNetwork(m, k, sub.netmask);
  }

  ghost predicate LaidDown(es: seq<Entry>, ip: uint32)
  {
    exists i :: 0 <= i < |es| && es[i].ip == ip
  }

  lemma {:induction false} FreshAt(sub: Subnet, i: nat)
    requires sub.end < 0xFFFF_FFFF && i < RangeSize(sub.start, sub.end)
    ensures var e := Fresh(sub, RangeSize(sub.start, sub.end)).entries[i];
      && e.ip == sub.start + i <= sub.end && i < 1024 && e.mac == NO_MAC
      && e.state == if IsExcluded(sub, e.ip) then Excluded else Available
  {
    assert Fresh(sub, RangeSize(sub.start, sub.end)).entries[i] == FreshEntry(sub, i);
  }

  /** Unless it ends at the last address there is, a range is laid down whole, up to 1024
      addresses, and every address in it but the excluded ones is available. */
  lemma {:induction false} RangeIsLaidDown(sub: Subnet, ip: uint32)
    requires sub.end < 0xFFFF_FFFF
    ensures var es := Fresh(sub, RangeSize(sub.start, sub.end)).entries;
      && (LaidDown(es, ip) <==> sub.start <= ip <= sub.end && ip < sub.start + 1024)
      && forall i :: 0 <= i < |es| ==>
           es[i].state == (if IsExcluded(sub, es[i].ip) then Excluded else Available) && es[i].mac == NO_MAC
  {
    var n := RangeSize(sub.start, sub.end);
    var es := Fresh(sub, n).entries;
    forall i | 0 <= i < n
      ensures es[i].ip == sub.start + i <= sub.end && i < 1024 && es[i].mac == NO_MAC
      ensures es[i].state == if IsExcluded(sub, es[i].ip) then Excluded else Available
    {
      FreshAt(sub, i);
    }
    if sub.start <= ip <= sub.end && ip < sub.start + 1024 {
      var i: int := ip - sub.start;
      assert 0 <= i < |es|;
      assert es[i].ip == ip;
    }
  }

  /* ---------- entries and their leases ---------- */

  predicate TimeIsUp(l: Lease, now: int)
  {
    l.state == Active && l.ends < now
  }

  /** The state an entry takes from its lease at a time. */
  function StateFrom(l: Lease, now: int): IpState
  {
    if TimeIsUp(l, now) || l.state in {Free, Expired, Released} then Available
    else if l.state in {Active, Backup} then Allocated
    else if l.state == Abandoned then Conflict
    else if l.state == ReservedLease then ReservedIp
    else UnknownIp
  }

  /** A pass puts an entry that is not reserved or excluded into its lease's state, the
      hardware address with it if the state changes. */
  lemma {:induction false} PassFollowsLease(p: Pool, ls: seq<Lease>, now: int, i: nat, k: nat)
    requires Distinct(p.entries) && OneLeaseEach(ls)
    requires i < |p.entries| && k < |ls| && p.entries[i].ip == ls[k].ip
    ensures |Pass(p, ls, |ls|, now).pool.entries| == |p.entries|
    ensures var e, state := p.entries[i], StateFrom(ls[k], now);
      Pass(p, ls, |ls|, now).pool.entries[i] ==
        if e.state in {ReservedIp, Excluded} || e.state == state then e
        else Entry(e.ip, state, if state == Available then NO_MAC else if state == Allocated then ls[k].mac else e.mac)
  {
    PassAt(p, ls, |ls|, now, i, k);
  }

  /** The address has an entry that a pass may change. */
  ghost predicate Movable(es: seq<Entry>, ip: uint32)
  {
    exists i :: 0 <= i < |es| && es[i].ip == ip && es[i].state !in {ReservedIp, Excluded}
  }

  lemma {:induction false} PassOneExpires(p: Pool, ls: seq<Lease>, k: nat, now: int)
    requires Distinct(p.entries) && k < |ls|
    ensures PassOne(p, ls, k, now).leases ==
      if TimeIsUp(ls[k], now) && Movable(p.entries, ls[k].ip) then ls[k := ls[k].(state := Expired)] else ls
  {
    assert ls[k := ls[k]] == ls;
    match Find(p.entries, ls[k].ip) {
      case Some(i) => assert Movable(p.entries, ls[k].ip) <==> Touchable(p.entries[i]);
      case None =>
    }
  }

  /** Leases on other addresses do not change an entry. */
  lemma {:induction false} PassLeavesMovable(p: Pool, ls: seq<Lease>, n: nat, now: int)
    requires Distinct(p.entries) && n < |ls| && OneLeaseEach(ls)
    ensures Movable(Pass(p, ls, n, now).pool.entries, ls[n].ip) <==> Movable(p.entries, ls[n].ip)
  {
    var es, fs := p.entries, Pass(p, ls, n, now).pool.entries;
    PassKeepsIps(p, ls, n, now);
    forall i | 0 <= i < |es| && es[i].ip == ls[n].ip ensures fs[i] == es[i] { PassAt(p, ls, n, now, i, n); }
    assert forall i :: 0 <= i < |es| ==> fs[i].ip == es[i].ip;
  }

  /** And it expires exactly the leases that are up and have such an entry. */
  lemma {:induction false} PassExpires(p: Pool, ls: seq<Lease>, n: nat, now: int, k: nat)
    requires Distinct(p.entries) && OneLeaseEach(ls) && n <= |ls| && k < |ls|
    ensures Pass(p, ls, n, now).leases[k] ==
      if k < n && TimeIsUp(ls[k], now) && Movable(p.entries, ls[k].ip) then ls[k].(state := Expired) else ls[k]
  {
    if n > 0 {
      var r := Pass(p, ls, n - 1, now);
      PassExpires(p, ls, n - 1, now, k);
      PassAhead(p, ls, n - 1, now, n - 1);
      PassOneExpires(r.pool, r.leases, n - 1, now);
      PassLeavesMovable(p, ls, n - 1, now);
    }
  }

  lemma {:induction false} FollowOneAt(p: Pool, l: Lease, i: nat)
    requires Distinct(p.entries) && i < |p.entries|
    ensures SameIps(p.entries, FollowOne(p, l).entries) && Distinct(FollowOne(p, l).entries)
    ensures var e := p.entries[i];
      FollowOne(p, l).entries[i] ==
        if e.ip != l.ip || e.state == ReservedIp then e
        else if l.state in {Active, Backup} then Entry(e.ip, Allocated, l.mac)
        else if l.state == Abandoned then Entry(e.ip, Conflict, e.mac)
        else if l.state in {Free, Expired, Released} then Entry(e.ip, Available, NO_MAC)
        else e
  {
    if p.entries[i].ip == l.ip { assert Find(p.entries, l.ip) == Some(i); }
  }

  /** The entry once start-up has looked at its lease. */
  function StartedFrom(e: Entry, l: Lease, now: int): Entry
  {
    var state := StateFrom(l, now);
    if e.state == ReservedIp then e
    else if state == Allocated then Entry(e.ip, Allocated, l.mac)
    else if state == Conflict then Entry(e.ip, Conflict, e.mac)
    else if state == Available then Entry(e.ip, Available, NO_MAC)
    else e
  }

  lemma {:induction false} AgedAt(p: Pool, l: Lease, now: int, i: nat)
    requires Distinct(p.entries) && i < |p.entries|
    ensures var q := FollowOne(p, Aged(l, now));
      && SameIps(p.entries, q.entries)
      && q.entries[i] == if p.entries[i].ip == l.ip then StartedFrom(p.entries[i], l, now) else p.entries[i]
  {
    FollowOneAt(p, Aged(l, now), i);
  }

  lemma {:induction false} FollowTurn(p: Pool, ls: seq<Lease>, now: int, n: nat, i: nat)
    requires n < |ls| && Distinct(Follow(p, ls[..n], now).entries) && i < |Follow(p, ls[..n], now).entries|
    ensures var q, t := Follow(p, ls[..n], now), Follow(p, ls[..n + 1], now);
      && SameIps(q.entries, t.entries)
      && t.entries[i] == if q.entries[i].ip == ls[n].ip then StartedFrom(q.entries[i], ls[n], now) else q.entries[i]
  {
    var q := Follow(p, ls[..n], now);
    assert ls[..n + 1][..n] == ls[..n] && ls[..n + 1][n] == ls[n];
    assert Follow(p, ls[..n + 1], now) == FollowOne(q, Aged(ls[n], now));
    AgedAt(q, ls[n], now, i);
  }

  lemma {:induction false} SameIpsDistinct(es: seq<Entry>, fs: seq<Entry>)
    requires SameIps(es, fs) && Distinct(es)
    ensures Distinct(fs)
  {
  }

  lemma {:induction false} LeasesApart(ls: seq<Lease>, j: nat, k: nat)
    requires OneLeaseEach(ls) && j < |ls| && k < |ls| && j != k
    ensures ls[j].ip != ls[k].ip
  {
  }

  /** At start-up an entry that is not reserved follows its lease, whatever state it was
      laid down in; leases in other states leave it alone. */
  lemma {:induction false} StartFollowsLease(p: Pool, ls: seq<Lease>, now: int, n: nat, i: nat, k: nat)
    requires Distinct(p.entries) && OneLeaseEach(ls) && n <= |ls|
    requires i < |p.entries| && k < |ls| && p.entries[i].ip == ls[k].ip
    ensures SameIps(p.entries, Follow(p, ls[..n], now).entries)
    ensures Follow(p, ls[..n], now).entries[i] == if k < n then StartedFrom(p.entries[i], ls[k], now) else p.entries[i]
  {
    if n > 0 {
      StartFollowsLease(p, ls, now, n - 1, i, k);
      SameIpsDistinct(p.entries, Follow(p, ls[..n - 1], now).entries);
      FollowTurn(p, ls, now, n - 1, i);
      if n - 1 != k { LeasesApart(ls, n - 1, k); }
    }
  }

  /* ---------- the server's events ---------- */

  /** Lease k is the first on the address. */
  ghost predicate LeaseOn(ls: seq<Lease>, ip: uint32, k: nat)
  {
    k < |ls| && ls[k].ip == ip && forall j :: 0 <= j < k ==> ls[j].ip != ip
  }

  ghost predicate NoLeaseOn(ls: seq<Lease>, ip: uint32)
  {
    forall j :: 0 <= j < |ls| ==> ls[j].ip != ip
  }

  lemma {:induction false} LeaseFound(ls: seq<Lease>, ip: uint32, k: nat)
    ensures LeaseOn(ls, ip, k) ==> FindLease(ls, ip) == Some(k)
    ensures NoLeaseOn(ls, ip) ==> FindLease(ls, ip) == None
  {
  }

  /** A REQUEST that selects an address is acknowledged exactly if the first lease on the
      address is the client's; the lease is then active until the lease time is over,
      and nothing else changes. */
  lemma {:induction false} SelectAnswers(
    sub: Subnet, secs: nat, s: State, mac: Mac, requested: uint32, now: int, k: nat)
    requires LeaseOn(s.leases, requested, k) || NoLeaseOn(s.leases, requested)
    ensures Step(sub, secs, s, Select(mac, requested, now)) ==
      if LeaseOn(s.leases, requested, k) && s.leases[k].mac == mac
      then Turn(State(s.pool, s.leases[k := Lease(requested, mac, now + secs, Active)]), Ack(requested, mac))
      else Turn(s, Nak)
  {
    LeaseFound(s.leases, requested, k);
  }

  /** One that renews is acknowledged exactly if there is a lease on the address, whoever
      it is for. */
  lemma {:induction false} RenewAnswers(sub: Subnet, secs: nat, s: State, ip: uint32, now: int, k: nat)
    requires LeaseOn(s.leases, ip, k) || NoLeaseOn(s.leases, ip)
    ensures Step(sub, secs, s, Renew(ip, now)) ==
      if ip != 0 && LeaseOn(s.leases, ip, k)
      then Turn(State(s.pool, s.leases[k := Lease(ip, s.leases[k].mac, now + secs, Active)]), RenewalAck(ip))
      else Turn(s, Silence)
  {
    LeaseFound(s.leases, ip, k);
  }

  /** A RELEASE ends the first lease on the address now, and frees the address. */
  lemma {:induction false} GiveUpAnswers(sub: Subnet, secs: nat, s: State, ip: uint32, now: int, k: nat)
    requires LeaseOn(s.leases, ip, k) || NoLeaseOn(s.leases, ip)
    ensures Step(sub, secs, s, GiveUp(ip, now)) ==
      if ip == 0 then Turn(s, Silence)
      else Turn(State(Release(s.pool, ip),
                      if NoLeaseOn(s.leases, ip) then s.leases
                      else s.leases[k := Lease(ip, s.leases[k].mac, now, Released)]), Silence)
  {
    LeaseFound(s.leases, ip, k);
  }

  /** The expiry thread expires exactly the active leases whose end has passed. */
  lemma {:induction false} ExpireAnswers(sub: Subnet, secs: nat, s: State, now: int, k: nat)
    requires k < |s.leases|
    ensures var t := Step(sub, secs, s, ExpireTick(now));
      && t.state.pool == s.pool && t.reply == Silence && |t.state.leases| == |s.leases|
      && t.state.leases[k] ==
         if s.leases[k].state == Active && s.leases[k].ends < now then s.leases[k].(state := Expired) else s.leases[k]
  {
  }

  /** A DISCOVER from a client with a lease is offered the address of its first one. */
  lemma {:induction false} KnownClientIsOffered(
    sub: Subnet, secs: nat, s: State, mac: Mac, requested: uint32, now: int, k: nat)
    requires k < |s.leases| && s.leases[k].mac == mac && forall j :: 0 <= j < k ==> s.leases[j].mac != mac
    ensures Step(sub, secs, s, Discover(mac, requested, now)) == Turn(s, Offer(s.leases[k].ip))
  {
    assert FindMac(s.leases, mac) == Some(k);
  }

  /** One from a client without is offered what the pool grants, if the lease can be
      recorded: on a new slot, or on the one the address has, which keeps its owner. */
  lemma {:induction false} NewClientIsOffered(
    sub: Subnet, secs: nat, s: State, mac: Mac, requested: uint32, now: int, k: nat)
    requires forall j :: 0 <= j < |s.leases| ==> s.leases[j].mac != mac
    requires var ip := Allocate(sub, s.pool, mac, requested).ip;
      ip.Some? ==> LeaseOn(s.leases, ip.value, k) || NoLeaseOn(s.leases, ip.value)
    ensures var g := Allocate(sub, s.pool, mac, requested);
      Step(sub, secs, s, Discover(mac, requested, now)) ==
        if g.ip.None? then Turn(s, Silence)
        else if LeaseOn(s.leases, g.ip.value, k)
        then Turn(State(g.pool, s.leases[k := Lease(g.ip.value, s.leases[k].mac, now + secs, Active)]),
                  Offer(g.ip.value))
        else if |s.leases| < 1024
        then Turn(State(g.pool, s.leases + [Lease(g.ip.value, mac, now + secs, Active)]), Offer(g.ip.value))
        else Turn(State(Release(g.pool, g.ip.value), s.leases), Silence)
  {
    var ip := Allocate(sub, s.pool, mac, requested).ip;
    if ip.Some? { LeaseFound(s.leases, ip.value, k); }
  }

  /* ---------- whose a fixed address is ---------- */

  ghost predicate DistinctHosts(hosts: seq<Host>)
  {
    forall g, h :: 0 <= g < h < |hosts| ==> hosts[g].ip != hosts[h].ip
  }

  /** Every lease on a fixed address is its owner's. */
  ghost predicate OwnersLeases(hosts: seq<Host>, ls: seq<Lease>)
  {
    forall k, h :: 0 <= k < |ls| && 0 <= h < |hosts| && ls[k].ip == hosts[h].ip ==> ls[k].mac == hosts[h].mac
  }

  /** What the pool grants a client is no other client's fixed address. */
  lemma {:induction false} GrantIsNotForeign(sub: Subnet, p: Pool, mac: Mac, requested: uint32, h: nat)
    requires DistinctHosts(sub.hosts) && HostsReserved(sub.hosts, p.entries) && h < |sub.hosts|
    requires Allocate(sub, p, mac, requested).ip == Some(sub.hosts[h].ip)
    ensures mac == sub.hosts[h].mac
  {
    var k := HostFor(sub.hosts, mac);
    if k.Some? {
      assert k.value == h;
    }
  }

  lemma {:induction false} StepKeepsOwners(sub: Subnet, secs: nat, s: State, e: Event)
    requires DistinctHosts(sub.hosts) && Inv(sub, s.pool) && OwnersLeases(sub.hosts, s.leases)
    ensures OwnersLeases(sub.hosts, Step(sub, secs, s, e).state.leases)
  {
    var t := Step(sub, secs, s, e).state;
    StepKeepsLeases(sub, secs, s, e);
    forall k, h | 0 <= k < |t.leases| && 0 <= h < |sub.hosts| && t.leases[k].ip == sub.hosts[h].ip
      ensures t.leases[k].mac == sub.hosts[h].mac
    {
      if k < |s.leases| {
        assert s.leases[k].ip == t.leases[k].ip && s.leases[k].mac == t.leases[k].mac;
      } else {
        NewLeaseIsGranted(sub, secs, s, e, k);
        GrantIsNotForeign(sub, s.pool, e.mac, e.requested, h);
      }
    }
  }

  /** A new lease is for the address the pool has just granted its client. */
  lemma {:induction false} NewLeaseIsGranted(sub: Subnet, secs: nat, s: State, e: Event, k: nat)
    requires |s.leases| <= k < |Step(sub, secs, s, e).state.leases|
    ensures var l := Step(sub, secs, s, e).state.leases[k];
      e.Discover? && l.mac == e.mac && Allocate(sub, s.pool, e.mac, e.requested).ip == Some(l.ip)
  {
  }

  /** No run from start-up, with distinct clean reservations and a file that gives no
      fixed address to another client, ever offers or confirms one client another
      client's fixed address. */
  lemma {:induction false} FixedAddressIsItsOwners(
    sub: Subnet, secs: nat, ls: seq<Lease>, now: int, ss: seq<State>, es: seq<Event>, n: nat)
    requires IsRun(sub, secs, ss, es) && ss[0] == State(Started(sub, ls, now), Expire(ls, now)) && n <= |es|
    requires var fs := Fresh(sub, RangeSize(sub.start, sub.end)).entries;
      CleanHosts(fs, sub.hosts) && CleanLeases(fs, ls)
    requires DistinctHosts(sub.hosts) && OwnersLeases(sub.hosts, ls)
    ensures Inv(sub, ss[n].pool) && OwnersLeases(sub.hosts, ss[n].leases)
  {
    StartedIsInv(sub, ls, now);
    if n > 0 {
      FixedAddressIsItsOwners(sub, secs, ls, now, ss, es, n - 1);
      StepKeepsPool(sub, secs, ss[n - 1], es[n - 1]);
      StepKeepsOwners(sub, secs, ss[n - 1], es[n - 1]);
      assert ss[n] == Step(sub, secs, ss[n - 1], es[n - 1]).state;
    }
  }

  lemma {:induction false} OffersAreNotForeign(
    sub: Subnet, secs: nat, ls: seq<Lease>, now: int, ss: seq<State>, es: seq<Event>, n: nat, h: nat)
    requires IsRun(sub, secs, ss, es) && ss[0] == State(Started(sub, ls, now), Expire(ls, now)) && n < |es|
    requires var fs := Fresh(sub, RangeSize(sub.start, sub.end)).entries;
      CleanHosts(fs, sub.hosts) && CleanLeases(fs, ls)
    requires DistinctHosts(sub.hosts) && OwnersLeases(sub.hosts, ls) && h < |sub.hosts|
    ensures var r := Step(sub, secs, ss[n], es[n]).reply;
      && (r == Offer(sub.hosts[h].ip) ==> es[n].Discover? && es[n].mac == sub.hosts[h].mac)
      && (r.Ack? && r.ip == sub.hosts[h].ip ==> r.mac == sub.hosts[h].mac)
  {
    FixedAddressIsItsOwners(sub, secs, ls, now, ss, es, n);
    var s, e := ss[n], es[n];
    if Step(sub, secs, s, e).reply == Offer(sub.hosts[h].ip) && FindMac(s.leases, e.mac).None? {
      GrantIsNotForeign(sub, s.pool, e.mac, e.requested, h);
    }
  }
}
