/** The DHCPv4 server: the lease table of lease_v4.c and packet_processor of main.c,
    DHCP_Server/DHCPv4/src. Each packet and each background pass is one step. */
module Server4 {
  import opened Bytes
  import opened Pool4
  import opened PoolSync4
  import opened PoolStart4

  const MAX_LEASES := 1024

  /* ---------- the lease table ---------- */

  /** lease_db_find_by_ip: the first lease on ip. */
  function FindLease(ls: seq<Lease>, ip: uint32): (r: Option<nat>)
    ensures r.Some? ==> r.value < |ls| && ls[r.value].ip == ip && forall j :: 0 <= j < r.value ==> ls[j].ip != ip
    ensures r.None? ==> forall j :: 0 <= j < |ls| ==> ls[j].ip != ip
  {
    if ls == [] then None
    else
      var r := FindLease(ls[..|ls| - 1], ip);
      if r.Some? then r else if ls[|ls| - 1].ip == ip then Some(|ls| - 1) else None
  }

  /** lease_db_find_by_mac: the first lease of mac. */
  function FindMac(ls: seq<Lease>, mac: Mac): (r: Option<nat>)
    ensures r.Some? ==> r.value < |ls| && ls[r.value].mac == mac && forall j :: 0 <= j < r.value ==> ls[j].mac != mac
    ensures r.None? ==> forall j :: 0 <= j < |ls| ==> ls[j].mac != mac
  {
    if ls == [] then None
    else
      var r := FindMac(ls[..|ls| - 1], mac);
      if r.Some? then r else if ls[|ls| - 1].mac == mac then Some(|ls| - 1) else None
  }

  /** lease_db_renew_lease. */
  function Renewed(ls: seq<Lease>, ip: uint32, ends: int): seq<Lease>
  {
    var i := FindLease(ls, ip);
    if i.None? then ls else ls[i.value := ls[i.value].(ends := ends, state := Active)]
  }

  /** lease_db_release_lease. */
  function Freed(ls: seq<Lease>, ip: uint32, now: int): seq<Lease>
  {
    var i := FindLease(ls, ip);
    if i.None? then ls else ls[i.value := ls[i.value].(ends := now, state := Released)]
  }

  /** lease_db_expire_old_leases. */
  function Expire(ls: seq<Lease>, now: int): (ms: seq<Lease>)
    ensures |ms| == |ls| && forall k :: 0 <= k < |ls| ==> ms[k] == Aged(ls[k], now)
  {
    if ls == [] then [] else Expire(ls[..|ls| - 1], now) + [Aged(ls[|ls| - 1], now)]
  }

  /* ---------- packets ---------- */

  datatype State = State(pool: Pool, leases: seq<Lease>)

  datatype Event =
    | Discover(mac: Mac, requested: uint32, now: int)
    | Select(mac: Mac, requested: uint32, now: int)
    | Renew(ciaddr: uint32, now: int)
    | GiveUp(ciaddr: uint32, now: int)
    | SyncTick(now: int)
    | ExpireTick(now: int)

  datatype Reply = Silence | Offer(ip: uint32) | Ack(ip: uint32, mac: Mac) | RenewalAck(ip: uint32) | Nak

  datatype Turn = Turn(state: State, reply: Reply)

  /** ip_pool_allocate_and_create_lease. An address that has a lease keeps it, with the
      hardware address it was made for; a full table gives the address back. */
  function AllocateAndLease(sub: Subnet, s: State, mac: Mac, requested: uint32, ends: int): Turn
  {
    var g := Allocate(sub, s.pool, mac, requested);
    if g.ip.None? then Turn(s, Silence)
    else if FindLease(s.leases, g.ip.value).Some? then
      Turn(State(g.pool, Renewed(s.leases, g.ip.value, ends)), Offer(g.ip.value))
    else if |s.leases| < MAX_LEASES then
      Turn(State(g.pool, s.leases + [Lease(g.ip.value, mac, ends, Active)]), Offer(g.ip.value))
    else Turn(State(Release(g.pool, g.ip.value), s.leases), Silence)
  }

  /** packet_processor and the two background threads, secs being the lease time. */
  function Step(sub: Subnet, secs: nat, s: State, e: Event): Turn
  {
    match e
    case Discover(mac, requested, now) =>
      var k := FindMac(s.leases, mac);
      if k.Some? then Turn(s, Offer(s.leases[k.value].ip)) else AllocateAndLease(sub, s, mac, requested, now + secs)
    case Select(mac, requested, now) =>
      var k := FindLease(s.leases, requested);
      if k.Some? && s.leases[k.value].mac == mac
      then Turn(s.(leases := Renewed(s.leases, requested, now + secs)), Ack(requested, mac))
      else Turn(s, Nak)
    case Renew(ciaddr, now) =>
      if ciaddr != 0 && FindLease(s.leases, ciaddr).Some?
      then Turn(s.(leases := Renewed(s.leases, ciaddr, now + secs)), RenewalAck(ciaddr))
      else Turn(s, Silence)
    case GiveUp(ciaddr, now) =>
      if ciaddr == 0 then Turn(s, Silence)
      else Turn(State(Release(s.pool, ciaddr), Freed(s.leases, ciaddr, now)), Silence)
    case SyncTick(now) =>
      var r := Pass(s.pool, s.leases, |s.leases|, now);
      Turn(State(r.pool, r.leases), Silence)
    case ExpireTick(now) => Turn(s.(leases := Expire(s.leases, now)), Silence)
  }

  ghost predicate IsRun(sub: Subnet, secs: nat, ss: seq<State>, es: seq<Event>)
  {
    |ss| == |es| + 1 && forall i :: 0 <= i < |es| ==> ss[i + 1] == Step(sub, secs, ss[i], es[i]).state
  }

  /* ---------- the pool along a run ---------- */

  lemma {:induction false} StepKeepsPool(sub: Subnet, secs: nat, s: State, e: Event)
    requires Inv(sub, s.pool)
    ensures Inv(sub, Step(sub, secs, s, e).state.pool)
  {
    match e
    case Discover(mac, requested, now) =>
      AllocateKeepsInv(sub, s.pool, mac, requested);
      var g := Allocate(sub, s.pool, mac, requested);
      if g.ip.Some? {
        ReleaseKeepsInv(sub, g.pool, g.ip.value);
      }
    case GiveUp(ciaddr, now) => ReleaseKeepsInv(sub, s.pool, ciaddr);
    case SyncTick(now) => PassKeepsInv(sub, s.pool, s.leases, |s.leases|, now);
    case _ =>
  }

  /** From clean reservations and leases, every state the server reaches has exact
      counters, and every fixed address in the pool is still reserved. */
  lemma {:induction false} ServerKeepsPool(sub: Subnet, secs: nat, ss: seq<State>, es: seq<Event>, n: nat)
    requires IsRun(sub, secs, ss, es) && Inv(sub, ss[0].pool) && n <= |es|
    ensures Inv(sub, ss[n].pool)
  {
    if n > 0 {
      ServerKeepsPool(sub, secs, ss, es, n - 1);
      StepKeepsPool(sub, secs, ss[n - 1], es[n - 1]);
    }
  }

  /** The same from start-up: with distinct reservations off the excluded addresses, and
      leases on distinct addresses off them too, no run of packets and background
      passes ever makes a counter wrong or a fixed address available. */
  lemma {:induction false} EveryRunIsExact(
    sub: Subnet, secs: nat, ls: seq<Lease>, now: int, ss: seq<State>, es: seq<Event>)
    requires IsRun(sub, secs, ss, es) && ss[0] == State(Started(sub, ls, now), Expire(ls, now))
    requires var fs := Fresh(sub, RangeSize(sub.start, sub.end)).entries;
      CleanHosts(fs, sub.hosts) && CleanLeases(fs, ls)
    ensures Exact(ss[|es|].pool) && HostsReserved(sub.hosts, ss[|es|].pool.entries)
  {
    StartedIsInv(sub, ls, now);
    ServerKeepsPool(sub, secs, ss, es, |es|);
  }

  /* ---------- whose lease an address is ---------- */

  /** The leases of ls are still there, in place, with their owners. */
  ghost predicate Kept(ls: seq<Lease>, ms: seq<Lease>)
  {
    |ls| <= |ms| && forall k :: 0 <= k < |ls| ==> ms[k].ip == ls[k].ip && ms[k].mac == ls[k].mac
  }

  lemma {:induction false} PassKeepsLeases(p: Pool, ls: seq<Lease>, n: nat, now: int)
    requires n <= |ls|
    ensures Kept(ls, Pass(p, ls, n, now).leases)
  {
    if n > 0 {
      PassKeepsLeases(p, ls, n - 1, now);
      var r := Pass(p, ls, n - 1, now);
      assert Kept(r.leases, PassOne(r.pool, r.leases, n - 1, now).leases);
    }
  }

  lemma {:induction false} StepKeepsLeases(sub: Subnet, secs: nat, s: State, e: Event)
    ensures Kept(s.leases, Step(sub, secs, s, e).state.leases)
  {
    if e.SyncTick? {
      PassKeepsLeases(s.pool, s.leases, |s.leases|, e.now);
    }
  }

  lemma {:induction false} RunKeepsLeases(sub: Subnet, secs: nat, ss: seq<State>, es: seq<Event>, i: nat, j: nat)
    requires IsRun(sub, secs, ss, es) && i <= j <= |es|
    ensures Kept(ss[i].leases, ss[j].leases)
  {
    if i < j {
      RunKeepsLeases(sub, secs, ss, es, i, j - 1);
      StepKeepsLeases(sub, secs, ss[j - 1], es[j - 1]);
      assert ss[j] == Step(sub, secs, ss[j - 1], es[j - 1]).state;
    }
  }

  lemma {:induction false} KeptFind(ls: seq<Lease>, ms: seq<Lease>, ip: uint32)
    requires Kept(ls, ms) && FindLease(ls, ip).Some?
    ensures FindLease(ms, ip) == FindLease(ls, ip)
  {
    var i, j := FindLease(ls, ip).value, FindLease(ms, ip).value;
    assert ms[i].ip == ip;
  }

  /** Whenever two clients have an address confirmed by selecting it, at whatever
      points of a run, they are the same client. */
  lemma {:induction false} SelectingAcksAgree(sub: Subnet, secs: nat, ss: seq<State>, es: seq<Event>, i: nat, j: nat,
                                              ip: uint32, a: Mac, b: Mac)
    requires IsRun(sub, secs, ss, es) && i <= j < |es|
    requires Step(sub, secs, ss[i], es[i]).reply == Ack(ip, a)
    requires Step(sub, secs, ss[j], es[j]).reply == Ack(ip, b)
    ensures a == b
  {
    RunKeepsLeases(sub, secs, ss, es, i, j);
    KeptFind(ss[i].leases, ss[j].leases, ip);
  }

  /* ---------- offers ---------- */

  /** The first lease on ip, if there is one, was made for mac. */
  predicate LeasedTo(ls: seq<Lease>, ip: uint32, mac: Mac)
  {
    var k := FindLease(ls, ip);
    k.Some? ==> ls[k.value].mac == mac
  }

  lemma {:induction false} FindLeaseLast(ls: seq<Lease>, l: Lease)
    ensures FindLease(ls + [l], l.ip) == if FindLease(ls, l.ip).Some? then FindLease(ls, l.ip) else Some(|ls|)
  {
    assert (ls + [l])[..|ls|] == ls;
  }

  /** What a DISCOVER offers has a lease, which is the client's exactly if it was or there
      was none. */
  lemma {:induction false} OfferHasLease(sub: Subnet, secs: nat, s: State, mac: Mac, requested: uint32, now: int)
    requires Step(sub, secs, s, Discover(mac, requested, now)).reply.Offer?
    ensures var t := Step(sub, secs, s, Discover(mac, requested, now));
      var k := FindLease(t.state.leases, t.reply.ip);
      k.Some? && (t.state.leases[k.value].mac == mac <==> LeasedTo(s.leases, t.reply.ip, mac))
  {
    var t := Step(sub, secs, s, Discover(mac, requested, now));
    if FindMac(s.leases, mac).None? {
      var ip := Allocate(sub, s.pool, mac, requested).ip.value;
      if FindLease(s.leases, ip).Some? {
        KeptFind(s.leases, t.state.leases, ip);
      } else {
        FindLeaseLast(s.leases, Lease(ip, mac, now + secs, Active));
      }
    }
  }

  /** An offered address is confirmed when the client selects it right away if and only
      if the address had no lease yet or its first lease was made for this client. */
  lemma {:induction false} OfferIsConfirmed(
    sub: Subnet, secs: nat, s: State, mac: Mac, requested: uint32, now: int, later: int)
    requires Step(sub, secs, s, Discover(mac, requested, now)).reply.Offer?
    ensures var t := Step(sub, secs, s, Discover(mac, requested, now));
      (Step(sub, secs, t.state, Select(mac, t.reply.ip, later)).reply == Ack(t.reply.ip, mac) <==>
       LeasedTo(s.leases, t.reply.ip, mac))
  {
    OfferHasLease(sub, secs, s, mac, requested, now);
  }

  lemma {:induction false} RunLonger(sub: Subnet, secs: nat, ss: seq<State>, es: seq<Event>, e: Event)
    requires IsRun(sub, secs, ss, es)
    ensures IsRun(sub, secs, ss + [Step(sub, secs, ss[|es|], e).state], es + [e])
  {
  }

  const ONE_ADDRESS := Subnet(0, 0, 0, 5, 5, [])

  lemma {:induction false} StartsWithOne()
    ensures Started(ONE_ADDRESS, [], 0) == Pool([Entry(5, Available, NO_MAC)], 1, 0)
  {
    var p := Fresh(ONE_ADDRESS, 1);
    assert Fresh(ONE_ADDRESS, 0) == Pool([], 0, 0);
    assert p.entries == [Entry(5, Available, NO_MAC)];
  }

  /** The only address goes to whoever has no lease yet. */
  lemma {:induction false} OffersTheOne(s: State, mac: Mac, now: int)
    requires s.pool == Pool([Entry(5, Available, NO_MAC)], 1, 0) && FindMac(s.leases, mac).None? && mac != NO_MAC
    requires |s.leases| < MAX_LEASES
    ensures var t := Step(ONE_ADDRESS, 3600, s, Discover(mac, 0, now));
      && t.reply == Offer(5) && t.state.pool == Pool([Entry(5, Allocated, mac)], 0, 1)
      && t.state.leases == (if FindLease(s.leases, 5).None? then s.leases + [Lease(5, mac, now + 3600, Active)]
                            else Renewed(s.leases, 5, now + 3600))
  {
    assert Choice(ONE_ADDRESS, s.pool.entries, 0) == Some(0);
    assert s.pool.entries[0 := Entry(5, Allocated, mac)] == [Entry(5, Allocated, mac)];
  }

  lemma {:induction false} OneLease(l: Lease)
    ensures FindLease([l], l.ip) == Some(0) && forall mac :: mac != l.mac ==> FindMac([l], mac) == None
  {
  }

  lemma {:induction false} GivesUpTheOne(s: State, l: Lease, now: int)
    requires s == State(Pool([Entry(5, Allocated, l.mac)], 0, 1), [l]) && l.ip == 5
    ensures var t := Step(ONE_ADDRESS, 3600, s, GiveUp(5, now)).state;
      t == State(Pool([Entry(5, Available, NO_MAC)], 1, 0), [l.(ends := now, state := Released)])
  {
    OneLease(l);
    assert Find(s.pool.entries, 5) == Some(0);
    assert s.pool.entries[0 := Entry(5, Available, NO_MAC)] == [Entry(5, Available, NO_MAC)];
    assert [l][0 := l.(ends := now, state := Released)] == [l.(ends := now, state := Released)];
  }

  /** Offered to a client and given up, it is free again under the client's lease. */
  lemma {:induction false} FirstOwner(s: State, mac: Mac)
    requires s == State(Pool([Entry(5, Available, NO_MAC)], 1, 0), []) && mac != NO_MAC
    ensures var t := Step(ONE_ADDRESS, 3600, s, Discover(mac, 0, 0));
      && t.reply == Offer(5)
      && Step(ONE_ADDRESS, 3600, t.state, GiveUp(5, 1)).state ==
         State(Pool([Entry(5, Available, NO_MAC)], 1, 0), [Lease(5, mac, 1, Released)])
  {
    OffersTheOne(s, mac, 0);
    var t := Step(ONE_ADDRESS, 3600, s, Discover(mac, 0, 0)).state;
    assert t.leases == [Lease(5, mac, 3600, Active)];
    GivesUpTheOne(t, t.leases[0], 1);
  }

  lemma {:induction false} NextOwner(s: State, l: Lease, mac: Mac)
    requires s == State(Pool([Entry(5, Available, NO_MAC)], 1, 0), [l]) && l.ip == 5 && l.mac != mac && mac != NO_MAC
    ensures var t := Step(ONE_ADDRESS, 3600, s, Discover(mac, 0, 2));
      && t.reply == Offer(5)
      && t.state == State(Pool([Entry(5, Allocated, mac)], 0, 1), [l.(ends := 3602, state := Active)])
  {
    OneLease(l);
    OffersTheOne(s, mac, 2);
    assert [l][0 := l.(ends := 3602, state := Active)] == [l.(ends := 3602, state := Active)];
  }

  /** The run behind the two cases below: the second client holds the only address
      while its lease is still the first client's. */
  lemma {:induction false} SecondOwner(first: Mac, second: Mac) returns (ss: seq<State>, es: seq<Event>)
    requires first != NO_MAC && second != NO_MAC && first != second
    ensures IsRun(ONE_ADDRESS, 3600, ss, es) && ss[0] == State(Started(ONE_ADDRESS, [], 0), Expire([], 0))
    ensures es == [Discover(first, 0, 0), GiveUp(5, 1), Discover(second, 0, 2)]
    ensures Step(ONE_ADDRESS, 3600, ss[0], es[0]).reply == Offer(5) == Step(ONE_ADDRESS, 3600, ss[2], es[2]).reply
    ensures ss[3] == State(Pool([Entry(5, Allocated, second)], 0, 1), [Lease(5, first, 3602, Active)])
  {
    es := [Discover(first, 0, 0), GiveUp(5, 1), Discover(second, 0, 2)];
    StartsWithOne();
    var s0 := State(Started(ONE_ADDRESS, [], 0), Expire([], 0));
    FirstOwner(s0, first);
    var s1 := Step(ONE_ADDRESS, 3600, s0, es[0]).state;
    var s2 := Step(ONE_ADDRESS, 3600, s1, es[1]).state;
    NextOwner(s2, Lease(5, first, 1, Released), second);
    ss := [s0, s1, s2, Step(ONE_ADDRESS, 3600, s2, es[2]).state];
  }

  lemma {:induction false} PassLeavesTheOne(s: State, l: Lease, mac: Mac)
    requires s == State(Pool([Entry(5, Allocated, mac)], 0, 1), [l]) && l.ip == 5 && l.state == Active && l.ends >= 3
    ensures Step(ONE_ADDRESS, 3600, s, SyncTick(3)).state == s
  {
    assert Find(s.pool.entries, 5) == Some(0);
    assert Pass(s.pool, s.leases, 0, 3) == Synced(s.pool, s.leases);
    assert PassOne(s.pool, s.leases, 0, 3) == Synced(s.pool, [l][0 := l]);
    assert [l][0 := l] == [l];
  }

  /** A pass does not put the lease's hardware address back: a state reached from
      start-up in which the entry names the second client and its lease the first, and
      which a synchronisation pass leaves as it is. */
  lemma {:induction false} PassKeepsWrongOwner(first: Mac, second: Mac) returns (ss: seq<State>, es: seq<Event>)
    requires first != NO_MAC && second != NO_MAC && first != second
    ensures IsRun(ONE_ADDRESS, 3600, ss, es) && ss[0] == State(Started(ONE_ADDRESS, [], 0), Expire([], 0))
    ensures var s := ss[|es|];
      && s == State(Pool([Entry(5, Allocated, second)], 0, 1), [Lease(5, first, 3602, Active)])
      && Step(ONE_ADDRESS, 3600, s, SyncTick(3)).state == s
  {
    ss, es := SecondOwner(first, second);
    PassLeavesTheOne(ss[3], Lease(5, first, 3602, Active), second);
  }

  /** From start-up without any lease: a client is offered the only address and gives
      it up, and the next client is offered it still under the first client's hardware
      address, and then refused. */
  lemma {:induction false} OfferCanBeRefused(first: Mac, second: Mac) returns (ss: seq<State>, es: seq<Event>)
    requires first != NO_MAC && second != NO_MAC && first != second
    ensures IsRun(ONE_ADDRESS, 3600, ss, es) && ss[0] == State(Started(ONE_ADDRESS, [], 0), Expire([], 0))
    ensures es == [Discover(first, 0, 0), GiveUp(5, 1), Discover(second, 0, 2), Select(second, 5, 3)]
    ensures Step(ONE_ADDRESS, 3600, ss[0], es[0]).reply == Offer(5) == Step(ONE_ADDRESS, 3600, ss[2], es[2]).reply
    ensures Step(ONE_ADDRESS, 3600, ss[3], es[3]).reply == Nak
  {
    var last := Select(second, 5, 3);
    ss, es := SecondOwner(first, second);
    OneLease(ss[3].leases[0]);
    RunLonger(ONE_ADDRESS, 3600, ss, es, last);
    ss, es := ss + [Step(ONE_ADDRESS, 3600, ss[3], last).state], es + [last];
  }
}
