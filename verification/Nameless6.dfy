/** Runs of the DHCPv6 server in which a client that sends no DUID comes to share an
    address or a prefix with another, or leaves another with two entries: where the
    guarantees of Server6 stop. */
module Nameless6 {
  import opened Bytes
  import opened Address6
  import opened Identifiers
  import opened Leases6
  import opened Pools6
  import opened AddressPool
  import opened PrefixPool
  import opened Server6

  function OneAddress(ip: Address): seq<Subnet>
  {
    [Subnet(ip, 128, Some((ip, ip)), [], None, 3600)]
  }

  function OnePrefix(prefix: Address): seq<Subnet>
  {
    [Subnet(prefix, 64, None, [], Some(PdRange(prefix, prefix, 64)), 3600)]
  }

  /** A request at time 0 for any address or any prefix, with no probe answered. */
  function Ask(duid: seq<uint8>, src: Address, na: bool): Event
  {
    Receive(Packet(MSG_REQUEST, src, duid,
                   if na then Some(NaRequest(0, UNSPECIFIED)) else None,
                   if na then None else Some(PdRequest(0, UNSPECIFIED, 0))), 0, (_: Address) => false)
  }

  lemma {:induction false} OneLease(l: Lease)
    ensures Replay([Record(l, true)]) == [l] && FindKey([l], l.key) == Some(0)
  {
    assert [Record(l, true)][..0] == [] && [l][..0] == [];
    assert [] + [l] == [l];
  }

  lemma {:induction false} SyncOne(es: seq<Entry>, l: Lease)
    ensures Sync(es, [l]) == UpdateFromLease(es, l) && PdSync(es, [l]) == UpdateFromPdLease(es, l)
  {
    assert [l][..0] == [];
    assert Sync(es, []) == es && PdSync(es, []) == es;
  }

  lemma {:induction false} OneEntry(e: Entry)
    ensures FindEntry([e], e.key) == Some(0)
    ensures e.state == Allocated ==> FindOwned([e], e.text) == Some(0)
    ensures e.state != Allocated ==> forall text :: FindOwned([e], text) == None
  {
  }

  lemma {:induction false} OneSubnetSensible(s: State)
    requires |s.pools| == |s.pds| == 1 && |s.pools[0]| <= 1 && |s.pds[0]| <= 1 && AddressKeys(s.pools[0])
    ensures Sensible(s)
  {
  }

  /** The one free address goes to whoever asks. */
  lemma {:induction false} ScanOne(e: Entry, db: Db, r: Request, probe: Address -> bool)
    requires e.state == Available && !probe(IpField(e.key)) && Add(db, e.key, r.name, r.iaid, r.now, r.secs).Some?
    ensures var a := Scan([e], db, 0, r, probe);
      && a.granted == Some(e.key) && a.entries == [e.(state := Allocated, text := Clip(Hex(r.name)))]
      && Some(a.db) == Add(db, e.key, r.name, r.iaid, r.now, r.secs)
  {
    assert Try([e], db, 0, r, probe).granted.Some?;
  }

  lemma {:induction false} OneAddressStarts(l: Lease, s: State)
    requires l.key.Na? && l.key.ip != UNSPECIFIED && l.state == Released
    requires s == State(Db([l], [Record(l, true)]), [[Entry(l.key, Available, "")]], [[]])
    ensures Start(OneAddress(l.key.ip), [Record(l, true)], s)
  {
    OneLease(l);
    var cfg, es := OneAddress(l.key.ip), [Entry(l.key, Available, "")];
    SyncOne(es, l);
    OneEntry(es[0]);
    assert Sync(es, [l]) == es;
    assert FreshAddress(es[0], Value(l.key.ip));
    assert Fresh(es, cfg[0].range) && es == ReserveAll(Sync(es, [l]), cfg[0].hosts);
    assert Started(cfg[0], [l], es);
  }

  /** Without a name the client gets the address, and the record keeps its old name. */
  lemma {:induction false} NamelessGets(was: Lease, s: State)
    requires was.key.Na? && s.pools == [[Entry(was.key, Available, "")]] && s.pds == [[]] && s.db.leases == [was]
    ensures var o := Step(OneAddress(was.key.ip), s, Ask([], was.key.ip, true));
      && o.na == Some(was.key) && o.state.pools == [[Entry(was.key, Allocated, "")]]
      && o.state.pds == s.pds && o.state.db.leases == [Grant(was, [], 0, 3600)]
  {
    OneLease(was);
    OneEntry(s.pools[0][0]);
    assert [was][0 := Grant(was, [], 0, 3600)] == [Grant(was, [], 0, 3600)];
    ScanOne(s.pools[0][0], s.db, Request([], 0, 0, 3600), Ask([], was.key.ip, true).probe);
  }

  lemma {:induction false} TidyBringsNameBack(l: Lease, s: State)
    requires l.key.Na? && l.state == Active && |l.duid| <= 42
    requires s.pools == [[Entry(l.key, Allocated, "")]] && s.db.leases == [l]
    ensures Tidy(s, 0).pools == [[Entry(l.key, Allocated, Hex(l.duid))]] && Tidy(s, 0).pds == s.pds
  {
    OneEntry(s.pools[0][0]);
    SyncOne(s.pools[0], l);
    assert Tidy(s, 0).pools[0] == [Entry(l.key, Allocated, Hex(l.duid))];
  }

  lemma {:induction false} OwnerGets(ip: Address, duid: seq<uint8>, s: State)
    requires s.pools == [[Entry(Na(ip), Allocated, Hex(duid))]] && s.pds == [[]] && 1 <= |duid| <= 42
    ensures Step(OneAddress(ip), s, Ask(duid, ip, true)).na == Some(Na(ip))
  {
    OneEntry(s.pools[0][0]);
  }

  /** An address once released by a client goes to one without a name, the next
      clean-up puts the first client's name back on it, and the first client is
      granted the address while the other's lease still runs: a run from start-up. */
  lemma {:induction false} NamelessLosesAddress(ip: Address, duid: seq<uint8>) returns (file: seq<Record>, s: State)
    requires ip != UNSPECIFIED && 1 <= |duid| <= 42
    ensures Start(OneAddress(ip), file, s) && Sensible(s)
    ensures var first := Step(OneAddress(ip), s, Ask([], ip, true));
      var tidied := Step(OneAddress(ip), first.state, CleanUp(0)).state;
      && first.na == Some(Na(ip)) == Step(OneAddress(ip), tidied, Ask(duid, ip, true)).na
      && Holder(first.state.db.leases, Na(ip)) == Some(duid)
  {
    var was := Lease(Na(ip), duid, 0, 1, Released);
    file := [Record(was, true)];
    s := State(Db([was], file), [[Entry(Na(ip), Available, "")]], [[]]);
    OneAddressStarts(was, s);
    OneSubnetSensible(s);
    NamelessGets(was, s);
    OneLease(Grant(was, [], 0, 3600));
    var first := Step(OneAddress(ip), s, Ask([], ip, true)).state;
    TidyBringsNameBack(Grant(was, [], 0, 3600), first);
    OwnerGets(ip, duid, Tidy(first, 0));
  }

  lemma {:induction false} OnePrefixPool(l: Lease)
    requires l.key.Pd? && l.key.plen == 64 && l.state == Active && |l.duid| > 42
    ensures StartedPd(OnePrefix(l.key.prefix)[0].pd, [l], [Entry(l.key, Allocated, "")])
  {
    var raw := [Entry(l.key, Available, "")];
    SyncOne(raw, l);
    OneEntry(raw[0]);
    assert PrefixAt(raw[0].key, l.key.prefix, 64, 0);
    assert FreshPrefixes(raw, PdRange(l.key.prefix, l.key.prefix, 64));
    assert [Entry(l.key, Allocated, "")] == PdSync(raw, [l]);
  }

  lemma {:induction false} OnePrefixStarts(l: Lease, s: State)
    requires l.key.Pd? && l.key.plen == 64 && l.state == Active && |l.duid| > 42
    requires s == State(Db([l], [Record(l, true)]), [[]], [[Entry(l.key, Allocated, "")]])
    ensures Start(OnePrefix(l.key.prefix), [Record(l, true)], s)
  {
    OneLease(l);
    var cfg, none := OnePrefix(l.key.prefix), s.pools[0];
    OnePrefixPool(l);
    SyncOne(none, l);
    assert Fresh(none, None) && none == ReserveAll(Sync(none, [l]), []);
    assert Started(cfg[0], [l], none);
  }

  /** A client without a name is granted a prefix that a live lease gives to another
      whose DUID is too long for the pool's text: the first step after start-up. */
  lemma {:induction false} NamelessTakesPrefix(prefix: Address, duid: seq<uint8>) returns (file: seq<Record>, s: State)
    requires |duid| > 42
    ensures Start(OnePrefix(prefix), file, s) && Sensible(s)
    ensures Holder(s.db.leases, Pd(prefix, 64)) == Some(duid)
    ensures Step(OnePrefix(prefix), s, Ask([], prefix, false)).pd == Some(Pd(prefix, 64))
  {
    var l := Lease(Pd(prefix, 64), duid, 0, 3600, Active);
    file := [Record(l, true)];
    s := State(Db([l], file), [[]], [[Entry(l.key, Allocated, "")]]);
    OnePrefixStarts(l, s);
    OneSubnetSensible(s);
    OneLease(l);
    OneEntry(s.pds[0][0]);
  }

  /* ---------- two entries for one client ---------- */

  function TwoAddresses(a: Address, b: Address): seq<Subnet>
  {
    [Subnet(a, 128, Some((a, b)), [], None, 3600)]
  }

  /** A pool of two with those states and texts. */
  function Pair(a: Address, b: Address, first: (IpState, string), second: (IpState, string)): seq<Entry>
  {
    [Entry(Na(a), first.0, first.1), Entry(Na(b), second.0, second.1)]
  }

  lemma {:induction false} TwoAddressesStart(a: Address, b: Address, l: Lease, s: State)
    requires Value(b) == Value(a) + 1 && l.key == Na(a) && l.state == Released
    requires s == State(Db([l], [Record(l, true)]), [Pair(a, b, (Available, ""), (Available, ""))], [[]])
    ensures Start(TwoAddresses(a, b), [Record(l, true)], s)
  {
    OneLease(l);
    var cfg, es := TwoAddresses(a, b), s.pools[0];
    SyncOne(es, l);
    assert FindEntry(es, Na(a)) == Some(0);
    assert Sync(es, [l]) == es;
    assert FreshAddress(es[0], Value(a)) && FreshAddress(es[1], Value(a) + 1);
    assert Fresh(es, cfg[0].range) && es == ReserveAll(Sync(es, [l]), cfg[0].hosts);
    assert Started(cfg[0], [l], es);
  }

  /** Without a name the client gets the first address, and the record keeps its name. */
  lemma {:induction false} NamelessGetsFirst(a: Address, b: Address, l: Lease, s: State)
    requires l.key == Na(a) && s.db.leases == [l] && s.pds == [[]]
    requires s.pools == [Pair(a, b, (Available, ""), (Available, ""))]
    ensures var o := Step(TwoAddresses(a, b), s, Ask([], a, true)).state;
      && o.pools == [Pair(a, b, (Allocated, ""), (Available, ""))] && o.pds == [[]]
      && o.db.leases == [Grant(l, [], 0, 3600)]
  {
    OneLease(l);
    var es, r, probe := s.pools[0], Request([], 0, 0, 3600), Ask([], a, true).probe;
    assert [l][0 := Grant(l, [], 0, 3600)] == [Grant(l, [], 0, 3600)];
    var t := Try(es, s.db, 0, r, probe);
    assert t.granted.Some? && t.entries == Pair(a, b, (Allocated, ""), (Available, ""));
    assert Scan(es, s.db, 0, r, probe) == t;
    assert Allocate(TwoAddresses(a, b)[0], es, s.db, r, UNSPECIFIED, probe) == t;
  }

  /** The client whose name that is finds no entry of its own and gets the second. */
  lemma {:induction false} OwnerGetsSecond(a: Address, b: Address, l: Lease, s: State)
    requires a != b && l.key == Na(a) && 1 <= |l.duid| <= 42 && s.db.leases == [l] && s.pds == [[]]
    requires s.pools == [Pair(a, b, (Allocated, ""), (Available, ""))]
    ensures var o := Step(TwoAddresses(a, b), s, Ask(l.duid, a, true)).state;
      && o.pools == [Pair(a, b, (Allocated, ""), (Allocated, Hex(l.duid)))]
      && o.db.leases == [l, Lease(Na(b), l.duid, 0, 3600, Active)]
  {
    OneLease(l);
    var es, r, probe := s.pools[0], Request(l.duid, 0, 0, 3600), Ask(l.duid, a, true).probe;
    assert FindOwned(es, Hex(l.duid)).None?;
    assert FindKey([l], Na(b)).None?;
    var t := Try(es, s.db, 1, r, probe);
    assert t.granted.Some? && t.entries == Pair(a, b, (Allocated, ""), (Allocated, Hex(l.duid)));
    assert [l] + [Lease(Na(b), l.duid, 0, 3600, Active)] == [l, Lease(Na(b), l.duid, 0, 3600, Active)];
    assert Scan(es, s.db, 1, r, probe) == t;
    assert Scan(es, s.db, 0, r, probe) == t;
    assert Allocate(TwoAddresses(a, b)[0], es, s.db, r, UNSPECIFIED, probe) == t;
  }

  lemma {:induction false} SyncPair(a: Address, b: Address, l: Lease, m: Lease, es: seq<Entry>)
    requires a != b && a != UNSPECIFIED && b != UNSPECIFIED && l.key == Na(a) && m.key == Na(b)
    requires l.state == Active == m.state && l.duid == m.duid && |l.duid| <= 42
    requires es == Pair(a, b, (Allocated, ""), (Allocated, Hex(l.duid)))
    ensures Sync(es, [l, m]) == Pair(a, b, (Allocated, Hex(l.duid)), (Allocated, Hex(l.duid)))
  {
    SyncAt(es, [l, m], 0);
    SyncAt(es, [l, m], 1);
    assert FindKey([l, m], Na(a)) == Some(0) && FindKey([l, m], Na(b)) == Some(1);
  }

  lemma {:induction false} TidyDoubles(a: Address, b: Address, l: Lease, s: State)
    requires a != b && a != UNSPECIFIED && b != UNSPECIFIED && l.key == Na(a) && l.state == Active && |l.duid| <= 42
    requires s.db.leases == [l, Lease(Na(b), l.duid, 0, 3600, Active)]
    requires s.pools == [Pair(a, b, (Allocated, ""), (Allocated, Hex(l.duid)))]
    ensures Tidy(s, 0).pools == [Pair(a, b, (Allocated, Hex(l.duid)), (Allocated, Hex(l.duid)))]
  {
    SyncPair(a, b, l, s.db.leases[1], s.pools[0]);
    assert TidyLeases(s.db, 0) == s.db;
    assert Tidy(s, 0).pools[0] == Sync(s.pools[0], s.db.leases);
  }

  /** One released lease gives nobody two holdings. */
  lemma {:induction false} TwoAddressesHeldOnce(a: Address, b: Address, l: Lease, s: State)
    requires l.key == Na(a) && l.state == Released && s.db.leases == [l] && |s.pools| == 1 && s.pds == [[]]
    ensures HeldOnce(TwoAddresses(a, b), s)
  {
    forall k ensures Holder([l], k) == None {
    }
  }

  lemma {:induction false} TwoAddressesSensible(a: Address, b: Address, s: State)
    requires a != UNSPECIFIED && b != UNSPECIFIED
    requires s.pools == [Pair(a, b, (Available, ""), (Available, ""))] && s.pds == [[]]
    ensures Sensible(s)
  {
  }

  /** A run from start-up after which one client has both addresses of a pool in its
      name: the clean-up puts its name on the address a client without one is using. */
  lemma {:induction false} NamelessDoublesEntry(a: Address, b: Address, duid: seq<uint8>)
    returns (file: seq<Record>, s: State)
    requires Value(b) == Value(a) + 1 && a != UNSPECIFIED && b != UNSPECIFIED && 1 <= |duid| <= 42
    ensures Start(TwoAddresses(a, b), file, s) && Sensible(s) && HeldOnce(TwoAddresses(a, b), s)
    ensures Run(TwoAddresses(a, b), s, [Ask([], a, true), Ask(duid, a, true), CleanUp(0)]).pools ==
      [Pair(a, b, (Allocated, Hex(duid)), (Allocated, Hex(duid)))]
  {
    var was := Lease(Na(a), duid, 0, 1, Released);
    file := [Record(was, true)];
    s := State(Db([was], file), [Pair(a, b, (Available, ""), (Available, ""))], [[]]);
    TwoAddressesStart(a, b, was, s);
    TwoAddressesSensible(a, b, s);
    TwoAddressesHeldOnce(a, b, was, s);
    NamelessGetsFirst(a, b, was, s);
    var one := Step(TwoAddresses(a, b), s, Ask([], a, true)).state;
    OwnerGetsSecond(a, b, Grant(was, [], 0, 3600), one);
    TidyDoubles(a, b, Grant(was, [], 0, 3600), Step(TwoAddresses(a, b), one, Ask(duid, a, true)).state);
    ThreeSteps(TwoAddresses(a, b), s, [Ask([], a, true), Ask(duid, a, true), CleanUp(0)]);
  }

  lemma {:induction false} ThreeSteps(cfg: seq<Subnet>, s: State, es: seq<Event>)
    requires |s.pools| == |s.pds| == |cfg| && |es| == 3
    ensures Run(cfg, s, es) == Step(cfg, Step(cfg, Step(cfg, s, es[0]).state, es[1]).state, es[2]).state
  {
    assert es[..2][..1] == es[..1] && es[..1][..0] == [];
    assert Run(cfg, s, []) == s;
    assert Run(cfg, s, es[..1]) == Step(cfg, s, es[0]).state;
    assert Run(cfg, s, es[..2]) == Step(cfg, Step(cfg, s, es[0]).state, es[1]).state;
  }
}
