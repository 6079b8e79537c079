/** The DHCPv6 server as a state machine: process_packet and one turn of
    cleanup_thread, DHCP_Server/DHCPv6/sources/server.c. Both run under one lock,
    so each is a single step. */
module Server6 {
  import opened Bytes
  import opened Address6
  import opened Identifiers
  import opened Leases6
  import opened Pools6
  import opened AddressPool
  import opened PrefixPool

  const MSG_SOLICIT: uint8 := 1
  const MSG_ADVERTISE: uint8 := 2
  const MSG_REQUEST: uint8 := 3
  const MSG_RENEW: uint8 := 5
  const MSG_REBIND: uint8 := 6
  const MSG_REPLY: uint8 := 7
  const MSG_RELEASE: uint8 := 8
  const MSG_DECLINE: uint8 := 9

  datatype NaRequest = NaRequest(iaid: uint32, ip: Address)

  datatype PdRequest = PdRequest(iaid: uint32, prefix: Address, plen: uint8)

  /** What the server reads of a parsed packet and its sender. A missing Client
      Identifier option is an empty DUID. */
  datatype Packet = Packet(msg: uint8, src: Address, duid: seq<uint8>, na: Option<NaRequest>, pd: Option<PdRequest>)

  datatype Event =
    | Receive(packet: Packet, now: nat, probe: Address -> bool)
    | CleanUp(now: nat)

  datatype State = State(db: Db, pools: seq<seq<Entry>>, pds: seq<seq<Entry>>)

  /** A step's new state and what it granted. */
  datatype Outcome = Outcome(state: State, na: Option<Key>, pd: Option<Key>)

  /** The DUID the pools and the table get to see: the text buffer holds 85 bytes'
      worth, and a longer DUID becomes empty text. */
  function Name(duid: seq<uint8>): seq<uint8>
  {
    if |duid| <= 85 then duid else []
  }

  /** What duid_bin_to_hex leaves in the server's 256-byte buffer. */
  lemma {:induction false} NameText(duid: seq<uint8>)
    ensures HexIn(duid, 256) == Hex(Name(duid))
  {
  }

  function ReplyType(msg: uint8): uint8
  {
    if msg == MSG_SOLICIT then MSG_ADVERTISE
    else if msg in {MSG_REQUEST, MSG_RENEW, MSG_REBIND, MSG_RELEASE, MSG_DECLINE} then MSG_REPLY
    else 0
  }

  predicate IsGiveBack(msg: uint8)
  {
    msg == MSG_RELEASE || msg == MSG_DECLINE
  }

  predicate IsLinkLocal(ip: Address)
  {
    ip[0] == 0xfe && 0x80 <= ip[1] < 0xc0
  }

  /** The subnet serves the sender by its address, which a link-local one never does. */
  predicate Contains(sub: Subnet, src: Address)
  {
    !IsLinkLocal(src) && InSubnet(src, sub.prefix, sub.prefixLen)
  }

  predicate FirstContaining(cfg: seq<Subnet>, src: Address, i: nat, r: nat)
  {
    i <= r < |cfg| && Contains(cfg[r], src) && forall j :: i <= j < r ==> !Contains(cfg[j], src)
  }

  /** find_subnet: the first subnet the sender lies in, subnet 0 by default. */
  function FindSubnet(cfg: seq<Subnet>, src: Address, i: nat): (r: nat)
    requires i <= |cfg|
    ensures r == 0 || i <= r < |cfg|
    ensures FirstContaining(cfg, src, i, r) || (r == 0 && forall j :: i <= j < |cfg| ==> !Contains(cfg[j], src))
    decreases |cfg| - i
  {
    if IsLinkLocal(src) || i == |cfg| then 0
    else if InSubnet(src, cfg[i].prefix, cfg[i].prefixLen) then i
    else FindSubnet(cfg, src, i + 1)
  }

  /** ip6_pool_mark_conflict. */
  function MarkConflict(es: seq<Entry>, db: Db, key: Key, now: nat): Alloc
  {
    var i := FindEntry(es, key);
    if i.None? then Alloc(es, db, None) else SetAside(es, db, i.value, now)
  }

  /** What a RELEASE or DECLINE does to the address it names. */
  function GiveBackNa(s: State, p: Packet, i: nat, now: nat): State
    requires |s.pools| == |s.pds|
  {
    if p.na.None? || s.db.leases == [] then s
    else
      var key := Na(p.na.value.ip);
      if p.msg == MSG_RELEASE then s.(db := Retire(s.db, key, Released, now))
      else if i < |s.pools| then
        var a := MarkConflict(s.pools[i], s.db, key, now);
        s.(db := a.db, pools := s.pools[i := a.entries])
      else s
  }

  /** What a RELEASE does to the prefix it names; a DECLINE does nothing. */
  function GiveBackPd(s: State, p: Packet, i: nat, now: nat): State
  {
    if p.pd.None? || i >= |s.pds| || p.msg != MSG_RELEASE then s
    else
      var a := PdRelease(s.pds[i], s.db, Pd(p.pd.value.prefix, p.pd.value.plen), now);
      s.(db := a.db, pds := s.pds[i := a.entries])
  }

  function GrantNa(cfg: seq<Subnet>, s: State, p: Packet, i: nat, now: nat, probe: Address -> bool): Outcome
    requires |s.pools| == |cfg|
  {
    if p.na.None? || i >= |cfg| then Outcome(s, None, None)
    else
      var r := Request(Name(p.duid), p.na.value.iaid, now, cfg[i].leaseTime);
      var a := Allocate(cfg[i], s.pools[i], s.db, r, p.na.value.ip, probe);
      Outcome(s.(db := a.db, pools := s.pools[i := a.entries]), a.granted, None)
  }

  function GrantPd(cfg: seq<Subnet>, s: State, p: Packet, i: nat, now: nat): Outcome
    requires |s.pds| == |cfg|
  {
    if p.pd.None? || i >= |cfg| then Outcome(s, None, None)
    else
      var r := Request(Name(p.duid), p.pd.value.iaid, now, cfg[i].leaseTime);
      var a := PdAllocate(s.pds[i], s.db, r);
      Outcome(s.(db := a.db, pds := s.pds[i := a.entries]), None, a.granted)
  }

  /** process_packet. */
  function Process(cfg: seq<Subnet>, s: State, p: Packet, now: nat, probe: Address -> bool): Outcome
    requires |s.pools| == |s.pds| == |cfg|
  {
    var i := FindSubnet(cfg, p.src, 0);
    if ReplyType(p.msg) == 0 then Outcome(s, None, None)
    else if IsGiveBack(p.msg) then Outcome(GiveBackPd(GiveBackNa(s, p, i, now), p, i, now), None, None)
    else
      var o := GrantNa(cfg, s, p, i, now, probe);
      GrantPd(cfg, o.state, p, i, now).(na := o.na)
  }

  function SyncPools(pools: seq<seq<Entry>>, ls: seq<Lease>): (r: seq<seq<Entry>>)
    ensures |r| == |pools|
  {
    seq(|pools|, i requires 0 <= i < |pools| => Sync(pools[i], ls))
  }

  /** The lease part of cleanup_thread: expire, and if anything expired drop the
      dead leases. */
  function TidyLeases(db: Db, now: nat): Db
  {
    var expired := MarkExpired(db, now);
    if exists i :: 0 <= i < |db.leases| && Overdue(db.leases[i], now) then Cleanup(expired) else expired
  }

  /** One turn of cleanup_thread: tidy the leases, bring the address pools up to
      date and save. */
  function Tidy(s: State, now: nat): State
  {
    var db := TidyLeases(s.db, now);
    State(Save(db.leases), SyncPools(s.pools, db.leases), s.pds)
  }

  /** No pool gains, loses or reorders entries. */
  ghost predicate KeysKept(s: State, t: State)
  {
    && |s.pools| == |t.pools| && |s.pds| == |t.pds|
    && (forall i :: 0 <= i < |s.pools| ==> SameKeys(s.pools[i], t.pools[i]))
    && (forall i :: 0 <= i < |s.pds| ==> SameKeys(s.pds[i], t.pds[i]))
  }

  function Step(cfg: seq<Subnet>, s: State, e: Event): (o: Outcome)
    requires |s.pools| == |s.pds| == |cfg|
    ensures KeysKept(s, o.state)
  {
    match e
    case Receive(p, now, probe) => Process(cfg, s, p, now, probe)
    case CleanUp(now) => Outcome(Tidy(s, now), None, None)
  }

  function Run(cfg: seq<Subnet>, s: State, es: seq<Event>): (t: State)
    requires |s.pools| == |s.pds| == |cfg|
    ensures KeysKept(s, t)
  {
    if es == [] then s else Step(cfg, Run(cfg, s, es[..|es| - 1]), es[|es| - 1]).state
  }

  /* ---------- the invariant of every reachable state ---------- */

  ghost predicate Apart(es: seq<Entry>, fs: seq<Entry>)
  {
    forall k :: FindEntry(es, k).None? || FindEntry(fs, k).None?
  }

  ghost predicate AllApart(pools: seq<seq<Entry>>)
  {
    forall i, j :: 0 <= i < j < |pools| ==> Apart(pools[i], pools[j])
  }

  ghost predicate NaPoolOk(strict: bool, hosts: seq<Host>, es: seq<Entry>, ls: seq<Lease>)
  {
    Distinct(es) && AddressKeys(es) && Owned(strict, hosts, es, ls) && (strict ==> OneEach(hosts, es))
  }

  ghost predicate PdPoolOk(strict: bool, es: seq<Entry>, ls: seq<Lease>)
  {
    Distinct(es) && PrefixKeys(es) && Owned(strict, [], es, ls) && (strict ==> OneEach([], es))
  }

  /** The pools mirror the table, no two pools share a key, and the file would
      rebuild the table. Strictly, each entry also names its holder, and no client
      has two in a pool; only grants to clients without a name can break that. */
  ghost predicate Inv(strict: bool, cfg: seq<Subnet>, s: State)
  {
    && |s.pools| == |s.pds| == |cfg|
    && Durable(s.db)
    && (forall i :: 0 <= i < |cfg| ==> NaPoolOk(strict, cfg[i].hosts, s.pools[i], s.db.leases))
    && (forall i :: 0 <= i < |cfg| ==> PdPoolOk(strict, s.pds[i], s.db.leases))
    && AllApart(s.pools) && AllApart(s.pds)
  }

  predicate NamesAfter(ls: seq<Lease>, granted: Option<Key>, name: seq<uint8>)
  {
    granted.Some? ==> NameAfter(ls, granted.value, name) == name
  }

  /** What the step grants is recorded in the client's name. That is always so
      for a DUID of 1 to 85 bytes, and for any other client unless the table still has
      somebody's DUID on the address or prefix. */
  predicate Recorded(cfg: seq<Subnet>, s: State, e: Event)
    requires |s.pools| == |s.pds| == |cfg|
  {
    var o := Step(cfg, s, e);
    e.Receive? ==>
      NamesAfter(s.db.leases, o.na, Name(e.packet.duid)) && NamesAfter(s.db.leases, o.pd, Name(e.packet.duid))
  }

  lemma {:induction false} ApartSameKeys(es: seq<Entry>, es': seq<Entry>, fs: seq<Entry>, fs': seq<Entry>)
    requires Apart(es, fs) && SameKeys(es, es') && SameKeys(fs, fs')
    ensures Apart(es', fs')
  {
    forall k ensures FindEntry(es', k).None? || FindEntry(fs', k).None? {
      FindSameEntry(es, es', k);
      FindSameEntry(fs, fs', k);
    }
  }

  /** A safe step in one pool leaves a pool that shares no key with it as it was. */
  lemma {:induction false} OwnedElsewhere(
    strict: bool, hosts: seq<Host>, es: seq<Entry>, db: Db, name: seq<uint8>, a: Alloc,
    others: seq<Host>, fs: seq<Entry>)
    requires Safe(strict, hosts, es, db, name, a) && Apart(es, fs) && Owned(strict, others, fs, db.leases)
    ensures Owned(strict, others, fs, a.db.leases)
  {
    forall j | 0 <= j < |fs| ensures Holder(a.db.leases, fs[j].key) == Holder(db.leases, fs[j].key) {
      assert FindEntry(fs, fs[j].key).Some?;
    }
  }

  lemma {:induction false} KindsAreApart(es: seq<Entry>, fs: seq<Entry>)
    requires AddressKeys(es) && PrefixKeys(fs)
    ensures Apart(es, fs) && Apart(fs, es)
  {
  }

  /** Replacing one address pool and the table by the result of a safe step. */
  lemma {:induction false} NaStepKeeps(strict: bool, cfg: seq<Subnet>, s: State, i: nat, name: seq<uint8>, a: Alloc)
    requires Inv(strict, cfg, s) && i < |cfg| && Safe(strict, cfg[i].hosts, s.pools[i], s.db, name, a) && Durable(a.db)
    ensures Inv(strict, cfg, s.(db := a.db, pools := s.pools[i := a.entries]))
  {
    var es, pools := s.pools[i], s.pools[i := a.entries];
    assert NaPoolOk(strict, cfg[i].hosts, es, s.db.leases);
    forall j | 0 <= j < |cfg|
      ensures NaPoolOk(strict, cfg[j].hosts, pools[j], a.db.leases) && PdPoolOk(strict, s.pds[j], a.db.leases)
    {
      assert NaPoolOk(strict, cfg[j].hosts, s.pools[j], s.db.leases) && PdPoolOk(strict, s.pds[j], s.db.leases);
      KindsAreApart(es, s.pds[j]);
      OwnedElsewhere(strict, cfg[i].hosts, es, s.db, name, a, [], s.pds[j]);
      if j != i {
        assert if i < j then Apart(s.pools[i], s.pools[j]) else Apart(s.pools[j], s.pools[i]);
        OwnedElsewhere(strict, cfg[i].hosts, es, s.db, name, a, cfg[j].hosts, s.pools[j]);
      }
    }
    SameKeysApart(s.pools, pools);
  }

  lemma {:induction false} SameKeysApart(pools: seq<seq<Entry>>, qools: seq<seq<Entry>>)
    requires AllApart(pools) && |pools| == |qools|
    requires forall i :: 0 <= i < |pools| ==> SameKeys(pools[i], qools[i])
    ensures AllApart(qools)
  {
    forall i, j | 0 <= i < j < |qools|
      ensures Apart(qools[i], qools[j])
    {
      ApartSameKeys(pools[i], qools[i], pools[j], qools[j]);
    }
  }

  lemma {:induction false} PdStepKeeps(strict: bool, cfg: seq<Subnet>, s: State, i: nat, name: seq<uint8>, a: Alloc)
    requires Inv(strict, cfg, s) && i < |cfg| && Safe(strict, [], s.pds[i], s.db, name, a) && Durable(a.db)
    ensures Inv(strict, cfg, s.(db := a.db, pds := s.pds[i := a.entries]))
  {
    var es, pds := s.pds[i], s.pds[i := a.entries];
    assert PdPoolOk(strict, es, s.db.leases);
    forall j | 0 <= j < |cfg|
      ensures NaPoolOk(strict, cfg[j].hosts, s.pools[j], a.db.leases) && PdPoolOk(strict, pds[j], a.db.leases)
    {
      assert NaPoolOk(strict, cfg[j].hosts, s.pools[j], s.db.leases) && PdPoolOk(strict, s.pds[j], s.db.leases);
      KindsAreApart(s.pools[j], es);
      OwnedElsewhere(strict, [], es, s.db, name, a, cfg[j].hosts, s.pools[j]);
      if j != i {
        assert if i < j then Apart(s.pds[i], s.pds[j]) else Apart(s.pds[j], s.pds[i]);
        OwnedElsewhere(strict, [], es, s.db, name, a, [], s.pds[j]);
      }
    }
    SameKeysApart(s.pds, pds);
  }

  /* ---------- every step keeps the invariant ---------- */

  /** Nobody else holds the key, before or after, exactly if it is recorded in the
      requester's name. */
  ghost predicate OwnExactly(ls: seq<Lease>, ms: seq<Lease>, key: Key, name: seq<uint8>)
  {
    Permits(ls, key, name) && Permits(ms, key, name) <==> NameAfter(ls, key, name) == name
  }

  /** A granted address: reserved, free or the requester's own, and unless reserved
      nobody else's. */
  ghost predicate AddressGranted(
    hosts: seq<Host>, es: seq<Entry>, ls: seq<Lease>, ms: seq<Lease>, key: Key, name: seq<uint8>)
  {
    && (exists j :: 0 <= j < |es| && es[j].key == key && Grantable(hosts, es[j], name))
    && (!IsStatic(hosts, key) ==> OwnExactly(ls, ms, key, name))
  }

  /** A granted prefix: free or under the requester's text, and nobody else's. */
  ghost predicate PrefixGranted(es: seq<Entry>, ls: seq<Lease>, ms: seq<Lease>, key: Key, name: seq<uint8>)
  {
    && (exists j :: 0 <= j < |es| && es[j].key == key && PdGrantable(es[j], name))
    && OwnExactly(ls, ms, key, name)
  }

  lemma {:induction false} OwnedLoosely(strict: bool, hosts: seq<Host>, es: seq<Entry>, ls: seq<Lease>)
    requires Owned(strict, hosts, es, ls)
    ensures Owned(false, hosts, es, ls)
  {
    forall i | 0 <= i < |es| && !IsStatic(hosts, es[i].key) ensures OwnedAt(false, es[i], Holder(ls, es[i].key)) {
      assert OwnedAt(strict, es[i], Holder(ls, es[i].key));
    }
  }

  lemma {:induction false} AddressGrant(
    sub: Subnet, es: seq<Entry>, db: Db, r: Request, ip: Address, probe: Address -> bool)
    requires Distinct(es) && Owned(false, sub.hosts, es, db.leases) && Allocate(sub, es, db, r, ip, probe).granted.Some?
    ensures var a := Allocate(sub, es, db, r, ip, probe);
      AddressGranted(sub.hosts, es, db.leases, a.db.leases, a.granted.value, r.name)
  {
    GrantsOnlyGrantable(sub, es, db, r, ip, probe);
    if !IsStatic(sub.hosts, Allocate(sub, es, db, r, ip, probe).granted.value) {
      GrantIsOwn(sub, es, db, r, ip, probe);
    }
  }

  lemma {:induction false} GrantNaOk(
    strict: bool, cfg: seq<Subnet>, s: State, p: Packet, i: nat, now: nat, probe: Address -> bool)
    requires Inv(strict, cfg, s)
    requires strict ==> NamesAfter(s.db.leases, GrantNa(cfg, s, p, i, now, probe).na, Name(p.duid))
    ensures var o := GrantNa(cfg, s, p, i, now, probe);
      && Inv(strict, cfg, o.state)
      && (o.na.Some? ==> i < |cfg|)
      && (o.na.Some? ==>
          AddressGranted(cfg[i].hosts, s.pools[i], s.db.leases, o.state.db.leases, o.na.value, Name(p.duid)))
  {
    if p.na.Some? && i < |cfg| {
      var r := Request(Name(p.duid), p.na.value.iaid, now, cfg[i].leaseTime);
      var a := Allocate(cfg[i], s.pools[i], s.db, r, p.na.value.ip, probe);
      assert NaPoolOk(strict, cfg[i].hosts, s.pools[i], s.db.leases);
      AllocateIsSafe(strict, cfg[i], s.pools[i], s.db, r, p.na.value.ip, probe);
      AllocateElsewhere(cfg[i], s.pools[i], s.db, r, p.na.value.ip, probe, Na(UNSPECIFIED));
      NaStepKeeps(strict, cfg, s, i, r.name, a);
      OwnedLoosely(strict, cfg[i].hosts, s.pools[i], s.db.leases);
      if a.granted.Some? { AddressGrant(cfg[i], s.pools[i], s.db, r, p.na.value.ip, probe); }
    }
  }

  lemma {:induction false} GrantPdOk(strict: bool, cfg: seq<Subnet>, s: State, p: Packet, i: nat, now: nat)
    requires Inv(strict, cfg, s)
    requires strict ==> NamesAfter(s.db.leases, GrantPd(cfg, s, p, i, now).pd, Name(p.duid))
    ensures var o := GrantPd(cfg, s, p, i, now);
      && Inv(strict, cfg, o.state)
      && (o.pd.Some? ==> i < |cfg|)
      && (o.pd.Some? ==> PrefixGranted(s.pds[i], s.db.leases, o.state.db.leases, o.pd.value, Name(p.duid)))
  {
    if p.pd.Some? && i < |cfg| {
      var r := Request(Name(p.duid), p.pd.value.iaid, now, cfg[i].leaseTime);
      var a := PdAllocate(s.pds[i], s.db, r);
      assert PdPoolOk(strict, s.pds[i], s.db.leases);
      PdAllocateIsSafe(strict, s.pds[i], s.db, r);
      PdAllocateElsewhere(s.pds[i], s.db, r, Na(UNSPECIFIED));
      PdStepKeeps(strict, cfg, s, i, r.name, a);
      OwnedLoosely(strict, [], s.pds[i], s.db.leases);
      if a.granted.Some? {
        PdGrantsOnlyGrantable(s.pds[i], s.db, r);
        PdGrantIsOwn(s.pds[i], s.db, r);
      }
    }
  }

  lemma {:induction false} EndedKeepsOwned(
    strict: bool, hosts: seq<Host>, es: seq<Entry>, ls: seq<Lease>, ms: seq<Lease>)
    requires Owned(strict, hosts, es, ls) && forall k :: Holder(ms, k) == None || Holder(ms, k) == Holder(ls, k)
    ensures Owned(strict, hosts, es, ms)
  {
  }

  lemma {:induction false} RetireKeeps(strict: bool, cfg: seq<Subnet>, s: State, key: Key, now: nat)
    requires Inv(strict, cfg, s)
    ensures Inv(strict, cfg, s.(db := Retire(s.db, key, Released, now)))
  {
    var db := Retire(s.db, key, Released, now);
    forall k ensures Holder(db.leases, k) == None || Holder(db.leases, k) == Holder(s.db.leases, k) {
      RetireHolder(s.db, key, Released, now, k);
    }
    RetireIsDurable(s.db, key, Released, now);
  }

  lemma {:induction false} GiveBackOk(strict: bool, cfg: seq<Subnet>, s: State, p: Packet, i: nat, now: nat)
    requires Inv(strict, cfg, s)
    ensures Inv(strict, cfg, GiveBackPd(GiveBackNa(s, p, i, now), p, i, now))
  {
    var t := GiveBackNa(s, p, i, now);
    assert Inv(strict, cfg, t) by {
      if p.na.Some? && s.db.leases != [] {
        var key := Na(p.na.value.ip);
        if p.msg == MSG_RELEASE {
          RetireKeeps(strict, cfg, s, key, now);
        } else if i < |cfg| && FindEntry(s.pools[i], key).Some? {
          assert NaPoolOk(strict, cfg[i].hosts, s.pools[i], s.db.leases);
          RetireIsDurable(s.db, key, Abandoned, now);
          SetAsideIsSafe(strict, cfg[i].hosts, s.pools[i], s.db, FindEntry(s.pools[i], key).value, now, []);
          NaStepKeeps(strict, cfg, s, i, [], MarkConflict(s.pools[i], s.db, key, now));
        } else if i < |cfg| {
          assert s.pools[i := s.pools[i]] == s.pools;
        }
      }
    }
    if p.pd.Some? && i < |cfg| && p.msg == MSG_RELEASE {
      var key := Pd(p.pd.value.prefix, p.pd.value.plen);
      assert PdPoolOk(strict, t.pds[i], t.db.leases);
      PdReleaseIsSafe(strict, t.pds[i], t.db, key, now);
      PdReleaseIsDurable(t.pds[i], t.db, key, now);
      PdStepKeeps(strict, cfg, t, i, [], PdRelease(t.pds[i], t.db, key, now));
    }
  }

  /** What one step promises: the invariant, and every grant in order. */
  ghost predicate StepOk(strict: bool, cfg: seq<Subnet>, s: State, e: Event, o: Outcome)
    requires |s.pools| == |s.pds| == |cfg|
  {
    && Inv(strict, cfg, o.state)
    && (o.na.Some? || o.pd.Some? ==> e.Receive? && FindSubnet(cfg, e.packet.src, 0) < |cfg|)
    && (o.na.Some? ==>
        var i := FindSubnet(cfg, e.packet.src, 0);
        AddressGranted(cfg[i].hosts, s.pools[i], s.db.leases, o.state.db.leases, o.na.value, Name(e.packet.duid)))
    && (o.pd.Some? ==>
        var i := FindSubnet(cfg, e.packet.src, 0);
        PrefixGranted(s.pds[i], s.db.leases, o.state.db.leases, o.pd.value, Name(e.packet.duid)))
  }

  /** Address pools hold addresses, prefix pools prefixes. */
  ghost predicate OfTheirKind(s: State)
  {
    && (forall i :: 0 <= i < |s.pools| ==> AddressesOnly(s.pools[i]))
    && (forall i :: 0 <= i < |s.pds| ==> PrefixKeys(s.pds[i]))
  }

  ghost predicate AddressesOnly(es: seq<Entry>)
  {
    forall j :: 0 <= j < |es| ==> es[j].key.Na?
  }

  lemma {:induction false} InvIsOfTheirKind(strict: bool, cfg: seq<Subnet>, s: State)
    requires Inv(strict, cfg, s)
    ensures OfTheirKind(s)
  {
    forall i | 0 <= i < |cfg| ensures AddressesOnly(s.pools[i]) && PrefixKeys(s.pds[i]) {
      assert NaPoolOk(strict, cfg[i].hosts, s.pools[i], s.db.leases) && PdPoolOk(strict, s.pds[i], s.db.leases);
    }
  }

  /** A grant of one kind leaves the leases of the other kind alone. */
  predicate KindsApart(s: State, mid: State, t: State, k: Key)
  {
    if k.Pd? then Lookup(mid.db.leases, k) == Lookup(s.db.leases, k)
    else Lookup(t.db.leases, k) == Lookup(mid.db.leases, k)
  }

  lemma {:induction false} GrantsApart(
    cfg: seq<Subnet>, s: State, p: Packet, i: nat, now: nat, probe: Address -> bool, k: Key)
    requires |s.pools| == |s.pds| == |cfg| && OfTheirKind(s)
    ensures var o := GrantNa(cfg, s, p, i, now, probe);
      KindsApart(s, o.state, GrantPd(cfg, o.state, p, i, now).state, k)
  {
    var o := GrantNa(cfg, s, p, i, now, probe);
    if k.Pd? && p.na.Some? && i < |cfg| {
      var r := Request(Name(p.duid), p.na.value.iaid, now, cfg[i].leaseTime);
      assert AddressesOnly(s.pools[i]);
      AllocateElsewhere(cfg[i], s.pools[i], s.db, r, p.na.value.ip, probe, k);
    } else if k.Na? && p.pd.Some? && i < |cfg| {
      assert PrefixKeys(s.pds[i]);
      PdAllocateElsewhere(s.pds[i], o.state.db, Request(Name(p.duid), p.pd.value.iaid, now, cfg[i].leaseTime), k);
    }
  }

  lemma {:induction false} PrefixUntouched(
    cfg: seq<Subnet>, s: State, p: Packet, i: nat, now: nat, probe: Address -> bool, k: Key)
    requires |s.pools| == |s.pds| == |cfg| && OfTheirKind(s)
    requires GrantPd(cfg, GrantNa(cfg, s, p, i, now, probe).state, p, i, now).pd == Some(k)
    ensures var ls, ms := s.db.leases, GrantNa(cfg, s, p, i, now, probe).state.db.leases;
      k.Pd? && Lookup(ms, k) == Lookup(ls, k) && Holder(ms, k) == Holder(ls, k)
  {
    var r := Request(Name(p.duid), p.pd.value.iaid, now, cfg[i].leaseTime);
    assert PrefixKeys(s.pds[i]);
    PdGrantsOnlyGrantable(s.pds[i], GrantNa(cfg, s, p, i, now, probe).state.db, r);
    GrantsApart(cfg, s, p, i, now, probe, k);
  }

  lemma {:induction false} AddressUntouched(
    cfg: seq<Subnet>, s: State, p: Packet, i: nat, now: nat, probe: Address -> bool, k: Key)
    requires |s.pools| == |s.pds| == |cfg| && OfTheirKind(s) && GrantNa(cfg, s, p, i, now, probe).na == Some(k)
    ensures var mid := GrantNa(cfg, s, p, i, now, probe).state;
      k.Na? && Holder(GrantPd(cfg, mid, p, i, now).state.db.leases, k) == Holder(mid.db.leases, k)
  {
    var r := Request(Name(p.duid), p.na.value.iaid, now, cfg[i].leaseTime);
    assert AddressesOnly(s.pools[i]);
    GrantsOnlyGrantable(cfg[i], s.pools[i], s.db, r, p.na.value.ip, probe);
    GrantsApart(cfg, s, p, i, now, probe, k);
  }

  lemma {:induction false} ProcessOk(
    strict: bool, cfg: seq<Subnet>, s: State, p: Packet, now: nat, probe: Address -> bool)
    requires Inv(strict, cfg, s) && (strict ==> Recorded(cfg, s, Receive(p, now, probe)))
    ensures StepOk(strict, cfg, s, Receive(p, now, probe), Process(cfg, s, p, now, probe))
  {
    var i := FindSubnet(cfg, p.src, 0);
    if ReplyType(p.msg) == 0 {
    } else if IsGiveBack(p.msg) {
      GiveBackOk(strict, cfg, s, p, i, now);
    } else {
      InvIsOfTheirKind(strict, cfg, s);
      var o := GrantNa(cfg, s, p, i, now, probe);
      GrantNaOk(strict, cfg, s, p, i, now, probe);
      var q := GrantPd(cfg, o.state, p, i, now);
      if q.pd.Some? { PrefixUntouched(cfg, s, p, i, now, probe, q.pd.value); }
      GrantPdOk(strict, cfg, o.state, p, i, now);
      if o.na.Some? { AddressUntouched(cfg, s, p, i, now, probe, o.na.value); }
    }
  }

  /** Expiring and dropping leases only ends holdings. */
  lemma {:induction false} TidyTable(db: Db, now: nat)
    requires Durable(db)
    ensures Durable(MarkExpired(db, now)) && Durable(Cleanup(MarkExpired(db, now)))
    ensures forall k :: var h := Holder(MarkExpired(db, now).leases, k); h == None || h == Holder(db.leases, k)
    ensures forall k :: Holder(Cleanup(MarkExpired(db, now)).leases, k) == Holder(MarkExpired(db, now).leases, k)
  {
    MarkExpiredIsDurable(db, now);
    CleanupIsDurable(MarkExpired(db, now));
    forall k
      ensures var h := Holder(MarkExpired(db, now).leases, k); h == None || h == Holder(db.leases, k)
      ensures Holder(Cleanup(MarkExpired(db, now)).leases, k) == Holder(MarkExpired(db, now).leases, k)
    {
      ExpireHolder(db, now, k);
      CleanupHolder(MarkExpired(db, now), k);
    }
  }

  lemma {:induction false} SyncPoolOk(strict: bool, hosts: seq<Host>, es: seq<Entry>, ls: seq<Lease>)
    requires NaPoolOk(strict, hosts, es, ls) && UniqueKeys(ls)
    ensures NaPoolOk(strict, hosts, Sync(es, ls), ls)
  {
    SyncOwns(strict, hosts, es, ls);
    if strict { SyncKeepsOneEach(hosts, es, ls); }
  }

  lemma {:induction false} TidyOk(strict: bool, cfg: seq<Subnet>, s: State, now: nat)
    requires Inv(strict, cfg, s)
    ensures Inv(strict, cfg, Tidy(s, now))
  {
    var t := Tidy(s, now);
    TidyTable(s.db, now);
    SaveIsDurable(t.db.leases);
    forall i | 0 <= i < |cfg|
      ensures NaPoolOk(strict, cfg[i].hosts, t.pools[i], t.db.leases) && SameKeys(s.pools[i], t.pools[i])
    {
      assert NaPoolOk(strict, cfg[i].hosts, s.pools[i], s.db.leases);
      EndedKeepsOwned(strict, cfg[i].hosts, s.pools[i], s.db.leases, t.db.leases);
      SyncPoolOk(strict, cfg[i].hosts, s.pools[i], t.db.leases);
    }
    forall i | 0 <= i < |cfg| ensures PdPoolOk(strict, s.pds[i], t.db.leases) {
      assert PdPoolOk(strict, s.pds[i], s.db.leases);
      EndedKeepsOwned(strict, [], s.pds[i], s.db.leases, t.db.leases);
    }
    SameKeysApart(s.pools, t.pools);
  }

  lemma {:induction false} StepIsOk(strict: bool, cfg: seq<Subnet>, s: State, e: Event)
    requires Inv(strict, cfg, s) && (strict ==> Recorded(cfg, s, e))
    ensures StepOk(strict, cfg, s, e, Step(cfg, s, e))
  {
    match e
    case Receive(p, now, probe) => ProcessOk(strict, cfg, s, p, now, probe);
    case CleanUp(now) => TidyOk(strict, cfg, s, now);
  }

  ghost predicate AllRecorded(cfg: seq<Subnet>, s: State, es: seq<Event>)
    requires |s.pools| == |s.pds| == |cfg|
  {
    es != [] ==>
      AllRecorded(cfg, s, es[..|es| - 1]) && Recorded(cfg, Run(cfg, s, es[..|es| - 1]), es[|es| - 1])
  }

  /** Every state of every run satisfies the invariant. */
  lemma {:induction false} RunKeepsInv(strict: bool, cfg: seq<Subnet>, s: State, es: seq<Event>)
    requires Inv(strict, cfg, s) && (strict ==> AllRecorded(cfg, s, es))
    ensures Inv(strict, cfg, Run(cfg, s, es))
  {
    if es != [] {
      RunKeepsInv(strict, cfg, s, es[..|es| - 1]);
      StepIsOk(strict, cfg, Run(cfg, s, es[..|es| - 1]), es[|es| - 1]);
    }
  }

  /* ---------- whole runs from start-up ---------- */

  /** dhcpv6_agent_start: load the table, then build every pool from it. */
  ghost predicate Start(cfg: seq<Subnet>, file: seq<Record>, s: State)
  {
    && |s.pools| == |s.pds| == |cfg|
    && s.db == Db(Replay(file), file)
    && (forall i :: 0 <= i < |cfg| ==> Started(cfg[i], s.db.leases, s.pools[i]))
    && (forall i :: 0 <= i < |cfg| ==> StartedPd(cfg[i].pd, s.db.leases, s.pds[i]))
  }

  /** Pools that share nothing and leave out the unspecified address. The configuration
      alone decides it (ConfiguredIsSensible), and neither a run nor a restart changes
      it (SensibleSameKeys, RestartKeepsHolders). */
  ghost predicate Sensible(s: State)
  {
    && AllApart(s.pools) && AllApart(s.pds)
    && (forall i :: 0 <= i < |s.pools| ==> AddressKeys(s.pools[i]))
  }

  /** The loaded file gives no client two holdings in a pool. */
  ghost predicate HeldOnce(cfg: seq<Subnet>, s: State)
    requires |s.pools| == |s.pds| == |cfg|
  {
    && (forall i :: 0 <= i < |cfg| ==> HeldSingly(cfg[i].hosts, s.pools[i], s.db.leases))
    && (forall i :: 0 <= i < |cfg| ==> HeldSingly([], s.pds[i], s.db.leases))
  }

  lemma {:induction false} StartIsInv(strict: bool, cfg: seq<Subnet>, file: seq<Record>, s: State)
    requires Start(cfg, file, s) && Sensible(s) && (strict ==> HeldOnce(cfg, s))
    ensures Inv(strict, cfg, s)
  {
    LoadIsDurable(file);
    forall i | 0 <= i < |cfg|
      ensures NaPoolOk(strict, cfg[i].hosts, s.pools[i], s.db.leases)
      ensures PdPoolOk(strict, s.pds[i], s.db.leases)
    {
      assert Started(cfg[i], s.db.leases, s.pools[i]);
      assert StartedPd(cfg[i].pd, s.db.leases, s.pds[i]);
      StartedIsOk(cfg[i], s.db.leases, s.pools[i]);
      StartedPdIsStepped(cfg[i].pd, s.db.leases, s.pds[i]);
      StartedPdIsOk(cfg[i].pd, s.db.leases, s.pds[i]);
      if !strict {
        OwnedLoosely(true, cfg[i].hosts, s.pools[i], s.db.leases);
        OwnedLoosely(true, [], s.pds[i], s.db.leases);
      }
    }
  }

  /** t can be seen some time after the server was started on the file. */
  ghost predicate Seen(cfg: seq<Subnet>, file: seq<Record>, t: State)
  {
    exists s, es :: Start(cfg, file, s) && t == Run(cfg, s, es)
  }

  /** t can be seen after that many restarts, each on the file left behind. */
  ghost predicate SeenAfter(cfg: seq<Subnet>, file: seq<Record>, restarts: nat, t: State)
  {
    if restarts == 0 then Seen(cfg, file, t)
    else exists u :: SeenAfter(cfg, file, restarts - 1, u) && Seen(cfg, u.db.file, t)
  }

  /** The states the server can be in, having been started on the file: any packets,
      clean-ups and restarts in any order, whoever the clients are. */
  ghost predicate Reachable(cfg: seq<Subnet>, file: seq<Record>, t: State)
  {
    exists n: nat :: SeenAfter(cfg, file, n, t)
  }

  /** Every reachable state is reached from some file without a restart. */
  lemma {:induction false} LastStart(
    cfg: seq<Subnet>, file: seq<Record>, t: State) returns (s: State, es: seq<Event>, from: seq<Record>)
    requires Reachable(cfg, file, t)
    ensures Start(cfg, from, s) && t == Run(cfg, s, es)
  {
    var n: nat :| SeenAfter(cfg, file, n, t);
    from := file;
    if n > 0 {
      var u :| SeenAfter(cfg, file, n - 1, u) && Seen(cfg, u.db.file, t);
      from := u.db.file;
    }
    assert Seen(cfg, from, t);
    s, es :| Start(cfg, from, s) && t == Run(cfg, s, es);
  }

  lemma {:induction false} SensibleSameKeys(s: State, t: State)
    requires KeysKept(s, t) && Sensible(t)
    ensures Sensible(s)
  {
    forall i | 0 <= i < |s.pools| ensures SameKeys(t.pools[i], s.pools[i]) && AddressKeys(s.pools[i]) {
      assert SameKeys(s.pools[i], t.pools[i]) && AddressKeys(t.pools[i]);
      forall j | 0 <= j < |s.pools[i]| ensures s.pools[i][j].key == t.pools[i][j].key {}
    }
    forall i | 0 <= i < |s.pds| ensures SameKeys(t.pds[i], s.pds[i]) { assert SameKeys(s.pds[i], t.pds[i]); }
    SameKeysApart(t.pools, s.pools);
    SameKeysApart(t.pds, s.pds);
  }

  lemma {:induction false} ReachableIsInv(cfg: seq<Subnet>, file: seq<Record>, t: State)
    requires Reachable(cfg, file, t) && Sensible(t)
    ensures Inv(false, cfg, t)
  {
    var s, es, from := LastStart(cfg, file, t);
    SensibleSameKeys(s, t);
    StartIsInv(false, cfg, from, s);
    RunKeepsInv(false, cfg, s, es);
  }

  /** The pools stay what start-up made them. */
  lemma {:induction false} ReachableIsStepped(cfg: seq<Subnet>, file: seq<Record>, t: State, i: nat)
    requires Reachable(cfg, file, t) && i < |cfg|
    ensures |t.pools| == |t.pds| == |cfg| && OfTheirKind(t)
    ensures if cfg[i].pd.None? then t.pds[i] == []
            else Stepped(t.pds[i], cfg[i].pd.value.start, cfg[i].pd.value.plen)
  {
    var s, es, from := LastStart(cfg, file, t);
    StartIsOfItsKind(cfg, from, s);
    forall j | 0 <= j < |cfg| ensures AddressesOnly(t.pools[j]) && PrefixKeys(t.pds[j]) {
      assert SameKeys(s.pools[j], t.pools[j]) && SameKeys(s.pds[j], t.pds[j]);
      assert AddressesOnly(s.pools[j]) && PrefixKeys(s.pds[j]);
    }
    assert StartedPd(cfg[i].pd, s.db.leases, s.pds[i]);
    assert SameKeys(s.pds[i], t.pds[i]);
    StartedPdIsStepped(cfg[i].pd, s.db.leases, s.pds[i]);
    if cfg[i].pd.Some? { SteppedSameKeys(s.pds[i], t.pds[i], cfg[i].pd.value.start, cfg[i].pd.value.plen); }
  }

  lemma {:induction false} StartIsOfItsKind(cfg: seq<Subnet>, file: seq<Record>, s: State)
    requires Start(cfg, file, s)
    ensures OfTheirKind(s)
  {
    forall i | 0 <= i < |cfg| ensures AddressesOnly(s.pools[i]) && PrefixKeys(s.pds[i]) {
      assert Started(cfg[i], s.db.leases, s.pools[i]);
      assert StartedPd(cfg[i].pd, s.db.leases, s.pds[i]);
      StartedPdIsStepped(cfg[i].pd, s.db.leases, s.pds[i]);
      var raw := LaidDown(cfg[i], s.db.leases, s.pools[i]);
      forall j | 0 <= j < |s.pools[i]| ensures s.pools[i][j].key.Na? { FreshInSpan(raw, cfg[i].range, j); }
    }
  }

  /** The pool as it was before leases and reservations were put over it. */
  lemma {:induction false} LaidDown(sub: Subnet, ls: seq<Lease>, es: seq<Entry>) returns (raw: seq<Entry>)
    requires Started(sub, ls, es)
    ensures Fresh(raw, sub.range) && SameKeys(raw, es)
  {
    raw :| Fresh(raw, sub.range) && es == ReserveAll(Sync(raw, ls), sub.hosts);
  }

  lemma {:induction false} LiveIsHolder(ls: seq<Lease>, l: Lease)
    requires UniqueKeys(ls) && l in ls && Live(l.state)
    ensures Holder(ls, l.key) == Some(l.duid)
  {
    var i :| 0 <= i < |ls| && ls[i] == l;
  }

  /** In every reachable state a live lease on a dynamic pool address shows in the
      pool as allocated, under the lease's DUID or, after a client without a name, under
      no text. */
  lemma {:induction false} LiveLeaseIsAllocated(cfg: seq<Subnet>, file: seq<Record>, t: State, i: nat, j: nat, l: Lease)
    requires Reachable(cfg, file, t) && Sensible(t) && i < |cfg| && i < |t.pools| && j < |t.pools[i]|
    requires l in t.db.leases && Live(l.state) && l.key == t.pools[i][j].key && !IsStatic(cfg[i].hosts, l.key)
    ensures var e := t.pools[i][j]; e.state == Allocated && (Names(e.text, l.duid) || e.text == "")
  {
    ReachableIsInv(cfg, file, t);
    assert NaPoolOk(false, cfg[i].hosts, t.pools[i], t.db.leases);
    LiveIsHolder(t.db.leases, l);
  }

  /** Every live lease on the key, in either table, carries the name. */
  ghost predicate AllNamed(ls: seq<Lease>, ms: seq<Lease>, key: Key, name: seq<uint8>)
  {
    forall l :: (l in ls || l in ms) && l.key == key && Live(l.state) ==> l.duid == name
  }

  lemma {:induction false} PermitsIsAllNamed(ls: seq<Lease>, ms: seq<Lease>, key: Key, name: seq<uint8>)
    requires UniqueKeys(ls) && UniqueKeys(ms)
    ensures Permits(ls, key, name) && Permits(ms, key, name) <==> AllNamed(ls, ms, key, name)
  {
    forall l | (l in ls || l in ms) && l.key == key && Live(l.state)
      ensures l in ls ==> Holder(ls, key) == Some(l.duid)
      ensures l in ms ==> Holder(ms, key) == Some(l.duid)
    {
      if l in ls { LiveIsHolder(ls, l); }
      if l in ms { LiveIsHolder(ms, l); }
    }
    if AllNamed(ls, ms, key, name) {
      if Holder(ls, key).Some? { assert ls[FindKey(ls, key).value] in ls; }
      if Holder(ms, key).Some? { assert ms[FindKey(ms, key).value] in ms; }
    }
  }

  /** No dynamic address is granted to one client while a live lease names another,
      except to a client without a name: in every reachable state and for every event,
      whichever branch granted it, every live lease on it before and after the step
      carries the requester's DUID, if and only if the requester has a DUID of 1 to 85
      bytes or the table had no other's DUID left for the address. And it was reserved,
      free, or already the requester's. */
  lemma {:induction false} NoAddressGrantedTwice(cfg: seq<Subnet>, file: seq<Record>, t: State, e: Event, o: Outcome)
    requires Reachable(cfg, file, t) && Sensible(t) && |t.pools| == |t.pds| == |cfg|
    requires o == Step(cfg, t, e) && o.na.Some?
    ensures e.Receive? && FindSubnet(cfg, e.packet.src, 0) < |cfg|
    ensures var i, name := FindSubnet(cfg, e.packet.src, 0), Name(e.packet.duid);
      && (exists j ::
            0 <= j < |t.pools[i]| && t.pools[i][j].key == o.na.value && Grantable(cfg[i].hosts, t.pools[i][j], name))
      && (!IsStatic(cfg[i].hosts, o.na.value) ==>
          (AllNamed(t.db.leases, o.state.db.leases, o.na.value, name) <==> NamesAfter(t.db.leases, o.na, name)))
  {
    ReachableIsInv(cfg, file, t);
    StepIsOk(false, cfg, t, e);
    PermitsIsAllNamed(t.db.leases, o.state.db.leases, o.na.value, Name(e.packet.duid));
  }

  /** The same for delegated prefixes, with no exception for reservations. */
  lemma {:induction false} NoPrefixGrantedTwice(cfg: seq<Subnet>, file: seq<Record>, t: State, e: Event, o: Outcome)
    requires Reachable(cfg, file, t) && Sensible(t) && |t.pools| == |t.pds| == |cfg|
    requires o == Step(cfg, t, e) && o.pd.Some?
    ensures e.Receive? && FindSubnet(cfg, e.packet.src, 0) < |cfg|
    ensures var i, name := FindSubnet(cfg, e.packet.src, 0), Name(e.packet.duid);
      && (exists j :: 0 <= j < |t.pds[i]| && t.pds[i][j].key == o.pd.value && PdGrantable(t.pds[i][j], name))
      && (AllNamed(t.db.leases, o.state.db.leases, o.pd.value, name) <==> NamesAfter(t.db.leases, o.pd, name))
  {
    ReachableIsInv(cfg, file, t);
    StepIsOk(false, cfg, t, e);
    PermitsIsAllNamed(t.db.leases, o.state.db.leases, o.pd.value, Name(e.packet.duid));
  }

  /** So whoever has a DUID of 1 to 85 bytes shares no dynamic address and no prefix it
      is granted, in any run, after any restarts, whatever other clients did before. */
  lemma {:induction false} NamedGrantsAreExclusive(cfg: seq<Subnet>, file: seq<Record>, t: State, e: Event, o: Outcome)
    requires Reachable(cfg, file, t) && Sensible(t) && |t.pools| == |t.pds| == |cfg| && o == Step(cfg, t, e)
    requires e.Receive? && 1 <= |e.packet.duid| <= 85
    ensures o.na.Some? ==>
      && FindSubnet(cfg, e.packet.src, 0) < |cfg|
      && (IsStatic(cfg[FindSubnet(cfg, e.packet.src, 0)].hosts, o.na.value)
          || AllNamed(t.db.leases, o.state.db.leases, o.na.value, e.packet.duid))
    ensures o.pd.Some? ==> AllNamed(t.db.leases, o.state.db.leases, o.pd.value, e.packet.duid)
  {
    if o.na.Some? { NoAddressGrantedTwice(cfg, file, t, e, o); }
    if o.pd.Some? { NoPrefixGrantedTwice(cfg, file, t, e, o); }
  }

  /* ---------- delegated blocks ---------- */

  /** The configured ranges, rounded out to whole blocks, have no address in common. */
  ghost predicate PdApart(a: Option<PdRange>, b: Option<PdRange>)
  {
    forall ip :: !(InPdSpan(a, ip) && InPdSpan(b, ip))
  }

  lemma {:induction false} DelegatedInSpan(cfg: seq<Subnet>, file: seq<Record>, t: State, i: nat, a: nat, ip: Address)
    requires Reachable(cfg, file, t) && i < |cfg| && i < |t.pds| && a < |t.pds[i]|
    ensures t.pds[i][a].key.Pd? && InPdSpan(cfg[i].pd, t.pds[i][a].key.prefix)
    ensures Covers(t.pds[i][a].key, ip) ==> InPdSpan(cfg[i].pd, ip)
  {
    var s, es, from := LastStart(cfg, file, t);
    assert StartedPd(cfg[i].pd, s.db.leases, s.pds[i]) && SameKeys(s.pds[i], t.pds[i]);
    var raw :| FreshPrefixes(raw, cfg[i].pd.value) && s.pds[i] == PdSync(raw, s.db.leases);
    FreshPrefixInSpan(raw, cfg[i].pd.value, a, ip);
  }

  lemma {:induction false} PoolBlocksDisjoint(pd: Option<PdRange>, es: seq<Entry>, a: nat, b: nat, ip: Address)
    requires if pd.None? then es == [] else Stepped(es, pd.value.start, pd.value.plen)
    requires a < |es| && b < |es| && a != b
    ensures !(Covers(es[a].key, ip) && Covers(es[b].key, ip))
  {
    if a < b {
      BlocksDisjoint(es, pd.value.start, pd.value.plen, a, b, ip);
    } else {
      BlocksDisjoint(es, pd.value.start, pd.value.plen, b, a, ip);
    }
  }

  /** In every reachable state two live delegations of pool prefixes never overlap as
      address blocks, in one pool or in two whose configured ranges are apart; and the
      entry behind each is allocated, under its DUID or under no text. */
  lemma {:induction false} DelegationsDisjoint(
    cfg: seq<Subnet>, file: seq<Record>, t: State, i: nat, a: nat, j: nat, b: nat, l: Lease, m: Lease, ip: Address)
    requires Reachable(cfg, file, t) && Sensible(t)
    requires i < |cfg| == |t.pds| && j < |cfg| && a < |t.pds[i]| && b < |t.pds[j]|
    requires i == j || PdApart(cfg[i].pd, cfg[j].pd)
    requires l in t.db.leases && Live(l.state) && l.key == t.pds[i][a].key
    requires m in t.db.leases && Live(m.state) && m.key == t.pds[j][b].key
    ensures t.pds[i][a].state == Allocated && (Names(t.pds[i][a].text, l.duid) || t.pds[i][a].text == "")
    ensures l != m ==> !(Covers(l.key, ip) && Covers(m.key, ip))
  {
    ReachableIsInv(cfg, file, t);
    assert PdPoolOk(false, t.pds[i], t.db.leases);
    LiveIsHolder(t.db.leases, l);
    if l != m && i == j {
      KeyDecides(t.db.leases, l, m);
      ReachableIsStepped(cfg, file, t, i);
      PoolBlocksDisjoint(cfg[i].pd, t.pds[i], a, b, ip);
    } else if l != m {
      DelegatedInSpan(cfg, file, t, i, a, ip);
      DelegatedInSpan(cfg, file, t, j, b, ip);
    }
  }

  lemma {:induction false} KeyDecides(ls: seq<Lease>, l: Lease, m: Lease)
    requires UniqueKeys(ls) && l in ls && m in ls && l != m
    ensures l.key != m.key
  {
    var x :| 0 <= x < |ls| && ls[x] == l;
    var y :| 0 <= y < |ls| && ls[y] == m;
  }

  /* ---------- the configuration ---------- */

  ghost predicate SpansApart(a: Option<(Address, Address)>, b: Option<(Address, Address)>)
  {
    forall v: nat :: !(InSpan(a, v) && InSpan(b, v))
  }

  /** Ranges that have nothing in common, and none with the unspecified address. */
  ghost predicate Configured(cfg: seq<Subnet>)
  {
    && (forall i, j :: 0 <= i < j < |cfg| ==> SpansApart(cfg[i].range, cfg[j].range))
    && (forall i, j :: 0 <= i < j < |cfg| ==> PdApart(cfg[i].pd, cfg[j].pd))
    && (forall i :: 0 <= i < |cfg| ==> !InSpan(cfg[i].range, Value(UNSPECIFIED)))
  }

  lemma {:induction false} AddressInSpan(cfg: seq<Subnet>, file: seq<Record>, t: State, i: nat, j: nat)
    requires Reachable(cfg, file, t) && i < |cfg| && i < |t.pools| && j < |t.pools[i]|
    ensures t.pools[i][j].key.Na? && InSpan(cfg[i].range, Value(t.pools[i][j].key.ip))
  {
    var s, es, from := LastStart(cfg, file, t);
    assert Started(cfg[i], s.db.leases, s.pools[i]) && SameKeys(s.pools[i], t.pools[i]);
    var raw := LaidDown(cfg[i], s.db.leases, s.pools[i]);
    FreshInSpan(raw, cfg[i].range, j);
  }

  /** With ranges that have nothing in common, every reachable state has pools that
      share nothing. */
  lemma {:induction false} ConfiguredIsSensible(cfg: seq<Subnet>, file: seq<Record>, t: State)
    requires Reachable(cfg, file, t) && Configured(cfg)
    ensures Sensible(t)
  {
    var s, es, from := LastStart(cfg, file, t);
    forall i, j, k | 0 <= i < j < |cfg| ensures FindEntry(t.pools[i], k).None? || FindEntry(t.pools[j], k).None? {
      var a, b := FindEntry(t.pools[i], k), FindEntry(t.pools[j], k);
      if a.Some? && b.Some? {
        assert SpansApart(cfg[i].range, cfg[j].range);
        AddressInSpan(cfg, file, t, i, a.value);
        AddressInSpan(cfg, file, t, j, b.value);
      }
    }
    forall i, j, k | 0 <= i < j < |cfg| ensures FindEntry(t.pds[i], k).None? || FindEntry(t.pds[j], k).None? {
      var a, b := FindEntry(t.pds[i], k), FindEntry(t.pds[j], k);
      if a.Some? && b.Some? {
        assert PdApart(cfg[i].pd, cfg[j].pd);
        DelegatedInSpan(cfg, file, t, i, a.value, UNSPECIFIED);
        DelegatedInSpan(cfg, file, t, j, b.value, UNSPECIFIED);
      }
    }
    forall i | 0 <= i < |cfg| ensures AddressKeys(t.pools[i]) {
      forall j | 0 <= j < |t.pools[i]| ensures t.pools[i][j].key.Na? && t.pools[i][j].key.ip != UNSPECIFIED {
        AddressInSpan(cfg, file, t, i, j);
      }
    }
  }

  /* ---------- clients with a name only ---------- */

  /** t can be seen after a start on a file that gives no client two holdings in a
      pool, and grants all recorded in their clients' names. */
  ghost predicate SeenNamed(cfg: seq<Subnet>, file: seq<Record>, t: State)
  {
    exists s, es :: NamedRun(cfg, file, s, es) && t == Run(cfg, s, es)
  }

  ghost predicate NamedRun(cfg: seq<Subnet>, file: seq<Record>, s: State, es: seq<Event>)
  {
    Start(cfg, file, s) && HeldOnce(cfg, s) && AllRecorded(cfg, s, es)
  }

  lemma {:induction false} NamedIsInv(cfg: seq<Subnet>, file: seq<Record>, t: State)
    requires SeenNamed(cfg, file, t) && Sensible(t)
    ensures Inv(true, cfg, t)
  {
    var s, es :| NamedRun(cfg, file, s, es) && t == Run(cfg, s, es);
    SensibleSameKeys(s, t);
    StartIsInv(true, cfg, file, s);
    RunKeepsInv(true, cfg, s, es);
  }

  /** As long as grants are recorded in their clients' names, a live lease on a dynamic
      address shows under its DUID: under the whole text when it has at most 42 bytes. */
  lemma {:induction false} LiveLeaseIsNamed(cfg: seq<Subnet>, file: seq<Record>, t: State, i: nat, j: nat, l: Lease)
    requires SeenNamed(cfg, file, t) && Sensible(t) && i < |cfg| && i < |t.pools| && j < |t.pools[i]|
    requires l in t.db.leases && Live(l.state) && l.key == t.pools[i][j].key && !IsStatic(cfg[i].hosts, l.key)
    ensures var e := t.pools[i][j];
      e.state == Allocated && Names(e.text, l.duid) && (|l.duid| <= 42 ==> e.text == Hex(l.duid))
  {
    NamedIsInv(cfg, file, t);
    assert NaPoolOk(true, cfg[i].hosts, t.pools[i], t.db.leases);
    LiveIsHolder(t.db.leases, l);
  }

  /** And a client with a DUID of 1 to 42 bytes has at most one dynamic entry in a
      pool. */
  lemma {:induction false} OneEntryPerClient(
    cfg: seq<Subnet>, file: seq<Record>, t: State, i: nat, j: nat, k: nat, duid: seq<uint8>)
    requires SeenNamed(cfg, file, t) && Sensible(t) && i < |cfg| && i < |t.pools| && 1 <= |duid| <= 42
    requires var p := t.pools[i];
      && j < |p| && p[j].state == Allocated && p[j].text == Hex(duid) && !IsStatic(cfg[i].hosts, p[j].key)
      && k < |p| && p[k].state == Allocated && p[k].text == Hex(duid) && !IsStatic(cfg[i].hosts, p[k].key)
    ensures j == k
  {
    NamedIsInv(cfg, file, t);
    assert NaPoolOk(true, cfg[i].hosts, t.pools[i], t.db.leases);
    assert Dynamic(cfg[i].hosts, t.pools[i][j]) && Dynamic(cfg[i].hosts, t.pools[i][k]);
  }

  /* ---------- restarts, whoever the clients are ---------- */

  lemma {:induction false} PdReleaseIsDurable(es: seq<Entry>, db: Db, key: Key, now: nat)
    requires Durable(db)
    ensures Durable(PdRelease(es, db, key, now).db)
  {
    RetireIsDurable(db, key, Released, now);
    SaveIsDurable(Retire(db, key, Released, now).leases);
  }

  lemma {:induction false} GiveBackIsDurable(cfg: seq<Subnet>, s: State, p: Packet, i: nat, now: nat)
    requires Durable(s.db) && |s.pools| == |s.pds| == |cfg|
    ensures Durable(GiveBackPd(GiveBackNa(s, p, i, now), p, i, now).db)
  {
    var t := GiveBackNa(s, p, i, now);
    if p.na.Some? {
      RetireIsDurable(s.db, Na(p.na.value.ip), Released, now);
      RetireIsDurable(s.db, Na(p.na.value.ip), Abandoned, now);
    }
    if p.pd.Some? && i < |t.pds| {
      PdReleaseIsDurable(t.pds[i], t.db, Pd(p.pd.value.prefix, p.pd.value.plen), now);
    }
  }

  lemma {:induction false} GrantsAreDurable(
    cfg: seq<Subnet>, s: State, p: Packet, i: nat, now: nat, probe: Address -> bool)
    requires Durable(s.db) && |s.pools| == |s.pds| == |cfg|
    ensures Durable(GrantPd(cfg, GrantNa(cfg, s, p, i, now, probe).state, p, i, now).state.db)
  {
    var mid, key := GrantNa(cfg, s, p, i, now, probe).state, Na(UNSPECIFIED);
    if p.na.Some? && i < |cfg| {
      var r := Request(Name(p.duid), p.na.value.iaid, now, cfg[i].leaseTime);
      AllocateElsewhere(cfg[i], s.pools[i], s.db, r, p.na.value.ip, probe, key);
    }
    if p.pd.Some? && i < |cfg| {
      PdAllocateElsewhere(mid.pds[i], mid.db, Request(Name(p.duid), p.pd.value.iaid, now, cfg[i].leaseTime), key);
    }
  }

  lemma {:induction false} StepIsDurable(cfg: seq<Subnet>, s: State, e: Event)
    requires Durable(s.db) && |s.pools| == |s.pds| == |cfg|
    ensures Durable(Step(cfg, s, e).state.db)
  {
    match e
    case Receive(p, now, probe) =>
      GiveBackIsDurable(cfg, s, p, FindSubnet(cfg, p.src, 0), now);
      GrantsAreDurable(cfg, s, p, FindSubnet(cfg, p.src, 0), now, probe);
    case CleanUp(now) =>
      TidyTable(s.db, now);
      SaveIsDurable(Tidy(s, now).db.leases);
  }

  /** Stopping the server after any run at all, clients without a name included, and
      loading the file gives back the table, times apart. */
  lemma {:induction false} RestartRebuildsTable(cfg: seq<Subnet>, file: seq<Record>, s: State, es: seq<Event>)
    requires Start(cfg, file, s)
    ensures var db := Run(cfg, s, es).db; Durable(db) && SameBindings(Replay(db.file), db.leases)
  {
    if es == [] {
      LoadIsDurable(file);
    } else {
      RestartRebuildsTable(cfg, file, s, es[..|es| - 1]);
      StepIsDurable(cfg, Run(cfg, s, es[..|es| - 1]), es[|es| - 1]);
    }
  }

  /* ---------- across restarts ---------- */

  lemma {:induction false} BindingsHold(ls: seq<Lease>, ms: seq<Lease>, k: Key)
    requires SameBindings(ls, ms)
    ensures Holder(ls, k) == Holder(ms, k)
  {
    forall i | 0 <= i < |ls| ensures ls[i].key == ms[i].key { assert Binding(ls[i]) == Binding(ms[i]); }
    FindSame(ls, ms, k);
    match FindKey(ls, k) {
      case Some(i) => assert Binding(ls[i]) == Binding(ms[i]);
      case None =>
    }
  }

  lemma {:induction false} StartsSameKeys(cfg: seq<Subnet>, file: seq<Record>, s: State, other: seq<Record>, t: State)
    requires Start(cfg, file, s) && Start(cfg, other, t)
    ensures KeysKept(s, t)
  {
    forall i | 0 <= i < |cfg| ensures SameKeys(s.pools[i], t.pools[i]) {
      assert Started(cfg[i], s.db.leases, s.pools[i]) && Started(cfg[i], t.db.leases, t.pools[i]);
      var raw := LaidDown(cfg[i], s.db.leases, s.pools[i]);
      var again := LaidDown(cfg[i], t.db.leases, t.pools[i]);
      FreshSameKeys(raw, again, cfg[i].range);
    }
    forall i | 0 <= i < |cfg| ensures SameKeys(s.pds[i], t.pds[i]) {
      assert StartedPd(cfg[i].pd, s.db.leases, s.pds[i]) && StartedPd(cfg[i].pd, t.db.leases, t.pds[i]);
      if cfg[i].pd.Some? {
        var raw :| FreshPrefixes(raw, cfg[i].pd.value) && s.pds[i] == PdSync(raw, s.db.leases);
        var again :| FreshPrefixes(again, cfg[i].pd.value) && t.pds[i] == PdSync(again, t.db.leases);
        FreshPrefixesSameKeys(raw, again, cfg[i].pd.value);
      }
    }
  }

  lemma {:induction false} KeysKeptThrough(s: State, t: State, u: State)
    requires KeysKept(s, t) && KeysKept(s, u)
    ensures KeysKept(t, u)
  {
    forall i | 0 <= i < |s.pools| ensures SameKeys(t.pools[i], u.pools[i]) {
      assert SameKeys(s.pools[i], t.pools[i]) && SameKeys(s.pools[i], u.pools[i]);
    }
    forall i | 0 <= i < |s.pds| ensures SameKeys(t.pds[i], u.pds[i]) {
      assert SameKeys(s.pds[i], t.pds[i]) && SameKeys(s.pds[i], u.pds[i]);
    }
  }

  /** A restart in any reachable state leaves every key with its holder and every pool
      with its keys, and leads to a reachable state again: what holds of every reachable
      state holds after any number of restarts. */
  lemma {:induction false} RestartKeepsHolders(cfg: seq<Subnet>, file: seq<Record>, t: State, s: State, k: Key)
    requires Reachable(cfg, file, t) && Start(cfg, t.db.file, s)
    ensures Holder(s.db.leases, k) == Holder(t.db.leases, k)
    ensures KeysKept(s, t) && (Sensible(t) ==> Sensible(s))
    ensures Reachable(cfg, file, s)
  {
    var first, es, from := LastStart(cfg, file, t);
    RestartRebuildsTable(cfg, from, first, es);
    BindingsHold(Replay(t.db.file), t.db.leases, k);
    StartsSameKeys(cfg, from, first, t.db.file, s);
    KeysKeptThrough(first, s, t);
    if Sensible(t) { SensibleSameKeys(s, t); }
    var n: nat :| SeenAfter(cfg, file, n, t);
    assert s == Run(cfg, s, []);
    assert Seen(cfg, t.db.file, s);
    assert SeenAfter(cfg, file, n + 1, s);
  }

  lemma {:induction false} StrictIsHeldSingly(hosts: seq<Host>, es: seq<Entry>, ls: seq<Lease>)
    requires Owned(true, hosts, es, ls) && OneEach(hosts, es)
    ensures HeldSingly(hosts, es, ls)
  {
    forall i, j | 0 <= i < j < |es| && HeldShort(hosts, es[i].key, ls) && HeldShort(hosts, es[j].key, ls)
      ensures Holder(ls, es[i].key) != Holder(ls, es[j].key)
    {
      assert OwnedAt(true, es[i], Holder(ls, es[i].key)) && OwnedAt(true, es[j], Holder(ls, es[j].key));
      assert Dynamic(hosts, es[i]) && Dynamic(hosts, es[j]);
    }
  }

  lemma {:induction false} HeldSinglyFollows(
    hosts: seq<Host>, es: seq<Entry>, ls: seq<Lease>, fs: seq<Entry>, ms: seq<Lease>)
    requires HeldSingly(hosts, es, ls) && SameKeys(fs, es) && forall k :: Holder(ms, k) == Holder(ls, k)
    ensures HeldSingly(hosts, fs, ms)
  {
    forall i | 0 <= i < |es| ensures HeldShort(hosts, fs[i].key, ms) == HeldShort(hosts, es[i].key, ls) {
    }
  }

  lemma {:induction false} StrictIsHeldOnce(cfg: seq<Subnet>, t: State, s: State)
    requires Inv(true, cfg, t) && KeysKept(s, t) && forall k :: Holder(s.db.leases, k) == Holder(t.db.leases, k)
    ensures HeldOnce(cfg, s)
  {
    forall i | 0 <= i < |cfg|
      ensures HeldSingly(cfg[i].hosts, s.pools[i], s.db.leases) && HeldSingly([], s.pds[i], s.db.leases)
    {
      assert NaPoolOk(true, cfg[i].hosts, t.pools[i], t.db.leases) && PdPoolOk(true, t.pds[i], t.db.leases);
      StrictIsHeldSingly(cfg[i].hosts, t.pools[i], t.db.leases);
      StrictIsHeldSingly([], t.pds[i], t.db.leases);
      HeldSinglyFollows(cfg[i].hosts, t.pools[i], t.db.leases, s.pools[i], s.db.leases);
      HeldSinglyFollows([], t.pds[i], t.db.leases, s.pds[i], s.db.leases);
    }
  }

  lemma {:induction false} NamedIsReachable(cfg: seq<Subnet>, file: seq<Record>, t: State)
    requires SeenNamed(cfg, file, t)
    ensures Reachable(cfg, file, t)
  {
    var s, es :| NamedRun(cfg, file, s, es) && t == Run(cfg, s, es);
    assert Seen(cfg, file, t);
    assert SeenAfter(cfg, file, 0, t);
  }

  /** One holding a client also survives a restart. */
  lemma {:induction false} RestartStaysNamed(cfg: seq<Subnet>, file: seq<Record>, t: State, s: State)
    requires SeenNamed(cfg, file, t) && Sensible(t) && Start(cfg, t.db.file, s)
    ensures SeenNamed(cfg, t.db.file, s) && Sensible(s)
  {
    NamedIsInv(cfg, file, t);
    NamedIsReachable(cfg, file, t);
    RestartKeepsHolders(cfg, file, t, s, Na(UNSPECIFIED));
    forall k ensures Holder(s.db.leases, k) == Holder(t.db.leases, k) { RestartKeepsHolders(cfg, file, t, s, k); }
    StrictIsHeldOnce(cfg, t, s);
    assert NamedRun(cfg, t.db.file, s, []) && s == Run(cfg, s, []);
  }
}
