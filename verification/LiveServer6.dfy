/** The server context of server.c: the lease table and the pools it mutates under
    its lock. Each step is proved to be the step of the state machine in Server6. */
module LiveServer6 {
  import opened Bytes
  import opened Address6
  import opened Identifiers
  import opened Leases6
  import opened Pools6
  import opened AddressPool
  import opened PrefixPool
  import opened Server6
  import opened LivePools6

  /** The text process_packet works with: duid_bin_to_hex into 256 characters. */
  method ClientText(duid: seq<uint8>) returns (text: string)
    ensures text == Hex(Name(duid))
  {
    var buf := new char[256];
    var n := DuidBinToHex(duid, buf);
    NameText(duid);
    text := if n < 0 then "" else buf[..n];
  }

  class Server {
    const cfg: seq<Subnet>
    const table: LeaseTable
    const pools: seq<AddressTable>
    const pds: seq<PrefixTable>

    ghost predicate Valid()
      reads this, pools, pds
    {
      && |pools| == |pds| == |cfg|
      && (forall i :: 0 <= i < |pools| ==> pools[i].Valid() && pools[i].sub == cfg[i])
      && (forall i :: 0 <= i < |pds| ==> pds[i].Valid())
      && (forall i, j :: 0 <= i < j < |pools| ==> pools[i] != pools[j])
      && (forall i, j :: 0 <= i < j < |pds| ==> pds[i] != pds[j])
    }

    ghost function View(): State
      reads this, table, pools, pds
    {
      State(table.View(),
            seq(|pools|, i requires 0 <= i < |pools| reads pools => pools[i].entries),
            seq(|pds|, i requires 0 <= i < |pds| reads pds => pds[i].entries))
    }

    /** dhcpv6_agent_start: load the leases, then build every pool from them. */
    constructor (cfg: seq<Subnet>, file: seq<Record>)
      ensures Valid() && this.cfg == cfg && Start(cfg, file, View())
      ensures fresh(table) && (forall p :: p in pools ==> fresh(p)) && (forall p :: p in pds ==> fresh(p))
    {
      var t := new LeaseTable(file);
      var na := BuildPools(cfg, t);
      var pd := BuildPrefixPools(cfg, t);
      this.cfg, table, pools, pds := cfg, t, na, pd;
    }

    /** The pool loop of dhcpv6_agent_start, its address pools. */
    static method BuildPools(cfg: seq<Subnet>, t: LeaseTable) returns (na: seq<AddressTable>)
      ensures |na| == |cfg|
      ensures forall i :: 0 <= i < |na| ==>
        fresh(na[i]) && na[i].Valid() && na[i].sub == cfg[i] && Started(cfg[i], t.leases, na[i].entries)
      ensures forall i, j :: 0 <= i < j < |na| ==> na[i] != na[j]
    {
      na := [];
      for k := 0 to |cfg|
        invariant |na| == k
        invariant forall i :: 0 <= i < |na| ==>
          fresh(na[i]) && na[i].Valid() && na[i].sub == cfg[i] && Started(cfg[i], t.leases, na[i].entries)
        invariant forall i, j :: 0 <= i < j < |na| ==> na[i] != na[j]
      {
        var pool := new AddressTable(cfg[k], t);
        na := na + [pool];
      }
    }

    /** The pool loop of dhcpv6_agent_start, its prefix pools. */
    static method BuildPrefixPools(cfg: seq<Subnet>, t: LeaseTable) returns (pd: seq<PrefixTable>)
      ensures |pd| == |cfg|
      ensures forall i :: 0 <= i < |pd| ==>
        fresh(pd[i]) && pd[i].Valid() && StartedPd(cfg[i].pd, t.leases, pd[i].entries)
      ensures forall i, j :: 0 <= i < j < |pd| ==> pd[i] != pd[j]
    {
      pd := [];
      for k := 0 to |cfg|
        invariant |pd| == k
        invariant forall i :: 0 <= i < |pd| ==>
          fresh(pd[i]) && pd[i].Valid() && StartedPd(cfg[i].pd, t.leases, pd[i].entries)
        invariant forall i, j :: 0 <= i < j < |pd| ==> pd[i] != pd[j]
      {
        var pool := new PrefixTable(cfg[k].pd, t);
        pd := pd + [pool];
      }
    }

    /** find_subnet. */
    method SubnetOf(src: Address) returns (r: nat)
      ensures r == FindSubnet(cfg, src, 0)
    {
      if IsLinkLocal(src) { return 0; }
      for i := 0 to |cfg|
        invariant FindSubnet(cfg, src, i) == FindSubnet(cfg, src, 0)
      {
        if InSubnet(src, cfg[i].prefix, cfg[i].prefixLen) { return i; }
      }
      return 0;
    }

    /** The IA_NA part of a RELEASE or DECLINE. */
    method GiveBackAddress(p: Packet, i: nat, now: nat)
      requires Valid()
      modifies table, pools
      ensures Valid() && View() == GiveBackNa(old(View()), p, i, now)
    {
      if p.na.Some? && |table.leases| > 0 {
        var key := Na(p.na.value.ip);
        if p.msg == MSG_RELEASE {
          table.RetireLease(key, Released, now);
        } else if i < |pools| {
          pools[i].MarkConflict(key, table, now);
        }
      }
    }

    /** The IA_PD part of a RELEASE. */
    method GiveBackPrefix(p: Packet, i: nat, now: nat)
      requires Valid()
      modifies table, pds
      ensures Valid() && View() == GiveBackPd(old(View()), p, i, now)
    {
      if p.pd.Some? && i < |pds| && p.msg == MSG_RELEASE {
        pds[i].ReleasePrefix(Pd(p.pd.value.prefix, p.pd.value.plen), table, now);
      }
    }

    method GrantAddress(p: Packet, i: nat, now: nat, probe: Address -> bool) returns (granted: Option<Key>)
      requires Valid()
      modifies table, pools
      ensures Valid() && Outcome(View(), granted, None) == GrantNa(cfg, old(View()), p, i, now, probe)
    {
      granted := None;
      if p.na.Some? && i < |pools| {
        var text := ClientText(p.duid);
        var r := Request(Name(p.duid), p.na.value.iaid, now, cfg[i].leaseTime);
        granted := pools[i].AllocateAddress(text, r, p.na.value.ip, probe, table);
      }
    }

    method GrantPrefix(p: Packet, i: nat, now: nat) returns (granted: Option<Key>)
      requires Valid()
      modifies table, pds
      ensures Valid() && Outcome(View(), None, granted) == GrantPd(cfg, old(View()), p, i, now)
    {
      granted := None;
      if p.pd.Some? && i < |pds| {
        var text := ClientText(p.duid);
        var r := Request(Name(p.duid), p.pd.value.iaid, now, cfg[i].leaseTime);
        granted := pds[i].AllocatePrefix(text, r, table);
      }
    }

    /** process_packet. */
    method ProcessPacket(p: Packet, now: nat, probe: Address -> bool) returns (na: Option<Key>, pd: Option<Key>)
      requires Valid()
      modifies table, pools, pds
      ensures Valid() && Outcome(View(), na, pd) == Process(cfg, old(View()), p, now, probe)
    {
      var i := SubnetOf(p.src);
      na, pd := None, None;
      if ReplyType(p.msg) != 0 {
        if p.msg == MSG_RELEASE || p.msg == MSG_DECLINE {
          GiveBackAddress(p, i, now);
          GiveBackPrefix(p, i, now);
        } else {
          na := GrantAddress(p, i, now, probe);
          pd := GrantPrefix(p, i, now);
        }
      }
    }

    method SyncOne(i: nat, ghost want: seq<Entry>)
      requires Valid() && i < |pools| && want == Sync(pools[i].entries, table.leases)
      modifies pools[i]
      ensures Valid() && pools[i].entries == want
    {
      pools[i].SyncWithLeases(table);
    }

    /** The synchronisation loop of cleanup_thread. */
    method SyncAll()
      requires Valid()
      modifies pools
      ensures Valid() && View() == old(View()).(pools := SyncPools(old(View()).pools, table.leases))
    {
      ghost var was := View().pools;
      ghost var want := SyncPools(was, table.leases);
      for i := 0 to |pools|
        invariant Valid()
        invariant forall j :: i <= j < |pools| ==> pools[j].entries == was[j]
        invariant forall j :: 0 <= j < i ==> pools[j].entries == want[j]
      {
        SyncOne(i, want[i]);
      }
      assert View().pools == want;
    }

    /** The lease part of cleanup_thread. */
    method ExpireLeases(now: nat)
      modifies table
      ensures table.View() == TidyLeases(old(table.View()), now)
    {
      var expired := table.MarkExpiredOlder(now);
      if expired > 0 {
        var removed := table.CleanupDead();
      }
    }

    /** One turn of cleanup_thread. */
    method CleanUpLeases(now: nat)
      requires Valid()
      modifies table, pools
      ensures Valid() && View() == Tidy(old(View()), now)
    {
      ghost var s := View();
      ExpireLeases(now);
      assert View().pools == s.pools && View().pds == s.pds;
      SyncAll();
      ghost var t := View();
      table.SaveAll();
      assert View().pools == t.pools && View().pds == t.pds;
    }
  }
}
