/** What one synchronisation pass of the DHCPv4 pool achieves, ip_pool.c. */
module PoolSync4 {
  import opened Bytes
  import opened Pool4

  ghost predicate OneLeaseEach(ls: seq<Lease>)
  {
    forall i, j :: 0 <= i < j < |ls| ==> ls[i].ip != ls[j].ip
  }

  /** The entry at i agrees with lease l, or is none of the pass's business. */
  ghost predicate Agrees(e: Entry, l: Lease, now: int)
  {
    Touchable(e) ==> e.state == StateOf(l.state) && !Overdue(l, now)
  }

  /** The first n leases have been dealt with, the others are as they were. */
  ghost predicate Settled(es: seq<Entry>, ls: seq<Lease>, ms: seq<Lease>, n: nat, now: int)
  {
    && |ms| == |ls| && n <= |ls|
    && (forall k :: 0 <= k < |ls| ==> ms[k].ip == ls[k].ip && ms[k].mac == ls[k].mac)
    && (forall k :: n <= k < |ls| ==> ms[k] == ls[k])
    && (forall k, i :: 0 <= k < n && 0 <= i < |es| && es[i].ip == ms[k].ip ==> Agrees(es[i], ms[k], now))
  }

  lemma {:induction false} PassOneSettles(p: Pool, ls: seq<Lease>, ms: seq<Lease>, k: nat, now: int)
    requires Distinct(p.entries) && OneLeaseEach(ls) && Settled(p.entries, ls, ms, k, now) && k < |ls|
    ensures var r := PassOne(p, ms, k, now);
      Settled(r.pool.entries, ls, r.leases, k + 1, now) && SameIps(p.entries, r.pool.entries)
      && Distinct(r.pool.entries)
  {
    var r := PassOne(p, ms, k, now);
    forall j, i | 0 <= j < k + 1 && 0 <= i < |r.pool.entries| && r.pool.entries[i].ip == r.leases[j].ip
      ensures Agrees(r.pool.entries[i], r.leases[j], now)
    {
      if j == k {
        assert Find(p.entries, ms[k].ip) == Some(i);
      } else {
        assert ls[j].ip != ls[k].ip;
        assert r.pool.entries[i] == p.entries[i] && r.leases[j] == ms[j];
      }
    }
  }

  lemma {:induction false} PassKeepsIps(p: Pool, ls: seq<Lease>, n: nat, now: int)
    requires n <= |ls|
    ensures SameIps(p.entries, Pass(p, ls, n, now).pool.entries)
  {
    if n > 0 {
      PassKeepsIps(p, ls, n - 1, now);
      var r := Pass(p, ls, n - 1, now);
      assert SameIps(r.pool.entries, PassOne(r.pool, r.leases, n - 1, now).pool.entries);
    }
  }

  /** After a pass every entry with a lease is in the state its lease maps to, unless
      it is reserved or excluded, and no such lease is overdue. */
  lemma {:induction false} PassSettles(p: Pool, ls: seq<Lease>, n: nat, now: int)
    requires Distinct(p.entries) && OneLeaseEach(ls) && n <= |ls|
    ensures Settled(Pass(p, ls, n, now).pool.entries, ls, Pass(p, ls, n, now).leases, n, now)
  {
    if n > 0 {
      PassSettles(p, ls, n - 1, now);
      PassKeepsIps(p, ls, n - 1, now);
      var r := Pass(p, ls, n - 1, now);
      PassOneSettles(r.pool, ls, r.leases, n - 1, now);
    }
  }

  /** The entry once its lease has been looked at. */
  function EntryAfter(e: Entry, l: Lease, now: int): Entry
  {
    var state := StateOf(if Overdue(l, now) then Expired else l.state);
    if !Touchable(e) || e.state == state then e
    else e.(state := state, mac := if state == Available then NO_MAC else if state == Allocated then l.mac else e.mac)
  }

  lemma {:induction false} PassOneAt(p: Pool, ls: seq<Lease>, k: nat, now: int, i: nat)
    requires Distinct(p.entries) && k < |ls| && i < |p.entries|
    ensures |PassOne(p, ls, k, now).pool.entries| == |p.entries|
    ensures PassOne(p, ls, k, now).pool.entries[i] ==
      if p.entries[i].ip == ls[k].ip then EntryAfter(p.entries[i], ls[k], now) else p.entries[i]
  {
    if p.entries[i].ip == ls[k].ip { assert Find(p.entries, ls[k].ip) == Some(i); }
  }

  /** A pass has not touched the leases it has not come to. */
  lemma {:induction false} PassAhead(p: Pool, ls: seq<Lease>, n: nat, now: int, k: nat)
    requires Distinct(p.entries) && n <= k < |ls|
    ensures Distinct(Pass(p, ls, n, now).pool.entries) && Pass(p, ls, n, now).leases[k] == ls[k]
  {
    PassKeepsIps(p, ls, n, now);
    if n > 0 {
      PassAhead(p, ls, n - 1, now, k);
    }
  }

  /** A pass changes an entry once, when it comes to the entry's own lease. */
  lemma {:induction false} PassAt(p: Pool, ls: seq<Lease>, n: nat, now: int, i: nat, k: nat)
    requires Distinct(p.entries) && OneLeaseEach(ls) && n <= |ls|
    requires i < |p.entries| && k < |ls| && p.entries[i].ip == ls[k].ip
    ensures |Pass(p, ls, n, now).pool.entries| == |p.entries|
    ensures Pass(p, ls, n, now).pool.entries[i] == if k < n then EntryAfter(p.entries[i], ls[k], now) else p.entries[i]
  {
    if n > 0 {
      PassAt(p, ls, n - 1, now, i, k);
      PassAhead(p, ls, n - 1, now, n - 1);
      var r := Pass(p, ls, n - 1, now);
      PassOneAt(r.pool, r.leases, n - 1, now, i);
      assert r.pool.entries[i].ip == ls[k].ip;
      assert n - 1 < k ==> ls[n - 1].ip != ls[k].ip;
      assert n - 1 > k ==> ls[k].ip != ls[n - 1].ip;
    }
  }

  /** Whose address it is after a pass: an allocated entry carries its lease's hardware
      address exactly if it was not allocated before or carried it already, and an
      available one carries none exactly if it was not available before or carried
      none already. The pass does not repair a wrong one. */
  lemma {:induction false} PassNames(p: Pool, ls: seq<Lease>, now: int, i: nat, k: nat)
    requires Distinct(p.entries) && OneLeaseEach(ls)
    requires i < |p.entries| && k < |ls| && p.entries[i].ip == ls[k].ip && Touchable(p.entries[i])
    ensures |Pass(p, ls, |ls|, now).pool.entries| == |p.entries|
    ensures var e, f := p.entries[i], Pass(p, ls, |ls|, now).pool.entries[i];
      && (f.state == Allocated ==> (f.mac == ls[k].mac <==> e.state != Allocated || e.mac == ls[k].mac))
      && (f.state == Available ==> (f.mac == NO_MAC <==> e.state != Available || e.mac == NO_MAC))
  {
    PassAt(p, ls, |ls|, now, i, k);
  }

  /** Where everything agrees a pass does nothing. */
  lemma {:induction false} PassOverSettled(p: Pool, ls: seq<Lease>, ms: seq<Lease>, n: nat, now: int)
    requires Settled(p.entries, ls, ms, |ls|, now) && n <= |ms|
    ensures Pass(p, ms, n, now) == Synced(p, ms)
  {
    if n > 0 {
      PassOverSettled(p, ls, ms, n - 1, now);
    }
  }

  /** A second pass at the same time changes neither the pool nor the leases. */
  lemma {:induction false} PassTwice(p: Pool, ls: seq<Lease>, now: int)
    requires Distinct(p.entries) && OneLeaseEach(ls)
    ensures var r := Pass(p, ls, |ls|, now); Pass(r.pool, r.leases, |ls|, now) == r
  {
    PassSettles(p, ls, |ls|, now);
    var r := Pass(p, ls, |ls|, now);
    PassOverSettled(r.pool, ls, r.leases, |ls|, now);
  }
}
