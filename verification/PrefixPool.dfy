/** The IA_PD prefix pool, DHCP_Server/DHCPv6/sources/pd_pool.c. */
module PrefixPool {
  import opened Bytes
  import opened Address6
  import opened Identifiers
  import opened Leases6
  import opened Pools6
  import opened AddressPool

  const MAX_PD_POOL_SIZE: nat := 1024

  /* ---------- layout ---------- */

  /** The pool's entries are the prefixes reached from the start in steps of their
      own size. */
  ghost predicate Stepped(es: seq<Entry>, start: Address, plen: uint8)
  {
    && (plen == 0 || plen > 128 ==> |es| <= 1)
    && forall i :: 0 <= i < |es| ==> PrefixAt(es[i].key, start, plen, i)
  }

  ghost predicate PrefixAt(key: Key, start: Address, plen: uint8, i: nat)
  {
    && key.Pd? && key.plen == plen
    && Value(key.prefix) == Value(start) + if 1 <= plen <= 128 then i * Pow2(128 - plen) else 0
  }

  /** An address lies in the delegated block. */
  predicate Covers(key: Key, ip: Address)
  {
    key.Pd? && InSubnet(ip, key.prefix, key.plen)
  }

  /** Distinct entries delegate disjoint blocks, even from an unaligned start. */
  lemma {:induction false} BlocksDisjoint(es: seq<Entry>, start: Address, plen: uint8, i: nat, j: nat, ip: Address)
    requires Stepped(es, start, plen) && i < j < |es|
    ensures !(Covers(es[i].key, ip) && Covers(es[j].key, ip))
  {
    var p, q := es[i].key.prefix, es[j].key.prefix;
    assert PrefixAt(es[i].key, start, plen, i) && PrefixAt(es[j].key, start, plen, j);
    NextBlock(start, p, plen, i);
    NextBlock(start, q, plen, j);
    InSubnetIsBlock(ip, p, plen);
    InSubnetIsBlock(ip, q, plen);
  }

  lemma {:induction false} SteppedIsDistinct(es: seq<Entry>, start: Address, plen: uint8)
    requires Stepped(es, start, plen)
    ensures Distinct(es)
  {
    forall i, j | 0 <= i < j < |es|
      ensures es[i].key != es[j].key
    {
      assert PrefixAt(es[i].key, start, plen, i) && PrefixAt(es[j].key, start, plen, j);
      NextBlock(start, es[i].key.prefix, plen, i);
      NextBlock(start, es[j].key.prefix, plen, j);
    }
  }

  /* ---------- start-up ---------- */

  /** The entry as the start-up pass leaves it; a lease without a DUID does not
      touch the text. */
  function FromPdLease(e: Entry, l: Lease): Entry
  {
    e.(state := StateOf(l.state), text := if l.duid == [] then e.text else HexIn(l.duid, ENTRY_TEXT_SIZE))
  }

  function UpdateFromPdLease(es: seq<Entry>, l: Lease): (fs: seq<Entry>)
    ensures SameKeys(es, fs)
  {
    var i := if l.key.Pd? then FindEntry(es, l.key) else None;
    if i.None? then es else es[i.value := FromPdLease(es[i.value], l)]
  }

  function PdSync(es: seq<Entry>, ls: seq<Lease>): (fs: seq<Entry>)
    ensures SameKeys(es, fs)
  {
    if ls == [] then es else UpdateFromPdLease(PdSync(es, ls[..|ls| - 1]), ls[|ls| - 1])
  }

  ghost predicate PrefixKeys(es: seq<Entry>)
  {
    forall i :: 0 <= i < |es| ==> es[i].key.Pd?
  }

  function PdSynced(e: Entry, l: Option<Lease>): Entry
  {
    if l.None? then e else FromPdLease(e, l.value)
  }

  lemma {:induction false} PdSyncAt(es: seq<Entry>, ls: seq<Lease>, i: nat)
    requires Distinct(es) && PrefixKeys(es) && UniqueKeys(ls) && i < |es|
    ensures PdSync(es, ls)[i] == PdSynced(es[i], Lookup(ls, es[i].key))
  {
    if ls != [] {
      var rest, last := ls[..|ls| - 1], ls[|ls| - 1];
      PdSyncAt(es, rest, i);
      assert ls == rest + [last];
      FindAfterAppend(rest, last, es[i].key);
      FindSameEntry(es, PdSync(es, rest), last.key);
    }
  }

  /** A pool brought up from the table shows every delegation in it. */
  lemma {:induction false} PdSyncOwns(strict: bool, es: seq<Entry>, ls: seq<Lease>)
    requires Distinct(es) && PrefixKeys(es) && UniqueKeys(ls)
    requires forall i :: 0 <= i < |es| ==> es[i].text == ""
    ensures Owned(strict, [], PdSync(es, ls), ls)
  {
    forall i | 0 <= i < |es|
      ensures OwnedAt(strict, PdSync(es, ls)[i], Holder(ls, es[i].key))
    {
      PdSyncAt(es, ls, i);
      if Holder(ls, es[i].key).Some? { HexInNames(Holder(ls, es[i].key).value); }
    }
  }

  /* ---------- allocation and release ---------- */

  function FirstAvailable(es: seq<Entry>): (r: Option<nat>)
    ensures r.Some? ==> r.value < |es| && es[r.value].state == Available
    ensures r.Some? ==> forall i :: 0 <= i < r.value ==> es[i].state != Available
    ensures r.None? ==> forall i :: 0 <= i < |es| ==> es[i].state != Available
  {
    if es == [] then None
    else
      var rest := FirstAvailable(es[..|es| - 1]);
      if rest.Some? then rest else if es[|es| - 1].state == Available then Some(|es| - 1) else None
  }

  /** pd_pool_allocate. A new delegation is followed by a full save. */
  function PdAllocate(es: seq<Entry>, db: Db, r: Request): (a: Alloc)
    ensures SameKeys(es, a.entries)
  {
    var mine, free := FindOwned(es, Hex(r.name)), FirstAvailable(es);
    if mine.Some? then Refresh(es, db, mine.value, r)
    else if free.None? then Alloc(es, db, None)
    else
      var a := Claim(es, db, free.value, r);
      if a.granted.Some? then a.(db := Save(a.db.leases)) else a
  }

  /** pd_pool_release. Only a prefix of this pool is released, and then the file is
      saved whether or not a lease was found. */
  function PdRelease(es: seq<Entry>, db: Db, key: Key, now: nat): (a: Alloc)
    ensures SameKeys(es, a.entries)
  {
    var i := FindEntry(es, key);
    if i.None? then Alloc(es, db, None)
    else
      var e := es[i.value];
      Alloc(if e.state == Allocated then es[i.value := e.(state := Available, text := "")] else es,
            Save(Retire(db, key, Released, now).leases), None)
  }

  /** The prefix pool grants a block only when nobody else holds it. */
  lemma {:induction false} PdAllocateIsSafe(strict: bool, es: seq<Entry>, db: Db, r: Request)
    requires Distinct(es) && Owned(strict, [], es, db.leases)
    requires strict ==> NamesClient(PdAllocate(es, db, r), db, r.name)
    ensures Safe(strict, [], es, db, r.name, PdAllocate(es, db, r))
  {
    var mine, free := FindOwned(es, Hex(r.name)), FirstAvailable(es);
    if mine.Some? {
      RefreshIsSafe(strict, [], es, db, mine.value, r);
    } else if free.Some? {
      ClaimIsSafe(strict, [], es, db, free.value, r);
    }
  }

  /** Named or not, a request leaves every other lease as it is, and the file ready to
      rebuild the table. */
  lemma {:induction false} PdAllocateElsewhere(es: seq<Entry>, db: Db, r: Request, k: Key)
    ensures var a := PdAllocate(es, db, r);
      && ((forall j :: 0 <= j < |es| ==> es[j].key != k) ==> Lookup(a.db.leases, k) == Lookup(db.leases, k))
      && (Durable(db) ==> Durable(a.db))
  {
    var mine, free := FindOwned(es, Hex(r.name)), FirstAvailable(es);
    if mine.Some? {
      RefreshElsewhere(es, db, mine.value, r, k);
    } else if free.Some? {
      var key := es[free.value].key;
      AddHolder(db, key, r.name, r.iaid, r.now, r.secs, k);
      if Durable(db) && Add(db, key, r.name, r.iaid, r.now, r.secs).Some? {
        AddIsDurable(db, key, r.name, r.iaid, r.now, r.secs);
        SaveIsDurable(Claim(es, db, free.value, r).db.leases);
      }
    }
  }

  /** A prefix is delegated to a client, named or not, while nobody else holds it
      before and after, exactly if the client has a name or the table has no other's
      name left over for the prefix. */
  lemma {:induction false} PdGrantIsOwn(es: seq<Entry>, db: Db, r: Request)
    requires Distinct(es) && Owned(false, [], es, db.leases) && PdAllocate(es, db, r).granted.Some?
    ensures var a := PdAllocate(es, db, r);
      var key := a.granted.value;
      (Permits(db.leases, key, r.name) && Permits(a.db.leases, key, r.name)) <==>
        NameAfter(db.leases, key, r.name) == r.name
  {
    var a := PdAllocate(es, db, r);
    if NameAfter(db.leases, a.granted.value, r.name) == r.name {
      PdAllocateIsSafe(false, es, db, r);
    } else {
      AddHolder(db, a.granted.value, r.name, r.iaid, r.now, r.secs, a.granted.value);
    }
  }

  predicate PdGrantable(e: Entry, name: seq<uint8>)
  {
    e.state == Available || (e.state == Allocated && e.text == Hex(name))
  }

  /** Only a prefix that was available, or allocated under the client's own text, is
      delegated; the empty text of a client without a name is such a text. */
  lemma {:induction false} PdGrantsOnlyGrantable(es: seq<Entry>, db: Db, r: Request)
    ensures var g := PdAllocate(es, db, r).granted;
      g.Some? ==> exists i :: 0 <= i < |es| && es[i].key == g.value && PdGrantable(es[i], r.name)
  {
    var mine, free := FindOwned(es, Hex(r.name)), FirstAvailable(es);
    if mine.Some? {
      assert PdGrantable(es[mine.value], r.name);
    } else if free.Some? {
      assert PdGrantable(es[free.value], r.name);
    }
  }

  lemma {:induction false} PdReleaseIsSafe(strict: bool, es: seq<Entry>, db: Db, key: Key, now: nat)
    requires Distinct(es) && Owned(strict, [], es, db.leases)
    ensures Safe(strict, [], es, db, [], PdRelease(es, db, key, now))
  {
    var i := FindEntry(es, key);
    if i.Some? {
      var a := PdRelease(es, db, key, now);
      forall k ensures Holder(a.db.leases, k) == if k == key then None else Holder(db.leases, k) {
        RetireHolder(db, key, Released, now, k);
      }
      assert es[i.value := es[i.value]] == es;
    }
  }

  /* ---------- start-up of a whole pool ---------- */

  /** The pool as first laid down: prefixes stepped from the start while they do not
      pass the end, up to the cap, all available. */
  ghost predicate FreshPrefixes(es: seq<Entry>, r: PdRange)
  {
    && Stepped(es, r.start, r.plen)
    && |es| <= MAX_PD_POOL_SIZE
    && (es == [] <==> Value(r.start) > Value(r.end))
    && (forall i :: 0 <= i < |es| ==> es[i].state == Available && es[i].text == "")
    && (forall i :: 0 <= i < |es| ==> es[i].key.Pd? && Value(es[i].key.prefix) <= Value(r.end))
    && (1 <= r.plen <= 128 && 0 < |es| < MAX_PD_POOL_SIZE ==>
        Value(r.start) + |es| * Pow2(128 - r.plen) > Value(r.end))
  }

  /** The addresses a configured range spans, rounded out to whole blocks. */
  predicate InPdSpan(pd: Option<PdRange>, ip: Address)
  {
    && pd.Some?
    && var r := pd.value;
    if r.plen <= 128 then Block(r.start, r.plen) <= Block(ip, r.plen) <= Block(r.end, r.plen) else ip == r.start
  }

  /** A prefix that is laid down lies in its range, and so does all it covers. */
  lemma {:induction false} FreshPrefixInSpan(es: seq<Entry>, r: PdRange, i: nat, ip: Address)
    requires FreshPrefixes(es, r) && i < |es|
    ensures es[i].key.Pd? && es[i].key.plen == r.plen && InPdSpan(Some(r), es[i].key.prefix)
    ensures Covers(es[i].key, ip) ==> InPdSpan(Some(r), ip)
  {
    var p := es[i].key.prefix;
    assert PrefixAt(es[i].key, r.start, r.plen, i);
    if r.plen <= 128 {
      BlockMonotone(r.start, p, r.plen);
      BlockMonotone(p, r.end, r.plen);
      InSubnetIsBlock(ip, p, r.plen);
    } else {
      ValueInjective(p, r.start);
    }
  }

  lemma {:induction false} NotFewer(es: seq<Entry>, fs: seq<Entry>, r: PdRange)
    requires FreshPrefixes(es, r) && FreshPrefixes(fs, r)
    ensures |es| >= |fs|
  {
    var n: nat := |es|;
    assert n < |fs| ==> PrefixAt(fs[n].key, r.start, r.plen, n);
  }

  /** The configuration alone decides which prefixes a pool has, and in which order. */
  lemma {:induction false} FreshPrefixesSameKeys(es: seq<Entry>, fs: seq<Entry>, r: PdRange)
    requires FreshPrefixes(es, r) && FreshPrefixes(fs, r)
    ensures SameKeys(es, fs)
  {
    NotFewer(es, fs, r);
    NotFewer(fs, es, r);
    forall i | 0 <= i < |es| ensures es[i].key == fs[i].key {
      assert PrefixAt(es[i].key, r.start, r.plen, i) && PrefixAt(fs[i].key, r.start, r.plen, i);
      ValueInjective(es[i].key.prefix, fs[i].key.prefix);
    }
  }

  /** pd_pool_init. */
  ghost predicate StartedPd(pd: Option<PdRange>, ls: seq<Lease>, es: seq<Entry>)
  {
    if pd.None? then es == []
    else exists raw :: FreshPrefixes(raw, pd.value) && es == PdSync(raw, ls)
  }

  lemma {:induction false} SteppedSameKeys(es: seq<Entry>, fs: seq<Entry>, start: Address, plen: uint8)
    requires Stepped(es, start, plen) && SameKeys(es, fs)
    ensures Stepped(fs, start, plen)
  {
    forall i | 0 <= i < |fs| ensures PrefixAt(fs[i].key, start, plen, i) {
      assert PrefixAt(es[i].key, start, plen, i);
    }
  }

  lemma {:induction false} StartedPdIsStepped(pd: Option<PdRange>, ls: seq<Lease>, es: seq<Entry>)
    requires StartedPd(pd, ls, es)
    ensures Distinct(es) && PrefixKeys(es)
    ensures pd.Some? ==> Stepped(es, pd.value.start, pd.value.plen)
  {
    if pd.Some? {
      var raw :| FreshPrefixes(raw, pd.value) && es == PdSync(raw, ls);
      SteppedSameKeys(raw, es, pd.value.start, pd.value.plen);
      SteppedIsDistinct(es, pd.value.start, pd.value.plen);
      forall i | 0 <= i < |es| ensures es[i].key.Pd? { assert PrefixAt(es[i].key, pd.value.start, pd.value.plen, i); }
    }
  }

  lemma {:induction false} FreshPdShowsHolder(raw: seq<Entry>, ls: seq<Lease>, i: nat)
    requires Distinct(raw) && PrefixKeys(raw) && UniqueKeys(ls) && i < |raw|
    requires raw[i].state == Available && raw[i].text == ""
    ensures ShowsHolder([], PdSync(raw, ls)[i], ls)
  {
    PdSyncAt(raw, ls, i);
  }

  /** A started prefix pool mirrors the loaded table. */
  lemma {:induction false} StartedPdIsOk(pd: Option<PdRange>, ls: seq<Lease>, es: seq<Entry>)
    requires StartedPd(pd, ls, es) && UniqueKeys(ls)
    ensures Owned(true, [], es, ls) && (HeldSingly([], es, ls) ==> OneEach([], es))
  {
    if pd.Some? {
      var raw :| FreshPrefixes(raw, pd.value) && es == PdSync(raw, ls);
      SteppedIsDistinct(raw, pd.value.start, pd.value.plen);
      assert PrefixKeys(raw);
      PdSyncOwns(true, raw, ls);
      forall i | 0 <= i < |es|
        ensures ShowsHolder([], es[i], ls)
      {
        FreshPdShowsHolder(raw, ls, i);
      }
      if HeldSingly([], es, ls) { HeldSinglyIsOneEach([], es, ls); }
    }
  }
}
