/** The two kinds of DHCPv6 pool, IA_NA addresses (ip6_pool.c) and IA_PD prefixes
    (pd_pool.c): entries, how a lease maps onto an entry, and the relation between
    a pool and the lease table that every operation has to keep. */
module Pools6 {
  import opened Bytes
  import opened Address6
  import opened Identifiers
  import opened Leases6

  const ENTRY_TEXT_SIZE: nat := 128

  datatype IpState = Available | Allocated | ReservedIp | Excluded | Conflict | Unknown

  /** A pool entry; the text names its client, and is empty when nobody does. */
  datatype Entry = Entry(key: Key, state: IpState, text: string)

  /** A static reservation of the subnet's configuration. */
  datatype Host = Host(text: string, fixed: Option<Address>)

  /** The delegation range of a subnet and the length it delegates at. */
  datatype PdRange = PdRange(start: Address, end: Address, plen: uint8)

  /** What the pools read of a subnet's configuration. */
  datatype Subnet = Subnet(prefix: Address, prefixLen: uint8,
                           range: Option<(Address, Address)>, hosts: seq<Host>,
                           pd: Option<PdRange>, leaseTime: uint32)

  /** ip6_state_from_lease_state. */
  function StateOf(s: LeaseState): IpState
  {
    match s
    case Active => Allocated
    case Backup => Allocated
    case Reserved => ReservedIp
    case Abandoned => Conflict
    case Free => Available
    case Expired => Available
    case Released => Available
  }

  /** strncpy into the entry's 128-byte text, whose last byte stays zero. */
  function Clip(text: string): string
  {
    if |text| < ENTRY_TEXT_SIZE then text else text[..ENTRY_TEXT_SIZE - 1]
  }

  /** The texts under which an entry may name the DUID: the DUID's own text, or for
      a DUID too long for the entry, the clipped text or nothing. */
  predicate Names(text: string, duid: seq<uint8>)
  {
    || text == Hex(duid)
    || (3 * |duid| > ENTRY_TEXT_SIZE && (text == "" || text == Clip(Hex(duid))))
  }

  /** An entry naming a client by its text names no other client. */
  lemma {:induction false} NamesOnlyOne(text: string, name: seq<uint8>, duid: seq<uint8>)
    requires name != [] && text == Hex(name) && Names(text, duid)
    ensures duid == name
  {
    if text == Hex(duid) { HexInjective(name, duid); }
  }

  lemma {:induction false} HexInNames(duid: seq<uint8>)
    ensures Names(HexIn(duid, ENTRY_TEXT_SIZE), duid)
  {
  }

  /** The first entry with the key. */
  function FindEntry(es: seq<Entry>, key: Key): (r: Option<nat>)
    ensures r.Some? ==> r.value < |es| && es[r.value].key == key
    ensures r.Some? ==> forall i :: 0 <= i < r.value ==> es[i].key != key
    ensures r.None? ==> forall i :: 0 <= i < |es| ==> es[i].key != key
  {
    if es == [] then None
    else match FindEntry(es[..|es| - 1], key)
      case Some(i) => Some(i)
      case None => if es[|es| - 1].key == key then Some(|es| - 1) else None
  }

  /** The first allocated entry under the given text. */
  function FindOwned(es: seq<Entry>, text: string): (r: Option<nat>)
    ensures r.Some? ==> r.value < |es| && es[r.value].state == Allocated && es[r.value].text == text
    ensures r.Some? ==> forall i :: 0 <= i < r.value ==> !(es[i].state == Allocated && es[i].text == text)
    ensures r.None? ==> forall i :: 0 <= i < |es| ==> !(es[i].state == Allocated && es[i].text == text)
  {
    if es == [] then None
    else match FindOwned(es[..|es| - 1], text)
      case Some(i) => Some(i)
      case None =>
        if es[|es| - 1].state == Allocated && es[|es| - 1].text == text then Some(|es| - 1) else None
  }

  ghost predicate Distinct(es: seq<Entry>)
  {
    forall i, j :: 0 <= i < j < |es| ==> es[i].key != es[j].key
  }

  ghost predicate SameKeys(es: seq<Entry>, fs: seq<Entry>)
  {
    |es| == |fs| && forall i :: 0 <= i < |es| ==> es[i].key == fs[i].key
  }

  lemma {:induction false} FindSameEntry(es: seq<Entry>, fs: seq<Entry>, key: Key)
    requires SameKeys(es, fs)
    ensures FindEntry(es, key) == FindEntry(fs, key)
  {
    match FindEntry(es, key) {
      case Some(i) => assert fs[i].key == key;
      case None =>
    }
    match FindEntry(fs, key) {
      case Some(i) => assert es[i].key == key;
      case None =>
    }
  }

  /* ---------- the joint invariant of a pool and the table ---------- */

  predicate IsStatic(hosts: seq<Host>, key: Key)
  {
    exists i :: 0 <= i < |hosts| && hosts[i].fixed.Some? && key == Na(hosts[i].fixed.value)
  }

  /** A held key is allocated, in the holder's name or, unless strict, in nobody's: a
      client without a name leaves the name of an earlier holder in the table. */
  predicate OwnedAt(strict: bool, e: Entry, holder: Option<seq<uint8>>)
  {
    holder.Some? ==> e.state == Allocated && (Names(e.text, holder.value) || (!strict && e.text == ""))
  }

  /** Outside the static reservations, every holding in the table shows in the pool. */
  ghost predicate Owned(strict: bool, hosts: seq<Host>, es: seq<Entry>, ls: seq<Lease>)
  {
    forall i :: 0 <= i < |es| && !IsStatic(hosts, es[i].key) ==> OwnedAt(strict, es[i], Holder(ls, es[i].key))
  }

  /** A text that is a whole DUID text rather than nothing or a clipped one. */
  predicate WholeName(text: string)
  {
    text != "" && |text| < ENTRY_TEXT_SIZE - 1
  }

  /** Allocated to a client under its whole name, and not a static reservation. */
  predicate Dynamic(hosts: seq<Host>, e: Entry)
  {
    e.state == Allocated && WholeName(e.text) && !IsStatic(hosts, e.key)
  }

  /** Outside the static reservations no client has two allocated entries. */
  ghost predicate OneEach(hosts: seq<Host>, es: seq<Entry>)
  {
    forall i, j :: 0 <= i < j < |es| && Dynamic(hosts, es[i]) && Dynamic(hosts, es[j]) ==> es[i].text != es[j].text
  }

  /** Nobody but the named client holds the key. */
  predicate Permits(ls: seq<Lease>, key: Key, name: seq<uint8>)
  {
    Holder(ls, key) == None || Holder(ls, key) == Some(name)
  }

  /** Holdings have only ended, except that `granted` may now be held, by whoever the
      table names after an add by `name`. */
  ghost predicate HoldersFollow(ls: seq<Lease>, ms: seq<Lease>, granted: Option<Key>, name: seq<uint8>)
  {
    forall k :: Holder(ms, k) == None || Holder(ms, k) == Holder(ls, k)
             || (granted == Some(k) && Holder(ms, k) == Some(NameAfter(ls, k, name)))
  }

  /** An allocated entry under the client's own text, or an entry that is not
      allocated, may be granted to the client. */
  lemma {:induction false} GrantPermitted(
    strict: bool, hosts: seq<Host>, es: seq<Entry>, ls: seq<Lease>, i: nat, name: seq<uint8>)
    requires Owned(strict, hosts, es, ls) && i < |es| && !IsStatic(hosts, es[i].key)
    requires es[i].state != Allocated || (es[i].text == Hex(name) && NameAfter(ls, es[i].key, name) == name)
    ensures Permits(ls, es[i].key, name)
  {
    if Holder(ls, es[i].key).Some? && name != [] {
      NamesOnlyOne(es[i].text, name, Holder(ls, es[i].key).value);
    }
  }

  /* ---------- claiming an entry ---------- */

  datatype Request = Request(name: seq<uint8>, iaid: uint32, now: nat, secs: uint32)

  datatype Alloc = Alloc(entries: seq<Entry>, db: Db, granted: Option<Key>)

  /** Allocate entry i to the client and record the lease; when the table is full
      the entry is put back as available. */
  function Claim(es: seq<Entry>, db: Db, i: nat, r: Request): (a: Alloc)
    requires i < |es|
    ensures SameKeys(es, a.entries)
  {
    match Add(db, es[i].key, r.name, r.iaid, r.now, r.secs)
    case None => Alloc(es[i := es[i].(state := Available, text := "")], db, None)
    case Some(d) =>
      Alloc(es[i := es[i].(state := Allocated, text := Clip(Hex(r.name)))], d, Some(es[i].key))
  }

  /** The key granted, if one is, ends up in the client's name. */
  predicate NamesClient(a: Alloc, db: Db, name: seq<uint8>)
  {
    a.granted.Some? ==> NameAfter(db.leases, a.granted.value, name) == name
  }

  /** What every allocation step keeps, and what it may grant. */
  ghost predicate Safe(strict: bool, hosts: seq<Host>, es: seq<Entry>, db: Db, name: seq<uint8>, a: Alloc)
  {
    && SameKeys(es, a.entries)
    && Owned(strict, hosts, a.entries, a.db.leases)
    && HoldersFollow(db.leases, a.db.leases, a.granted, name)
    && (a.granted.Some? ==> FindEntry(es, a.granted.value).Some?)
    && (a.granted.Some? && !IsStatic(hosts, a.granted.value) && NamesClient(a, db, name) ==>
        Permits(db.leases, a.granted.value, name))
    && (forall k :: Holder(a.db.leases, k) != Holder(db.leases, k) ==> FindEntry(es, k).Some?)
    && (OneEach(hosts, es) ==> OneEach(hosts, a.entries))
  }

  lemma {:induction false} ClaimHolders(es: seq<Entry>, db: Db, i: nat, r: Request, k: Key)
    requires i < |es| && Claim(es, db, i, r).granted.Some?
    ensures Holder(Claim(es, db, i, r).db.leases, k) ==
      if k == es[i].key then Some(NameAfter(db.leases, k, r.name)) else Holder(db.leases, k)
  {
    AddHolder(db, es[i].key, r.name, r.iaid, r.now, r.secs, k);
  }

  /** After a claim the pool still shows every holding. */
  lemma {:induction false} ClaimKeepsOwned(strict: bool, hosts: seq<Host>, es: seq<Entry>, db: Db, i: nat, r: Request)
    requires Distinct(es) && Owned(strict, hosts, es, db.leases) && i < |es|
    requires strict ==> NamesClient(Claim(es, db, i, r), db, r.name)
    requires IsStatic(hosts, es[i].key) || es[i].state == Available
    ensures Owned(strict, hosts, Claim(es, db, i, r).entries, Claim(es, db, i, r).db.leases)
  {
    var a := Claim(es, db, i, r);
    forall j | 0 <= j < |es| && !IsStatic(hosts, es[j].key)
      ensures OwnedAt(strict, a.entries[j], Holder(a.db.leases, es[j].key))
    {
      assert OwnedAt(strict, es[j], Holder(db.leases, es[j].key));
      if a.granted.Some? { ClaimHolders(es, db, i, r, es[j].key); }
    }
  }

  lemma {:induction false} ClaimIsSafe(strict: bool, hosts: seq<Host>, es: seq<Entry>, db: Db, i: nat, r: Request)
    requires Distinct(es) && Owned(strict, hosts, es, db.leases) && i < |es|
    requires strict ==> NamesClient(Claim(es, db, i, r), db, r.name)
    requires IsStatic(hosts, es[i].key)
          || (es[i].state == Available && (r.name == [] || FindOwned(es, Hex(r.name)).None?))
    ensures Safe(strict, hosts, es, db, r.name, Claim(es, db, i, r))
  {
    var a, key := Claim(es, db, i, r), es[i].key;
    ClaimKeepsOwned(strict, hosts, es, db, i, r);
    forall k
      ensures a.granted.Some? ==>
        Holder(a.db.leases, k) == if k == key then Some(NameAfter(db.leases, k, r.name)) else Holder(db.leases, k)
    {
      if a.granted.Some? { ClaimHolders(es, db, i, r, k); }
    }
    if !IsStatic(hosts, key) { GrantPermitted(strict, hosts, es, db.leases, i, r.name); }
    ClaimKeepsOneEach(hosts, es, i, a.entries[i], Hex(r.name));
  }

  /** A client that had no entry may be given one, and so may one without a name. */
  lemma {:induction false} ClaimKeepsOneEach(hosts: seq<Host>, es: seq<Entry>, i: nat, e: Entry, text: string)
    requires i < |es| && e.key == es[i].key && (e.state == Allocated ==> e.text == Clip(text))
    requires IsStatic(hosts, es[i].key) || text == "" || FindOwned(es, text).None?
    ensures OneEach(hosts, es) ==> OneEach(hosts, es[i := e])
  {
    if OneEach(hosts, es) {
      forall j | 0 <= j < |es| && j != i && Dynamic(hosts, es[j]) && Dynamic(hosts, e)
        ensures es[j].text != e.text
      {
      }
    }
  }
}
