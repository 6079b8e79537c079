/** The DHCPv6 lease table and its file, DHCP_Server/DHCPv6/sources/leases6.c.
    A lease file is a sequence of records: a save rewrites it, an add appends to it,
    and a load replays it with the last record of each key winning. */
module Leases6 {
  import opened Bytes
  import opened Address6
  import opened Identifiers

  const LEASES6_MAX: nat := 4096

  datatype LeaseState = Free | Active | Expired | Released | Abandoned | Reserved | Backup

  /** What a lease is for: IA_NA leases are looked up by address, IA_PD leases by
      prefix and length. */
  datatype Key = Na(ip: Address) | Pd(prefix: Address, plen: uint8)

  datatype Lease = Lease(key: Key, duid: seq<uint8>, iaid: uint32, ends: nat, state: LeaseState)

  /** A block of the file. `timed` says that both its times parse as non-zero. */
  datatype Record = Record(lease: Lease, timed: bool)

  datatype Db = Db(leases: seq<Lease>, file: seq<Record>)

  /** What parse_lease_time_any makes of format_lease_time's output (in universal
      time): the leading weekday digit is taken for an epoch time unless it is
      Sunday's 0, so of a lease's times only "not zero" is preserved. Nothing reads
      back as the zero that makes the loader drop a record: the epoch was no Sunday. */
  function ReadBack(t: nat): (r: nat)
    ensures r != 0
  {
    var weekday := (t / 86400 + 4) % 7;
    if weekday > 0 then weekday else t
  }

  /** The block written for a lease. Its start time, which is not modelled, reads back
      in the same way as its end. */
  function RecordOf(l: Lease): Record
  {
    Record(l.(ends := ReadBack(l.ends)), ReadBack(l.ends) != 0)
  }

  /** The first lease with the key, as every search loop of the file finds it. */
  function FindKey(ls: seq<Lease>, key: Key): (r: Option<nat>)
    ensures r.Some? ==> r.value < |ls| && ls[r.value].key == key
    ensures r.Some? ==> forall i :: 0 <= i < r.value ==> ls[i].key != key
    ensures r.None? ==> forall i :: 0 <= i < |ls| ==> ls[i].key != key
  {
    if ls == [] then None
    else match FindKey(ls[..|ls| - 1], key)
      case Some(i) => Some(i)
      case None => if ls[|ls| - 1].key == key then Some(|ls| - 1) else None
  }

  ghost predicate UniqueKeys(ls: seq<Lease>)
  {
    forall i, j :: 0 <= i < j < |ls| ==> ls[i].key != ls[j].key
  }

  /** One record met by the load loop. */
  function LoadRecord(ls: seq<Lease>, r: Record): seq<Lease>
  {
    if !r.timed then ls
    else match FindKey(ls, r.lease.key)
      case Some(i) => ls[i := r.lease]
      case None => if |ls| < LEASES6_MAX then ls + [r.lease] else ls
  }

  /** lease_v6_db_load. */
  function Replay(file: seq<Record>): seq<Lease>
  {
    if file == [] then [] else LoadRecord(Replay(file[..|file| - 1]), file[|file| - 1])
  }

  function Records(ls: seq<Lease>): (rs: seq<Record>)
    ensures |rs| == |ls|
  {
    seq(|ls|, i requires 0 <= i < |ls| => RecordOf(ls[i]))
  }

  /** lease_v6_db_save. */
  function Save(ls: seq<Lease>): Db
  {
    Db(ls, Records(ls))
  }

  /** The slot as lease_v6_add_ia_na and lease_v6_add_ia_pd leave it. A client
      without usable DUID text, the empty name, keeps the DUID already in the slot. */
  function Grant(l: Lease, name: seq<uint8>, iaid: uint32, ends: nat): Lease
  {
    l.(duid := if name == [] then l.duid else name, iaid := iaid, ends := ends, state := Active)
  }

  /** Adds or overwrites the lease for a key and appends it to the file; fails only
      when the table is full. */
  function Add(db: Db, key: Key, name: seq<uint8>, iaid: uint32, now: nat, secs: nat): Option<Db>
  {
    match FindKey(db.leases, key)
    case Some(i) =>
      var l := Grant(db.leases[i], name, iaid, now + secs);
      Some(Db(db.leases[i := l], db.file + [RecordOf(l)]))
    case None =>
      if |db.leases| >= LEASES6_MAX then None
      else
        var l := Grant(Lease(key, [], 0, 0, Free), name, iaid, now + secs);
        Some(Db(db.leases + [l], db.file + [RecordOf(l)]))
  }

  /** Changes the state of the lease for a key, if there is one, and saves:
      lease_v6_release_ip and _prefix, and lease_v6_mark_conflict. */
  function Retire(db: Db, key: Key, state: LeaseState, now: nat): Db
  {
    match FindKey(db.leases, key)
    case None => db
    case Some(i) => Save(db.leases[i := db.leases[i].(state := state, ends := now)])
  }

  predicate Overdue(l: Lease, now: nat)
  {
    l.state == Active && l.ends < now
  }

  function ExpireOne(l: Lease, now: nat): Lease
  {
    if Overdue(l, now) then l.(state := Expired) else l
  }

  function ExpireAll(ls: seq<Lease>, now: nat): (r: seq<Lease>)
    ensures |r| == |ls|
  {
    seq(|ls|, i requires 0 <= i < |ls| => ExpireOne(ls[i], now))
  }

  /** lease_v6_mark_expired_older. */
  function MarkExpired(db: Db, now: nat): Db
  {
    if exists i :: 0 <= i < |db.leases| && Overdue(db.leases[i], now)
    then Save(ExpireAll(db.leases, now)) else db
  }

  predicate Dead(l: Lease)
  {
    l.state == Expired || l.state == Released
  }

  function Keep(ls: seq<Lease>): (r: seq<Lease>)
    ensures |r| <= |ls|
  {
    if ls == [] then []
    else Keep(ls[..|ls| - 1]) + if Dead(ls[|ls| - 1]) then [] else [ls[|ls| - 1]]
  }

  /** lease_v6_cleanup. */
  function Cleanup(db: Db): Db
  {
    if |Keep(db.leases)| < |db.leases| then Save(Keep(db.leases)) else db
  }

  /* ---------- the table as a map from key to holder ---------- */

  predicate Live(s: LeaseState)
  {
    s == Active || s == Backup
  }

  /** Who holds a key: the DUID of its ACTIVE or BACKUP lease. */
  function Holder(ls: seq<Lease>, key: Key): Option<seq<uint8>>
  {
    match FindKey(ls, key)
    case None => None
    case Some(i) => if Live(ls[i].state) then Some(ls[i].duid) else None
  }

  /** The lease found for a key, if any. */
  function Lookup(ls: seq<Lease>, key: Key): Option<Lease>
  {
    match FindKey(ls, key) case None => None case Some(i) => Some(ls[i])
  }

  lemma {:induction false} FindSame(ls: seq<Lease>, ms: seq<Lease>, key: Key)
    requires |ls| == |ms| && forall i :: 0 <= i < |ls| ==> ls[i].key == ms[i].key
    ensures FindKey(ls, key) == FindKey(ms, key)
  {
    match FindKey(ls, key) {
      case Some(i) => assert ms[i].key == key;
      case None =>
    }
    match FindKey(ms, key) {
      case Some(i) => assert ls[i].key == key;
      case None =>
    }
  }

  /** Overwriting the slot of one key leaves every search as it was. */
  lemma {:induction false} FindAfterUpdate(ls: seq<Lease>, i: nat, l: Lease, key: Key)
    requires i < |ls| && l.key == ls[i].key
    ensures FindKey(ls[i := l], key) == FindKey(ls, key)
  {
    FindSame(ls, ls[i := l], key);
  }

  lemma {:induction false} FindAfterAppend(ls: seq<Lease>, l: Lease, key: Key)
    requires FindKey(ls, l.key).None?
    ensures FindKey(ls + [l], key) == if key == l.key then Some(|ls|) else FindKey(ls, key)
  {
    assert (ls + [l])[..|ls|] == ls;
  }

  /** Whose name an add leaves on the key: a client without a name leaves the one
      that is there, dead or alive. */
  function NameAfter(ls: seq<Lease>, key: Key, name: seq<uint8>): seq<uint8>
  {
    var slot := Lookup(ls, key);
    if name == [] && slot.Some? then slot.value.duid else name
  }

  /** The slot an add starts from. */
  function Slot(ls: seq<Lease>, key: Key): Lease
  {
    var slot := Lookup(ls, key);
    if slot.Some? then slot.value else Lease(key, [], 0, 0, Free)
  }

  /** An add grants its own slot and touches no other. */
  lemma {:induction false} AddLookup(db: Db, key: Key, name: seq<uint8>, iaid: uint32, now: nat, secs: nat, k: Key)
    requires Add(db, key, name, iaid, now, secs).Some?
    ensures Lookup(Add(db, key, name, iaid, now, secs).value.leases, k) ==
      if k == key then Some(Grant(Slot(db.leases, key), name, iaid, now + secs)) else Lookup(db.leases, k)
  {
    var l := Grant(Slot(db.leases, key), name, iaid, now + secs);
    match FindKey(db.leases, key) {
      case Some(i) => FindAfterUpdate(db.leases, i, l, k);
      case None => FindAfterAppend(db.leases, l, k);
    }
  }

  lemma {:induction false} HolderIsLookup(ls: seq<Lease>, k: Key)
    ensures Holder(ls, k) ==
      if Lookup(ls, k).Some? && Live(Lookup(ls, k).value.state) then Some(Lookup(ls, k).value.duid) else None
  {
  }

  /** Whoever the slot then names becomes the holder; nobody else's lease changes. The
      new holder is the requester exactly if it has a name or the slot had none. */
  lemma {:induction false} AddHolder(db: Db, key: Key, name: seq<uint8>, iaid: uint32, now: nat, secs: nat, k: Key)
    ensures var r := Add(db, key, name, iaid, now, secs);
      r.Some? ==>
        && Holder(r.value.leases, k) ==
           (if k == key then Some(NameAfter(db.leases, key, name)) else Holder(db.leases, k))
        && (k != key ==> Lookup(r.value.leases, k) == Lookup(db.leases, k))
    ensures NameAfter(db.leases, key, name) == name <==>
      name != [] || Lookup(db.leases, key).None? || Lookup(db.leases, key).value.duid == []
  {
    var r := Add(db, key, name, iaid, now, secs);
    if r.Some? {
      AddLookup(db, key, name, iaid, now, secs, k);
      HolderIsLookup(r.value.leases, k);
      HolderIsLookup(db.leases, k);
    }
  }

  /** Retiring a key ends its holding and no other. */
  lemma {:induction false} RetireHolder(db: Db, key: Key, state: LeaseState, now: nat, k: Key)
    requires !Live(state)
    ensures Holder(Retire(db, key, state, now).leases, k) == if k == key then None else Holder(db.leases, k)
    ensures k != key ==> Lookup(Retire(db, key, state, now).leases, k) == Lookup(db.leases, k)
  {
    match FindKey(db.leases, key) {
      case Some(i) => FindAfterUpdate(db.leases, i, db.leases[i].(state := state, ends := now), k);
      case None =>
    }
  }

  lemma {:induction false} RetireKeepsName(db: Db, key: Key, state: LeaseState, now: nat, name: seq<uint8>)
    ensures NameAfter(Retire(db, key, state, now).leases, key, name) == NameAfter(db.leases, key, name)
  {
    match FindKey(db.leases, key) {
      case Some(i) => FindAfterUpdate(db.leases, i, db.leases[i].(state := state, ends := now), key);
      case None =>
    }
  }

  /** Expiry ends holdings and starts none. */
  lemma {:induction false} ExpireHolder(db: Db, now: nat, k: Key)
    ensures var h := Holder(MarkExpired(db, now).leases, k); h == None || h == Holder(db.leases, k)
  {
    FindSame(db.leases, ExpireAll(db.leases, now), k);
  }

  lemma {:induction false} KeepMembers(ls: seq<Lease>, l: Lease)
    ensures l in Keep(ls) <==> l in ls && !Dead(l)
  {
    if ls != [] {
      KeepMembers(ls[..|ls| - 1], l);
      assert ls == ls[..|ls| - 1] + [ls[|ls| - 1]];
    }
  }

  lemma {:induction false} KeepAvoids(ls: seq<Lease>, key: Key)
    requires FindKey(ls, key).None?
    ensures FindKey(Keep(ls), key).None?
  {
    match FindKey(Keep(ls), key)
    case Some(i) => KeepMembers(ls, Keep(ls)[i]);
    case None =>
  }

  lemma {:induction false} KeepUnique(ls: seq<Lease>)
    requires UniqueKeys(ls)
    ensures UniqueKeys(Keep(ls))
  {
    if ls != [] {
      KeepUnique(ls[..|ls| - 1]);
      KeepAvoids(ls[..|ls| - 1], ls[|ls| - 1].key);
    }
  }

  /** With one lease a key, looking a key up finds any lease there is for it. */
  lemma {:induction false} LookupFinds(ls: seq<Lease>, l: Lease)
    requires UniqueKeys(ls) && l in ls
    ensures Lookup(ls, l.key) == Some(l)
  {
    var i :| 0 <= i < |ls| && ls[i] == l;
    assert ls[i].key == l.key;
  }

  lemma {:induction false} KeepLookup(ls: seq<Lease>, key: Key)
    requires UniqueKeys(ls)
    ensures Lookup(Keep(ls), key) ==
      if Lookup(ls, key).Some? && !Dead(Lookup(ls, key).value) then Lookup(ls, key) else None
  {
    KeepUnique(ls);
    var was, now := Lookup(ls, key), Lookup(Keep(ls), key);
    if now.Some? {
      KeepMembers(ls, now.value);
      LookupFinds(ls, now.value);
    } else if was.Some? && !Dead(was.value) {
      KeepMembers(ls, was.value);
      LookupFinds(Keep(ls), was.value);
    }
  }

  /** Dropping dead leases changes nobody's holding. */
  lemma {:induction false} CleanupHolder(db: Db, k: Key)
    requires UniqueKeys(db.leases)
    ensures Holder(Cleanup(db).leases, k) == Holder(db.leases, k)
  {
    KeepLookup(db.leases, k);
  }

  /* ---------- the file ---------- */

  /** What the file is trusted to preserve: everything but the times. */
  function Binding(l: Lease): Lease
  {
    l.(ends := 0)
  }

  /** The two tables agree, slot by slot, up to their times. */
  ghost predicate SameBindings(ls: seq<Lease>, ms: seq<Lease>)
  {
    |ls| == |ms| && forall i :: 0 <= i < |ls| ==> Binding(ls[i]) == Binding(ms[i])
  }

  /** The table is well-formed and loading the file would rebuild it. */
  ghost predicate Durable(db: Db)
  {
    && UniqueKeys(db.leases)
    && |db.leases| <= LEASES6_MAX
    && SameBindings(Replay(db.file), db.leases)
  }

  lemma {:induction false} LoadRecordKeepsShape(ls: seq<Lease>, r: Record)
    requires UniqueKeys(ls) && |ls| <= LEASES6_MAX
    ensures UniqueKeys(LoadRecord(ls, r)) && |LoadRecord(ls, r)| <= LEASES6_MAX
  {
  }

  /** Whatever the file holds, loading it gives one lease per key. */
  lemma {:induction false} ReplayShape(file: seq<Record>)
    ensures UniqueKeys(Replay(file)) && |Replay(file)| <= LEASES6_MAX
  {
    if file != [] {
      ReplayShape(file[..|file| - 1]);
      LoadRecordKeepsShape(Replay(file[..|file| - 1]), file[|file| - 1]);
    }
  }

  lemma {:induction false} LoadIsDurable(file: seq<Record>)
    ensures Durable(Db(Replay(file), file))
  {
    ReplayShape(file);
  }

  lemma {:induction false} ReplayAppend(file: seq<Record>, r: Record)
    ensures Replay(file + [r]) == LoadRecord(Replay(file), r)
  {
    assert (file + [r])[..|file|] == file;
  }

  lemma {:induction false} RecordsLast(ls: seq<Lease>)
    requires ls != []
    ensures Records(ls) == Records(ls[..|ls| - 1]) + [RecordOf(ls[|ls| - 1])]
  {
  }

  /** Records of a well-formed table replay to that table. */
  lemma {:induction false} ReplayRecords(ls: seq<Lease>)
    requires UniqueKeys(ls) && |ls| <= LEASES6_MAX
    ensures SameBindings(Replay(Records(ls)), ls)
  {
    if ls != [] {
      var rest, last := ls[..|ls| - 1], ls[|ls| - 1];
      ReplayRecords(rest);
      RecordsLast(ls);
      ReplayAppend(Records(rest), RecordOf(last));
      LoadFollows(Replay(Records(rest)), rest, last);
      assert ls == rest + [last];
    }
  }

  lemma {:induction false} SaveIsDurable(ls: seq<Lease>)
    requires UniqueKeys(ls) && |ls| <= LEASES6_MAX
    ensures Durable(Save(ls))
  {
    ReplayRecords(ls);
  }

  /** Loading an appended record does to the replayed table what the add did to the
      table in memory. */
  lemma {:induction false} LoadFollows(back: seq<Lease>, ls: seq<Lease>, l: Lease)
    requires SameBindings(back, ls) && |ls| <= LEASES6_MAX
    ensures FindKey(ls, l.key).Some? ==>
      SameBindings(LoadRecord(back, RecordOf(l)), ls[FindKey(ls, l.key).value := l])
    ensures FindKey(ls, l.key).None? && |ls| < LEASES6_MAX ==>
      SameBindings(LoadRecord(back, RecordOf(l)), ls + [l])
  {
    assert forall i :: 0 <= i < |ls| ==> Binding(back[i]).key == ls[i].key;
    FindSame(back, ls, l.key);
  }

  lemma {:induction false} AddIsDurable(db: Db, key: Key, name: seq<uint8>, iaid: uint32, now: nat, secs: nat)
    requires Durable(db) && Add(db, key, name, iaid, now, secs).Some?
    ensures Durable(Add(db, key, name, iaid, now, secs).value)
  {
    var l := Grant(if FindKey(db.leases, key).Some? then db.leases[FindKey(db.leases, key).value]
                   else Lease(key, [], 0, 0, Free), name, iaid, now + secs);
    LoadFollows(Replay(db.file), db.leases, l);
    ReplayAppend(db.file, RecordOf(l));
  }

  lemma {:induction false} RetireIsDurable(db: Db, key: Key, state: LeaseState, now: nat)
    requires Durable(db)
    ensures Durable(Retire(db, key, state, now))
  {
    match FindKey(db.leases, key)
    case Some(i) => SaveIsDurable(db.leases[i := db.leases[i].(state := state, ends := now)]);
    case None =>
  }

  lemma {:induction false} MarkExpiredIsDurable(db: Db, now: nat)
    requires Durable(db)
    ensures Durable(MarkExpired(db, now))
  {
    var ls := ExpireAll(db.leases, now);
    assert forall i :: 0 <= i < |ls| ==> ls[i].key == db.leases[i].key;
    SaveIsDurable(ls);
  }

  lemma {:induction false} CleanupIsDurable(db: Db)
    requires Durable(db)
    ensures Durable(Cleanup(db))
  {
    KeepUnique(db.leases);
    SaveIsDurable(Keep(db.leases));
  }

  /* ---------- runs of table operations ---------- */

  datatype Op =
    | OpAdd(key: Key, name: seq<uint8>, iaid: uint32, now: nat, secs: nat)
    | OpRelease(key: Key, now: nat)
    | OpConflict(ip: Address, now: nat)
    | OpExpire(now: nat)
    | OpCleanup
    | OpSave

  function Apply(db: Db, op: Op): Db
  {
    match op
    case OpAdd(key, name, iaid, now, secs) =>
      var r := Add(db, key, name, iaid, now, secs); if r.Some? then r.value else db
    case OpRelease(key, now) => Retire(db, key, Released, now)
    case OpConflict(ip, now) => Retire(db, Na(ip), Abandoned, now)
    case OpExpire(now) => MarkExpired(db, now)
    case OpCleanup => Cleanup(db)
    case OpSave => Save(db.leases)
  }

  function ApplyAll(db: Db, ops: seq<Op>): Db
  {
    if ops == [] then db else Apply(ApplyAll(db, ops[..|ops| - 1]), ops[|ops| - 1])
  }

  lemma {:induction false} ApplyIsDurable(db: Db, op: Op)
    requires Durable(db)
    ensures Durable(Apply(db, op))
  {
    match op
    case OpAdd(key, name, iaid, now, secs) =>
      if Add(db, key, name, iaid, now, secs).Some? { AddIsDurable(db, key, name, iaid, now, secs); }
    case OpRelease(key, now) => RetireIsDurable(db, key, Released, now);
    case OpConflict(ip, now) => RetireIsDurable(db, Na(ip), Abandoned, now);
    case OpExpire(now) => MarkExpiredIsDurable(db, now);
    case OpCleanup => CleanupIsDurable(db);
    case OpSave => SaveIsDurable(db.leases);
  }

  /** After any run of table operations from any loaded file, replaying the file
      rebuilds the table in memory: same order, keys, DUIDs, IAIDs and states. */
  lemma {:induction false} FileRebuildsTable(file: seq<Record>, ops: seq<Op>)
    ensures var db := ApplyAll(Db(Replay(file), file), ops);
      Durable(db) && SameBindings(Replay(db.file), db.leases)
  {
    if ops == [] {
      LoadIsDurable(file);
    } else {
      FileRebuildsTable(file, ops[..|ops| - 1]);
      ApplyIsDurable(ApplyAll(Db(Replay(file), file), ops[..|ops| - 1]), ops[|ops| - 1]);
    }
  }

  /* ---------- the table as the server mutates it ---------- */

  class LeaseTable {
    var leases: seq<Lease>
    var file: seq<Record>

    function View(): Db
      reads this
    {
      Db(leases, file)
    }

    /** lease_v6_db_init and lease_v6_db_load. */
    constructor (file: seq<Record>)
      ensures View() == Db(Replay(file), file)
    {
      this.file := file;
      this.leases := [];
      new;
      for i := 0 to |file|
        invariant leases == Replay(file[..i]) && this.file == file
      {
        assert file[..i + 1] == file[..i] + [file[i]];
        ReplayAppend(file[..i], file[i]);
        var r := file[i];
        if r.timed {
          var found := Find(r.lease.key);
          if found.Some? {
            leases := leases[found.value := r.lease];
          } else if |leases| < LEASES6_MAX {
            leases := leases + [r.lease];
          }
        }
      }
      assert file[..|file|] == file;
    }

    /** The search loop shared by load, add, release and conflict. */
    method Find(key: Key) returns (r: Option<nat>)
      ensures r == FindKey(leases, key)
    {
      for i := 0 to |leases|
        invariant forall j :: 0 <= j < i ==> leases[j].key != key
      {
        if leases[i].key == key { return Some(i); }
      }
      return None;
    }

    /** lease_v6_db_save. */
    method SaveAll()
      modifies this
      ensures View() == Save(old(leases))
    {
      var out: seq<Record> := [];
      for i := 0 to |leases|
        invariant leases == old(leases)
        invariant |out| == i && forall j :: 0 <= j < i ==> out[j] == RecordOf(leases[j])
      {
        out := out + [RecordOf(leases[i])];
      }
      file := out;
    }

    /** lease_v6_add_ia_na and lease_v6_add_ia_pd: the key says which. The text reads
        as the client's name, as the text duid_bin_to_hex makes always does. */
    method AddLease(key: Key, text: string, iaid: uint32, now: nat, secs: nat, ghost name: seq<uint8>)
      returns (ok: bool)
      requires ReadsAs(text, name)
      modifies this
      ensures ok <==> Add(old(View()), key, name, iaid, now, secs).Some?
      ensures View() == if ok then Add(old(View()), key, name, iaid, now, secs).value else old(View())
    {
      var slot := Find(key);
      if slot.None? && |leases| >= LEASES6_MAX { return false; }
      var l := if slot.Some? then leases[slot.value] else Lease(key, [], 0, 0, Free);
      if text != "" {
        var duid := DuidHexToBin(text);
        l := l.(duid := duid.value);
      }
      l := l.(iaid := iaid, ends := now + secs, state := Active);
      if slot.Some? {
        leases := leases[slot.value := l];
      } else {
        leases := leases + [l];
      }
      file := file + [RecordOf(l)];
      return true;
    }

    /** lease_v6_release_ip, lease_v6_release_prefix and lease_v6_mark_conflict. */
    method RetireLease(key: Key, state: LeaseState, now: nat)
      modifies this
      ensures View() == Retire(old(View()), key, state, now)
    {
      var slot := Find(key);
      if slot.Some? {
        leases := leases[slot.value := leases[slot.value].(state := state, ends := now)];
        SaveAll();
      }
    }

    /** lease_v6_mark_expired_older. */
    method MarkExpiredOlder(now: nat) returns (n: nat)
      modifies this
      ensures View() == MarkExpired(old(View()), now) && |leases| == |old(leases)|
      ensures forall i :: 0 <= i < |leases| ==>
        var l := old(leases)[i];
        leases[i] == if l.state == Active && l.ends < now then l.(state := Expired) else l
      ensures n > 0 <==> exists i :: 0 <= i < |old(leases)| && Overdue(old(leases)[i], now)
    {
      n := 0;
      ghost var was := leases;
      for i := 0 to |leases|
        invariant |leases| == |was| && file == old(file)
        invariant forall j :: 0 <= j < |was| ==> leases[j] == if j < i then ExpireOne(was[j], now) else was[j]
        invariant n > 0 <==> exists j :: 0 <= j < i && Overdue(was[j], now)
      {
        if leases[i].state == Active && leases[i].ends < now {
          assert Overdue(was[i], now);
          leases := leases[i := leases[i].(state := Expired)];
          n := n + 1;
        }
      }
      if n > 0 {
        assert leases == ExpireAll(was, now);
        SaveAll();
      } else {
        assert leases == was;
      }
    }

    /** lease_v6_cleanup: the table is replaced by one without its dead leases. */
    method CleanupDead() returns (removed: nat)
      modifies this
      ensures View() == Cleanup(old(View()))
      ensures removed == |old(leases)| - |Keep(old(leases))|
    {
      removed := 0;
      var i := 0;
      ghost var was := leases;
      while i < |leases|
        invariant Squeezed(was, leases, i, removed) && file == old(file)
        decreases |leases| - i
      {
        SqueezeStep(was, leases, i, removed);
        if leases[i].state == Expired || leases[i].state == Released {
          leases := leases[..i] + leases[i + 1..];
          removed := removed + 1;
        } else {
          i := i + 1;
        }
      }
      assert was[..i + removed] == was;
      if removed > 0 { SaveAll(); }
    }
  }

  /** The compaction loop's state: the first i slots are what is kept of the slots
      seen so far, the others have moved down by the number removed. */
  ghost predicate Squeezed(was: seq<Lease>, now: seq<Lease>, i: nat, removed: nat)
  {
    && |was| == |now| + removed && i <= |now|
    && now[..i] == Keep(was[..i + removed])
    && now[i..] == was[i + removed..]
    && (removed == 0 ==> now == was)
  }

  lemma {:induction false} SqueezeStep(was: seq<Lease>, now: seq<Lease>, i: nat, removed: nat)
    requires Squeezed(was, now, i, removed) && i < |now|
    ensures if Dead(now[i]) then Squeezed(was, now[..i] + now[i + 1..], i, removed + 1)
            else Squeezed(was, now, i + 1, removed)
  {
    var n := i + removed;
    assert was[..n + 1][..n] == was[..n];
    assert now[i] == now[i..][0] == was[n];
    assert now[i + 1..] == now[i..][1..] == was[n..][1..] == was[n + 1..];
    if Dead(now[i]) {
      var next := now[..i] + now[i + 1..];
      assert next[..i] == now[..i] && next[i..] == now[i + 1..];
    } else {
      assert now[..i + 1] == now[..i] + [now[i]];
    }
  }
}
