/** Building a DHCPv6 reply: the append functions of protocol_v6.c, which write into a
    fixed buffer at a running offset, and the part of process_packet (server.c) that
    calls them. The reply is proved to read back, through the parser, as exactly what
    was put into it. */
module Reply6 {
  import opened Bytes
  import opened Address6
  import opened Leases6
  import opened Pools6
  import opened AddressPool
  import opened Server6
  import opened Wire6

  const BUF_SIZE := 4096
  const STATUS_SUCCESS: uint16 := 0
  const STATUS_NOADDRSAVAIL: uint16 := 2

  /** The server's DUID, fourteen bytes of which the last four are zero. */
  const SERVER_DUID: seq<uint8> := [0, 1, 0, 1, 0xAA, 0xBB, 0xCC, 0xDD, 0xEE, 0xFF, 0, 0, 0, 0]

  /** The text "Error". */
  const ERROR_TEXT: seq<uint8> := [69, 114, 114, 111, 114]

  /* ---------- identity associations ---------- */

  /** The times and the outcome an identity association is answered with. */
  datatype Terms = Terms(t1: uint32, t2: uint32, preferred: uint32, valid: uint32, status: uint16)

  function IaHead(iaid: uint32, t: Terms): (r: seq<uint8>)
    ensures |r| == 12 && U32(r, 0) == iaid
  {
    Be32(iaid) + Be32(t.t1) + Be32(t.t2)
  }

  function StatusOpt(status: uint16): (o: Opt)
    ensures |o.value| == 7
  {
    Opt(OPT_STATUS_CODE, Be16(status) + ERROR_TEXT)
  }

  function AddressOpt(ip: Address, t: Terms): (o: Opt)
    ensures |o.value| == 24 && o.value[..16] == ip
  {
    Opt(OPT_IAADDR, ip + Be32(t.preferred) + Be32(t.valid))
  }

  function PrefixOpt(prefix: Address, plen: uint8, t: Terms): (o: Opt)
    ensures |o.value| == 25 && o.value[9..25] == prefix && o.value[8] == plen
  {
    Opt(OPT_IAPREFIX, Be32(t.preferred) + Be32(t.valid) + [plen] + prefix)
  }

  function NaSub(ip: Address, t: Terms): (o: Opt)
    ensures |o.value| <= 24
  {
    if t.status == STATUS_SUCCESS then AddressOpt(ip, t) else StatusOpt(t.status)
  }

  function PdSub(prefix: Address, plen: uint8, t: Terms): (o: Opt)
    ensures |o.value| <= 25
  {
    if t.status == STATUS_SUCCESS then PrefixOpt(prefix, plen, t) else StatusOpt(t.status)
  }

  /** An identity association with one suboption. */
  function IaOpt(code: uint16, iaid: uint32, t: Terms, sub: Opt): (o: Opt)
    requires |sub.value| <= 25
    ensures |o.value| == 16 + |sub.value|
  {
    Opt(code, IaHead(iaid, t) + OptBytes(sub))
  }

  function NaOpt(iaid: uint32, ip: Address, t: Terms): Opt
  {
    IaOpt(OPT_IA_NA, iaid, t, NaSub(ip, t))
  }

  function PdOpt(iaid: uint32, prefix: Address, plen: uint8, t: Terms): Opt
  {
    IaOpt(OPT_IA_PD, iaid, t, PdSub(prefix, plen, t))
  }

  /** Such an association reads back as its IAID and its one suboption. */
  lemma {:induction false} IaReads(code: uint16, iaid: uint32, t: Terms, sub: Opt)
    requires |sub.value| <= 25
    ensures var v := IaOpt(code, iaid, t, sub).value; |v| >= 12 && U32(v, 0) == iaid && Options(v, 12) == [sub]
  {
    var head := IaHead(iaid, t);
    assert OptionsEnd(head, 12) == |head|;
    AppendOneOption(head, 12, sub);
    var v := head + OptBytes(sub);
    assert v[0] == head[0] && v[1] == head[1] && v[2] == head[2] && v[3] == head[3];
  }

  lemma {:induction false} NaAbsorbed(m: Meta, iaid: uint32, ip: Address, t: Terms)
    ensures Absorb(m, NaOpt(iaid, ip, t)) ==
      m.(iaNa := Some(iaid), ip := if t.status == STATUS_SUCCESS then Some(ip) else m.ip)
  {
    var sub := NaSub(ip, t);
    IaReads(OPT_IA_NA, iaid, t, sub);
    assert [sub][1..] == [];
    assert IpAmong(m.ip, [sub]) == IpFrom(m.ip, sub);
  }

  lemma {:induction false} PdAbsorbed(m: Meta, iaid: uint32, prefix: Address, plen: uint8, t: Terms)
    ensures Absorb(m, PdOpt(iaid, prefix, plen, t)) ==
      m.(iaPd := Some(iaid), prefix := if t.status == STATUS_SUCCESS then Some((prefix, plen)) else m.prefix)
  {
    var sub := PdSub(prefix, plen, t);
    IaReads(OPT_IA_PD, iaid, t, sub);
    assert [sub][1..] == [];
    assert PrefixAmong(m.prefix, [sub]) == PrefixFrom(m.prefix, sub);
  }

  /* ---------- DNS servers ---------- */

  function Joined(servers: seq<Address>): (r: seq<uint8>)
    ensures |r| == 16 * |servers|
  {
    if servers == [] then [] else Joined(servers[..|servers| - 1]) + servers[|servers| - 1]
  }

  lemma {:induction false} JoinedAt(servers: seq<Address>, i: nat)
    requires i < |servers|
    ensures Joined(servers)[16 * i..16 * i + 16] == servers[i]
  {
    var n := |servers| - 1;
    if i < n {
      JoinedAt(servers[..n], i);
    }
  }

  lemma {:induction false} JoinedReads(servers: seq<Address>, n: nat)
    requires n <= |servers|
    ensures AddressesIn(Joined(servers), n) == servers[..n]
  {
    if n > 0 {
      JoinedReads(servers, n - 1);
      JoinedAt(servers, n - 1);
    }
  }

  /** How many servers there is room for. */
  function DnsUse(count: nat, room: nat): (r: nat)
    requires room >= 20
    ensures r <= count && 4 + 16 * r <= room
    ensures 4 + 16 * count <= room ==> r == count
  {
    Least(count, (room - 4) / 16)
  }

  /** How many of those the option's 16-bit length lets through: all of them, if they
      are fewer than 4096. */
  function DnsTold(use: nat): (r: nat)
    ensures r <= use && 16 * r == 16 * use % 65536
    ensures use < 4096 ==> r == use
  {
    use % 4096
  }

  /** The option for as many servers as there is room for; None for none. */
  function DnsOpt(servers: seq<Address>, room: nat): (r: Option<Opt>)
    ensures r.Some? ==> Fits16(r.value)
  {
    if servers == [] || room < 20 then None
    else Some(Opt(OPT_DNS_SERVERS, Joined(servers[..DnsTold(DnsUse(|servers|, room))])))
  }

  lemma {:induction false} JoinedPrefix(servers: seq<Address>, n: nat)
    requires n <= |servers|
    ensures Joined(servers)[..16 * n] == Joined(servers[..n])
  {
    var k := |servers| - 1;
    if n <= k {
      JoinedPrefix(servers[..k], n);
      assert servers[..k][..n] == servers[..n];
    } else {
      assert servers[..n] == servers;
    }
  }

  lemma {:induction false} DnsAbsorbed(m: Meta, servers: seq<Address>)
    requires servers != []
    ensures Absorb(m, Opt(OPT_DNS_SERVERS, Joined(servers))) == m.(dns := servers[..Least(|servers|, MAX_SERVERS)])
  {
    var n := Least(|servers|, MAX_SERVERS);
    DivModUnique(|servers|, 0, 16);
    assert ServerCount(16 * |servers|) == n;
    JoinedReads(servers, n);
  }

  /* ---------- a packet in the making ---------- */

  /** A packet whose options use it up. */
  ghost predicate Tiled(b: seq<uint8>)
  {
    |b| >= 4 && OptionsEnd(b, 4) == |b|
  }

  lemma {:induction false} AbsorbLast(m: Meta, os: seq<Opt>, o: Opt)
    ensures AbsorbAll(m, os + [o]) == Absorb(AbsorbAll(m, os), o)
    decreases |os|
  {
    if os == [] {
      assert [o][1..] == [] && [] + [o] == [o];
    } else {
      assert (os + [o])[0] == os[0] && (os + [o])[1..] == os[1..] + [o];
      AbsorbLast(Absorb(m, os[0]), os[1..], o);
    }
  }

  /** One more option is one more thing read. */
  lemma {:induction false} ParsedGrows(b: seq<uint8>, o: Opt)
    requires Tiled(b) && Fits16(o)
    ensures Tiled(b + OptBytes(o)) && Parsed(b + OptBytes(o)) == Some(Absorb(Parsed(b).value, o))
  {
    AppendOneOption(b, 4, o);
    AbsorbLast(Blank(b[0], Xid(b)), Options(b, 4), o);
  }

  /** What an append leaves behind: the option, if the buffer has room for it. */
  function Appended(b: seq<uint8>, o: Opt): seq<uint8>
    requires Fits16(o)
  {
    if |b| + 4 + |o.value| <= BUF_SIZE then b + OptBytes(o) else b
  }

  /* ---------- the reply ---------- */

  datatype NaAnswer = NaAnswer(iaid: uint32, ip: Address, terms: Terms)

  datatype PdAnswer = PdAnswer(iaid: uint32, prefix: Address, plen: uint8, terms: Terms)

  /** What process_packet puts into a reply; an empty client is left out. */
  datatype Reply = Reply(
    kind: uint8, xid: uint32, client: seq<uint8>, dns: seq<Address>, na: Option<NaAnswer>, pd: Option<PdAnswer>)

  /** dhcpv6_set_xid, with the message type before it. */
  function Header(kind: uint8, xid: uint32): (r: seq<uint8>)
    ensures |r| == 4 && r[0] == kind && Xid(r) == xid % 0x100_0000
  {
    var low := xid % 0x100_0000;
    [kind, low / 256 / 256, low / 256 % 256, low % 256]
  }

  function WithIds(r: Reply): seq<uint8>
    requires |r.client| < 65536
  {
    var b := Appended(Header(r.kind, r.xid), Opt(OPT_SERVERID, SERVER_DUID));
    if r.client == [] then b else Appended(b, Opt(OPT_CLIENTID, r.client))
  }

  function WithDns(b: seq<uint8>, dns: seq<Address>): seq<uint8>
    requires |b| <= BUF_SIZE
  {
    var o := DnsOpt(dns, BUF_SIZE - |b|);
    if o.None? then b else b + OptBytes(o.value)
  }

  function WithNa(b: seq<uint8>, na: Option<NaAnswer>): seq<uint8>
  {
    if na.None? then b else Appended(b, NaOpt(na.value.iaid, na.value.ip, na.value.terms))
  }

  function WithPd(b: seq<uint8>, pd: Option<PdAnswer>): seq<uint8>
  {
    if pd.None? then b else Appended(b, PdOpt(pd.value.iaid, pd.value.prefix, pd.value.plen, pd.value.terms))
  }

  /** The datagram: each part goes in if the buffer still has room for it. */
  function ReplyBytes(r: Reply): seq<uint8>
    requires |r.client| < 65536
  {
    WithPd(WithNa(WithDns(WithIds(r), r.dns), r.na), r.pd)
  }

  lemma {:induction false} HeaderReads(kind: uint8, xid: uint32)
    ensures Tiled(Header(kind, xid)) && Parsed(Header(kind, xid)) == Some(Blank(kind, xid % 0x100_0000))
  {
  }

  lemma {:induction false} IdsRead(r: Reply)
    requires |r.client| < 65536 && 26 + |r.client| <= BUF_SIZE
    ensures |WithIds(r)| == 22 + (if r.client == [] then 0 else 4 + |r.client|) && Tiled(WithIds(r))
    ensures Parsed(WithIds(r)) ==
      Some(Blank(r.kind, r.xid % 0x100_0000).(server := Some(SERVER_DUID),
        client := if r.client == [] then None else Some(r.client)))
  {
    HeaderReads(r.kind, r.xid);
    ParsedGrows(Header(r.kind, r.xid), Opt(OPT_SERVERID, SERVER_DUID));
    if r.client != [] {
      ParsedGrows(Appended(Header(r.kind, r.xid), Opt(OPT_SERVERID, SERVER_DUID)), Opt(OPT_CLIENTID, r.client));
    }
  }

  function DnsSize(dns: seq<Address>): nat
  {
    if dns == [] then 0 else 4 + 16 * |dns|
  }

  lemma {:induction false} DnsReads(b: seq<uint8>, dns: seq<Address>)
    requires Tiled(b) && |b| + DnsSize(dns) <= BUF_SIZE && Parsed(b).value.dns == []
    ensures |WithDns(b, dns)| == |b| + DnsSize(dns) && Tiled(WithDns(b, dns))
    ensures Parsed(WithDns(b, dns)) == Some(Parsed(b).value.(dns := dns[..Least(|dns|, MAX_SERVERS)]))
  {
    if dns != [] {
      var room := BUF_SIZE - |b|;
      assert DnsUse(|dns|, room) == |dns| && dns[..|dns|] == dns;
      var o := Opt(OPT_DNS_SERVERS, Joined(dns));
      assert DnsOpt(dns, room) == Some(o);
      ParsedGrows(b, o);
      DnsAbsorbed(Parsed(b).value, dns);
    }
  }

  function NaSize(na: Option<NaAnswer>): nat
  {
    if na.None? then 0 else if na.value.terms.status == STATUS_SUCCESS then 44 else 27
  }

  lemma {:induction false} NaReads(b: seq<uint8>, na: Option<NaAnswer>)
    requires Tiled(b) && |b| + NaSize(na) <= BUF_SIZE
    ensures |WithNa(b, na)| == |b| + NaSize(na) && Tiled(WithNa(b, na))
    ensures Parsed(WithNa(b, na)) == Some(
      if na.None? then Parsed(b).value
      else if na.value.terms.status == STATUS_SUCCESS
      then Parsed(b).value.(iaNa := Some(na.value.iaid), ip := Some(na.value.ip))
      else Parsed(b).value.(iaNa := Some(na.value.iaid)))
  {
    if na.Some? {
      ParsedGrows(b, NaOpt(na.value.iaid, na.value.ip, na.value.terms));
      NaAbsorbed(Parsed(b).value, na.value.iaid, na.value.ip, na.value.terms);
    }
  }

  function PdSize(pd: Option<PdAnswer>): nat
  {
    if pd.None? then 0 else if pd.value.terms.status == STATUS_SUCCESS then 45 else 27
  }

  lemma {:induction false} PdReads(b: seq<uint8>, pd: Option<PdAnswer>)
    requires Tiled(b) && |b| + PdSize(pd) <= BUF_SIZE
    ensures |WithPd(b, pd)| == |b| + PdSize(pd) && Tiled(WithPd(b, pd))
    ensures Parsed(WithPd(b, pd)) == Some(
      if pd.None? then Parsed(b).value
      else if pd.value.terms.status == STATUS_SUCCESS
      then Parsed(b).value.(iaPd := Some(pd.value.iaid), prefix := Some((pd.value.prefix, pd.value.plen)))
      else Parsed(b).value.(iaPd := Some(pd.value.iaid)))
  {
    if pd.Some? {
      ParsedGrows(b, PdOpt(pd.value.iaid, pd.value.prefix, pd.value.plen, pd.value.terms));
      PdAbsorbed(Parsed(b).value, pd.value.iaid, pd.value.prefix, pd.value.plen, pd.value.terms);
    }
  }

  function ReplySize(r: Reply): nat
  {
    22 + (if r.client == [] then 0 else 4 + |r.client|) + DnsSize(r.dns) + NaSize(r.na) + PdSize(r.pd)
  }

  /** What a receiver should learn from the reply. */
  function Told(r: Reply): Meta
  {
    Meta(r.kind, r.xid % 0x100_0000,
         if r.client == [] then None else Some(r.client), Some(SERVER_DUID),
         if r.na.Some? then Some(r.na.value.iaid) else None,
         if r.na.Some? && r.na.value.terms.status == STATUS_SUCCESS then Some(r.na.value.ip) else None,
         if r.pd.Some? then Some(r.pd.value.iaid) else None,
         if r.pd.Some? && r.pd.value.terms.status == STATUS_SUCCESS then Some((r.pd.value.prefix, r.pd.value.plen))
         else None,
         r.dns[..Least(|r.dns|, MAX_SERVERS)], [], None, None)
  }

  /** Whenever a reply fits the buffer, parsing it gives back everything that was put
      in: type, transaction id, both identifiers, both associations with their
      address and prefix, and the first four DNS servers. */
  lemma {:induction false} ReplyReadsBack(r: Reply)
    requires |r.client| < 65536 && ReplySize(r) <= BUF_SIZE
    ensures |ReplyBytes(r)| == ReplySize(r) && Parsed(ReplyBytes(r)) == Some(Told(r))
  {
    IdsRead(r);
    var b := WithIds(r);
    DnsReads(b, r.dns);
    var c := WithDns(b, r.dns);
    NaReads(c, r.na);
    PdReads(WithNa(c, r.na), r.pd);
  }

  lemma {:induction false} AppendedTiles(b: seq<uint8>, o: Opt)
    requires Tiled(b) && |b| <= BUF_SIZE && Fits16(o)
    ensures Tiled(Appended(b, o)) && |b| <= |Appended(b, o)| <= BUF_SIZE
    ensures Options(Appended(b, o), 4) == Options(b, 4) + if |b| + 4 + |o.value| <= BUF_SIZE then [o] else []
  {
    AppendOneOption(b, 4, o);
  }

  lemma {:induction false} IdsTile(r: Reply)
    requires |r.client| < 65536
    ensures Tiled(WithIds(r)) && |WithIds(r)| <= BUF_SIZE
  {
    HeaderReads(r.kind, r.xid);
    AppendedTiles(Header(r.kind, r.xid), Opt(OPT_SERVERID, SERVER_DUID));
    AppendedTiles(Appended(Header(r.kind, r.xid), Opt(OPT_SERVERID, SERVER_DUID)), Opt(OPT_CLIENTID, r.client));
  }

  lemma {:induction false} DnsTiles(b: seq<uint8>, dns: seq<Address>)
    requires Tiled(b) && |b| <= BUF_SIZE
    ensures Tiled(WithDns(b, dns)) && |WithDns(b, dns)| <= BUF_SIZE
  {
    var o := DnsOpt(dns, BUF_SIZE - |b|);
    if o.Some? {
      AppendOneOption(b, 4, o.value);
    }
  }

  lemma {:induction false} IasTile(b: seq<uint8>, na: Option<NaAnswer>, pd: Option<PdAnswer>)
    requires Tiled(b) && |b| <= BUF_SIZE
    ensures Tiled(WithPd(WithNa(b, na), pd)) && |WithPd(WithNa(b, na), pd)| <= BUF_SIZE
  {
    if na.Some? {
      AppendedTiles(b, NaOpt(na.value.iaid, na.value.ip, na.value.terms));
    }
    if pd.Some? {
      AppendedTiles(WithNa(b, na), PdOpt(pd.value.iaid, pd.value.prefix, pd.value.plen, pd.value.terms));
    }
  }

  /** Even when it does not fit, the reply is a whole number of options within the
      buffer, so an append that fails leaves nothing behind that is read. */
  lemma {:induction false} ReplyIsTiled(r: Reply)
    requires |r.client| < 65536
    ensures Tiled(ReplyBytes(r)) && |ReplyBytes(r)| <= BUF_SIZE
  {
    IdsTile(r);
    DnsTiles(WithIds(r), r.dns);
    IasTile(WithDns(WithIds(r), r.dns), r.na, r.pd);
  }

  /* ---------- the times a reply carries ---------- */

  /** An IA_NA with those two times and, in its one suboption, the address with those
      lifetimes, or with the status. */
  ghost predicate NaCarries(v: seq<uint8>, iaid: uint32, ip: Address, t: Terms)
  {
    && |v| >= 16 && U32(v, 0) == iaid && U32(v, 4) == t.t1 && U32(v, 8) == t.t2 && |Options(v, 12)| == 1
    && var sub := Options(v, 12)[0];
    if t.status == 0 then
      && sub.code == 5 && |sub.value| == 24 && sub.value[..16] == ip
      && U32(sub.value, 16) == t.preferred && U32(sub.value, 20) == t.valid
    else sub.code == 13 && |sub.value| >= 2 && U16(sub.value, 0) == t.status
  }

  /** The same for an IA_PD, whose suboption has the lifetimes first. */
  ghost predicate PdCarries(v: seq<uint8>, iaid: uint32, prefix: Address, plen: uint8, t: Terms)
  {
    && |v| >= 16 && U32(v, 0) == iaid && U32(v, 4) == t.t1 && U32(v, 8) == t.t2 && |Options(v, 12)| == 1
    && var sub := Options(v, 12)[0];
    if t.status == 0 then
      && sub.code == 26 && |sub.value| == 25 && sub.value[8] == plen && sub.value[9..25] == prefix
      && U32(sub.value, 0) == t.preferred && U32(sub.value, 4) == t.valid
    else sub.code == 13 && |sub.value| >= 2 && U16(sub.value, 0) == t.status
  }

  /** A number written somewhere reads as itself there. */
  lemma {:induction false} Be32Reads(b: seq<uint8>, at: nat, x: uint32)
    requires at + 4 <= |b| && b[at..at + 4] == Be32(x)
    ensures U32(b, at) == x
  {
    var four := b[at..at + 4];
    assert four[0] == b[at] && four[1] == b[at + 1] && four[2] == b[at + 2] && four[3] == b[at + 3];
    assert U32(Be32(x), 0) == x;
  }

  lemma {:induction false} Be16Reads(b: seq<uint8>, x: uint16)
    requires 2 <= |b| && b[..2] == Be16(x)
    ensures U16(b, 0) == x
  {
    assert b[0] == b[..2][0] && b[1] == b[..2][1];
  }

  lemma {:induction false} HeadTimes(iaid: uint32, t: Terms, rest: seq<uint8>)
    ensures var v := IaHead(iaid, t) + rest; U32(v, 4) == t.t1 && U32(v, 8) == t.t2
  {
    var v := IaHead(iaid, t) + rest;
    assert v[4..8] == Be32(t.t1) && v[8..12] == Be32(t.t2);
    Be32Reads(v, 4, t.t1);
    Be32Reads(v, 8, t.t2);
  }

  lemma {:induction false} AddressTimes(ip: Address, t: Terms)
    ensures var v := AddressOpt(ip, t).value; U32(v, 16) == t.preferred && U32(v, 20) == t.valid
  {
    var v := AddressOpt(ip, t).value;
    assert v[16..20] == Be32(t.preferred) && v[20..24] == Be32(t.valid);
    Be32Reads(v, 16, t.preferred);
    Be32Reads(v, 20, t.valid);
  }

  lemma {:induction false} PrefixTimes(prefix: Address, plen: uint8, t: Terms)
    ensures var v := PrefixOpt(prefix, plen, t).value; U32(v, 0) == t.preferred && U32(v, 4) == t.valid
  {
    var v := PrefixOpt(prefix, plen, t).value;
    assert v[0..4] == Be32(t.preferred) && v[4..8] == Be32(t.valid);
    Be32Reads(v, 0, t.preferred);
    Be32Reads(v, 4, t.valid);
  }

  lemma {:induction false} StatusReads(status: uint16)
    ensures U16(StatusOpt(status).value, 0) == status
  {
    assert StatusOpt(status).value[..2] == Be16(status);
    Be16Reads(StatusOpt(status).value, status);
  }

  lemma {:induction false} NaOptCarries(iaid: uint32, ip: Address, t: Terms)
    ensures NaCarries(NaOpt(iaid, ip, t).value, iaid, ip, t)
  {
    IaReads(OPT_IA_NA, iaid, t, NaSub(ip, t));
    HeadTimes(iaid, t, OptBytes(NaSub(ip, t)));
    AddressTimes(ip, t);
    StatusReads(t.status);
  }

  lemma {:induction false} PdOptCarries(iaid: uint32, prefix: Address, plen: uint8, t: Terms)
    ensures PdCarries(PdOpt(iaid, prefix, plen, t).value, iaid, prefix, plen, t)
  {
    IaReads(OPT_IA_PD, iaid, t, PdSub(prefix, plen, t));
    HeadTimes(iaid, t, OptBytes(PdSub(prefix, plen, t)));
    PrefixTimes(prefix, plen, t);
    StatusReads(t.status);
  }

  ghost predicate NoIas(os: seq<Opt>)
  {
    forall o :: o in os ==> o.code != 3 && o.code != 25
  }

  lemma {:induction false} FrontHasNoIas(r: Reply)
    requires |r.client| < 65536
    ensures NoIas(Options(WithDns(WithIds(r), r.dns), 4))
  {
    HeaderReads(r.kind, r.xid);
    assert Options(Header(r.kind, r.xid), 4) == [];
    AppendedTiles(Header(r.kind, r.xid), Opt(OPT_SERVERID, SERVER_DUID));
    AppendedTiles(Appended(Header(r.kind, r.xid), Opt(OPT_SERVERID, SERVER_DUID)), Opt(OPT_CLIENTID, r.client));
    assert NoIas(Options(WithIds(r), 4));
    IdsTile(r);
    var o := DnsOpt(r.dns, BUF_SIZE - |WithIds(r)|);
    if o.Some? { AppendOneOption(WithIds(r), 4, o.value); }
  }

  /** The options with those codes are the answers. */
  lemma {:induction false} IasAreTheAnswers(r: Reply, o: Opt)
    requires |r.client| < 65536 && o in Options(ReplyBytes(r), 4)
    ensures o.code == 3 ==> r.na.Some? && o == NaOpt(r.na.value.iaid, r.na.value.ip, r.na.value.terms)
    ensures o.code == 25 ==>
      r.pd.Some? && o == PdOpt(r.pd.value.iaid, r.pd.value.prefix, r.pd.value.plen, r.pd.value.terms)
  {
    FrontHasNoIas(r);
    IdsTile(r);
    var c := WithDns(WithIds(r), r.dns);
    DnsTiles(WithIds(r), r.dns);
    var d := WithNa(c, r.na);
    if r.na.Some? { AppendedTiles(c, NaOpt(r.na.value.iaid, r.na.value.ip, r.na.value.terms)); }
    if r.pd.Some? {
      AppendedTiles(d, PdOpt(r.pd.value.iaid, r.pd.value.prefix, r.pd.value.plen, r.pd.value.terms));
    }
  }

  /** In a reply the option with code 3 carries the address answer with all its times,
      the one with code 25 the prefix answer, and there are no others. */
  lemma {:induction false} ReplyCarriesTimes(r: Reply, o: Opt)
    requires |r.client| < 65536 && o in Options(ReplyBytes(r), 4)
    ensures o.code == 3 ==> r.na.Some? && NaCarries(o.value, r.na.value.iaid, r.na.value.ip, r.na.value.terms)
    ensures o.code == 25 ==>
      r.pd.Some? && PdCarries(o.value, r.pd.value.iaid, r.pd.value.prefix, r.pd.value.plen, r.pd.value.terms)
  {
    IasAreTheAnswers(r, o);
    if r.na.Some? { NaOptCarries(r.na.value.iaid, r.na.value.ip, r.na.value.terms); }
    if r.pd.Some? { PdOptCarries(r.pd.value.iaid, r.pd.value.prefix, r.pd.value.plen, r.pd.value.terms); }
  }
}
