/** The DHCPv6 message format, DHCP_Server/DHCPv6/sources/protocol_v6.c: a four-byte
    header and a list of options, each a two-byte code, a two-byte length and a value
    (sections 8 and 21.1 of RFC 8415). */
module Wire6 {
  import opened Bytes
  import opened Address6

  const OPT_CLIENTID: uint16 := 1
  const OPT_SERVERID: uint16 := 2
  const OPT_IA_NA: uint16 := 3
  const OPT_IAADDR: uint16 := 5
  const OPT_STATUS_CODE: uint16 := 13
  const OPT_DNS_SERVERS: uint16 := 23
  const OPT_DNS_SEARCH_LIST: uint16 := 24
  const OPT_IA_PD: uint16 := 25
  const OPT_IAPREFIX: uint16 := 26
  const OPT_SNTP_SERVERS: uint16 := 31
  const OPT_INFO_REFRESH_TIME: uint16 := 32

  /* ---------- numbers in network order ---------- */

  function U16(b: seq<uint8>, i: nat): uint16
    requires i + 2 <= |b|
  {
    b[i] as int * 256 + b[i + 1]
  }

  function U32(b: seq<uint8>, i: nat): uint32
    requires i + 4 <= |b|
  {
    U16(b, i) as int * 65536 + U16(b, i + 2)
  }

  function Be16(x: uint16): (r: seq<uint8>)
    ensures |r| == 2 && U16(r, 0) == x
  {
    [x / 256, x % 256]
  }

  function Be32(x: uint32): (r: seq<uint8>)
    ensures |r| == 4 && U32(r, 0) == x
  {
    Be16(x / 65536) + Be16(x % 65536)
  }

  /* ---------- the option list of a packet ---------- */

  datatype Opt = Opt(code: uint16, value: seq<uint8>)

  /** The bytes from at on start with a whole option. */
  predicate HasOption(b: seq<uint8>, at: nat)
  {
    at + 4 <= |b| && at + 4 + U16(b, at + 2) <= |b|
  }

  function OptionAt(b: seq<uint8>, at: nat): Opt
    requires HasOption(b, at)
  {
    Opt(U16(b, at), b[at + 4..at + 4 + U16(b, at + 2)])
  }

  function NextAt(b: seq<uint8>, at: nat): nat
    requires HasOption(b, at)
  {
    at + 4 + U16(b, at + 2)
  }

  /** The options in b from at on, up to the first one cut short. */
  function Options(b: seq<uint8>, at: nat): seq<Opt>
    decreases |b| - at
  {
    if !HasOption(b, at) then [] else [OptionAt(b, at)] + Options(b, NextAt(b, at))
  }

  /** Where reading them stops. */
  function OptionsEnd(b: seq<uint8>, at: nat): nat
    decreases |b| - at
  {
    if !HasOption(b, at) then at else OptionsEnd(b, NextAt(b, at))
  }

  predicate Fits16(o: Opt)
  {
    |o.value| < 65536
  }

  function OptBytes(o: Opt): (r: seq<uint8>)
    requires Fits16(o)
    ensures |r| == 4 + |o.value|
  {
    Be16(o.code) + Be16(|o.value|) + o.value
  }

  lemma {:induction false} OptBytesRead(b: seq<uint8>, at: nat, o: Opt)
    requires Fits16(o) && at + 4 + |o.value| <= |b| && b[at..at + 4 + |o.value|] == OptBytes(o)
    ensures HasOption(b, at) && OptionAt(b, at) == o && NextAt(b, at) == at + 4 + |o.value|
  {
    var bs := OptBytes(o);
    assert forall i :: 0 <= i < 4 ==> b[at + i] == bs[i];
    assert bs[0] == Be16(o.code)[0] && bs[1] == Be16(o.code)[1];
    assert bs[2] == Be16(|o.value|)[0] && bs[3] == Be16(|o.value|)[1];
    assert b[at + 4..at + 4 + |o.value|] == bs[4..];
  }

  /** An option stays the same whatever follows it. */
  lemma {:induction false} OptionStays(b: seq<uint8>, at: nat, more: seq<uint8>)
    requires HasOption(b, at)
    ensures HasOption(b + more, at) && OptionAt(b + more, at) == OptionAt(b, at)
      && NextAt(b + more, at) == NextAt(b, at)
  {
    var c := b + more;
    assert c[at] == b[at] && c[at + 1] == b[at + 1] && c[at + 2] == b[at + 2] && c[at + 3] == b[at + 3];
    assert c[at + 4..NextAt(b, at)] == b[at + 4..NextAt(b, at)];
  }

  /** Appending an option to a packet whose options use it up adds exactly that
      option to what is read. */
  lemma {:induction false} AppendOneOption(b: seq<uint8>, at: nat, o: Opt)
    requires Fits16(o) && at <= |b| && OptionsEnd(b, at) == |b|
    ensures Options(b + OptBytes(o), at) == Options(b, at) + [o]
    ensures OptionsEnd(b + OptBytes(o), at) == |b + OptBytes(o)|
    decreases |b| - at
  {
    var c := b + OptBytes(o);
    if HasOption(b, at) {
      OptionStays(b, at, OptBytes(o));
      AppendOneOption(b, NextAt(b, at), o);
    } else {
      assert c[at..at + 4 + |o.value|] == OptBytes(o);
      OptBytesRead(c, at, o);
    }
  }

  /** dhcpv6_next_option; positions stand for its pointers. */
  function NextOption(b: seq<uint8>, last: Option<nat>): (r: Option<nat>)
    requires last.Some? ==> last.value + 4 <= |b|
    ensures r.Some? ==> HasOption(b, r.value) && (last.Some? ==> last.value < r.value)
  {
    if |b| < 4 then None
    else if last.None? then (if 4 + U16(b, 2) > |b| then None else Some(0))
    else
      var next := last.value + 4 + U16(b, last.value + 2);
      if next + 4 > |b| then None
      else if next + 4 + U16(b, next + 2) > |b| then None
      else Some(next)
  }

  lemma {:induction false} NextOptionIsNext(b: seq<uint8>, last: Option<nat>)
    requires last.Some? ==> HasOption(b, last.value)
    ensures var at := if last.Some? then NextAt(b, last.value) else 0;
      NextOption(b, last) == if HasOption(b, at) then Some(at) else None
  {
  }

  /** What a caller sees who walks the options with dhcpv6_next_option. */
  function Walk(b: seq<uint8>, last: Option<nat>): seq<Opt>
    requires last.Some? ==> last.value + 4 <= |b|
    decreases if last.Some? then |b| - last.value else |b| + 1
  {
    var next := NextOption(b, last);
    if next.None? then [] else [OptionAt(b, next.value)] + Walk(b, next)
  }

  lemma {:induction false} WalkFollows(b: seq<uint8>, last: Option<nat>)
    requires last.Some? ==> HasOption(b, last.value)
    ensures Walk(b, last) == Options(b, if last.Some? then NextAt(b, last.value) else 0)
    decreases if last.Some? then |b| - last.value else |b| + 1
  {
    NextOptionIsNext(b, last);
    var next := NextOption(b, last);
    if next.Some? {
      WalkFollows(b, next);
    }
  }

  /** An option is the same whatever stands in front of it. */
  lemma {:induction false} OptionShifts(b: seq<uint8>, from: nat, at: nat)
    requires from <= |b|
    ensures HasOption(b[from..], at) <==> HasOption(b, from + at)
    ensures HasOption(b, from + at) ==>
      OptionAt(b[from..], at) == OptionAt(b, from + at) && from + NextAt(b[from..], at) == NextAt(b, from + at)
  {
    var c := b[from..];
    if at + 4 <= |c| {
      assert c[at] == b[from + at] && c[at + 1] == b[from + at + 1];
      assert c[at + 2] == b[from + at + 2] && c[at + 3] == b[from + at + 3];
      if HasOption(c, at) {
        SliceOfSlice(b, from, |b|, at + 4, NextAt(c, at));
        assert b[from..|b|] == c;
      }
    }
  }

  lemma {:induction false} OptionsShift(b: seq<uint8>, from: nat, at: nat)
    requires from <= |b|
    ensures Options(b[from..], at) == Options(b, from + at)
    decreases |b| - at
  {
    OptionShifts(b, from, at);
    if HasOption(b, from + at) {
      OptionsShift(b, from, NextAt(b[from..], at));
    }
  }

  /** Walking the bytes behind a header of any size visits exactly the options the
      parser reads from there: behind the 4 bytes of a message, or the 12 of an IA. */
  lemma {:induction false} WalkIsOptions(b: seq<uint8>, header: nat)
    requires header <= |b|
    ensures Walk(b[header..], None) == Options(b, header)
  {
    WalkFollows(b[header..], None);
    OptionsShift(b, header, 0);
  }

  /* ---------- reading a packet ---------- */

  /** dhcpv6_packet_meta_t. */
  datatype Meta = Meta(
    msg: uint8, xid: uint32,
    client: Option<seq<uint8>>, server: Option<seq<uint8>>,
    iaNa: Option<uint32>, ip: Option<Address>,
    iaPd: Option<uint32>, prefix: Option<(Address, uint8)>,
    dns: seq<Address>, sntp: seq<Address>,
    search: Option<seq<uint8>>, refresh: Option<uint32>)

  const MAX_SERVERS := 4

  /** The first n addresses in a value. */
  function AddressesIn(val: seq<uint8>, n: nat): (r: seq<Address>)
    requires 16 * n <= |val|
    ensures |r| == n
  {
    if n == 0 then [] else AddressesIn(val, n - 1) + [val[16 * n - 16..16 * n]]
  }

  function ServerCount(n: nat): (r: nat)
    ensures 16 * r <= n
  {
    if n / 16 > MAX_SERVERS then MAX_SERVERS else n / 16
  }

  function ServersIn(val: seq<uint8>): seq<Address>
  {
    AddressesIn(val, ServerCount(|val|))
  }

  function IpFrom(ip: Option<Address>, o: Opt): Option<Address>
  {
    if o.code == OPT_IAADDR && |o.value| >= 16 then Some(o.value[..16]) else ip
  }

  /** The last address among an IA_NA's suboptions, or ip if it has none. */
  function IpAmong(ip: Option<Address>, os: seq<Opt>): Option<Address>
    decreases |os|
  {
    if os == [] then ip else IpAmong(IpFrom(ip, os[0]), os[1..])
  }

  function PrefixFrom(p: Option<(Address, uint8)>, o: Opt): Option<(Address, uint8)>
  {
    if o.code == OPT_IAPREFIX && |o.value| >= 25 then Some((o.value[9..25], o.value[8])) else p
  }

  function PrefixAmong(p: Option<(Address, uint8)>, os: seq<Opt>): Option<(Address, uint8)>
    decreases |os|
  {
    if os == [] then p else PrefixAmong(PrefixFrom(p, os[0]), os[1..])
  }

  /** What one option adds to the meta data. */
  function Absorb(m: Meta, o: Opt): Meta
  {
    var v := o.value;
    if o.code == OPT_CLIENTID then m.(client := Some(v))
    else if o.code == OPT_SERVERID then m.(server := Some(v))
    else if o.code == OPT_IA_NA && |v| >= 12 then m.(iaNa := Some(U32(v, 0)), ip := IpAmong(m.ip, Options(v, 12)))
    else if o.code == OPT_IA_PD && |v| >= 12 then
      m.(iaPd := Some(U32(v, 0)), prefix := PrefixAmong(m.prefix, Options(v, 12)))
    else if o.code == OPT_DNS_SERVERS && |v| > 0 && |v| % 16 == 0 then m.(dns := ServersIn(v))
    else if o.code == OPT_DNS_SEARCH_LIST && |v| > 0 then m.(search := Some(v))
    else if o.code == OPT_SNTP_SERVERS && |v| > 0 && |v| % 16 == 0 then m.(sntp := ServersIn(v))
    else if o.code == OPT_INFO_REFRESH_TIME && |v| >= 4 then m.(refresh := Some(U32(v, 0)))
    else m
  }

  function AbsorbAll(m: Meta, os: seq<Opt>): Meta
    decreases |os|
  {
    if os == [] then m else AbsorbAll(Absorb(m, os[0]), os[1..])
  }

  function Blank(msg: uint8, xid: uint32): Meta
  {
    Meta(msg, xid, None, None, None, None, None, None, [], [], None, None)
  }

  /** dhcpv6_get_xid. */
  function Xid(b: seq<uint8>): uint32
    requires |b| >= 4
  {
    (b[1] as int * 256 + b[2]) * 256 + b[3]
  }

  /** The meaning of a packet: its option list, read from left to right. */
  function Parsed(b: seq<uint8>): Option<Meta>
  {
    if |b| < 4 then None else Some(AbsorbAll(Blank(b[0], Xid(b)), Options(b, 4)))
  }

  /* ---------- which option a field comes from ---------- */

  /** Options with other codes leave a field alone. */
  lemma {:induction false} FieldStays(m: Meta, os: seq<Opt>, code: uint16)
    requires forall i :: 0 <= i < |os| ==> os[i].code != code
    ensures var n := AbsorbAll(m, os);
      && (code == 1 ==> n.client == m.client) && (code == 2 ==> n.server == m.server)
      && (code == 3 ==> n.iaNa == m.iaNa && n.ip == m.ip) && (code == 25 ==> n.iaPd == m.iaPd && n.prefix == m.prefix)
      && (code == 23 ==> n.dns == m.dns) && (code == 24 ==> n.search == m.search)
      && (code == 31 ==> n.sntp == m.sntp) && (code == 32 ==> n.refresh == m.refresh)
    decreases |os|
  {
    if os != [] {
      FieldStays(Absorb(m, os[0]), os[1..], code);
    }
  }

  /** The first addresses of a value, at most four, sixteen bytes each. */
  ghost predicate ServersOf(v: seq<uint8>, servers: seq<Address>)
  {
    && |servers| == (if |v| / 16 > 4 then 4 else |v| / 16)
    && forall k :: 0 <= k < |servers| ==> 16 * k + 16 <= |v| && servers[k] == v[16 * k..16 * k + 16]
  }

  lemma {:induction false} ServersInMeans(v: seq<uint8>, n: nat)
    requires 16 * n <= |v|
    ensures forall k :: 0 <= k < n ==> AddressesIn(v, n)[k] == v[16 * k..16 * k + 16]
  {
    if n > 0 {
      ServersInMeans(v, n - 1);
    }
  }

  /** The last address, and the last prefix, among suboptions decides. */
  lemma {:induction false} LastAddressDecides(ip: Option<Address>, os: seq<Opt>, i: nat)
    requires i < |os| && os[i].code == 5 && |os[i].value| >= 16
    requires forall j :: i < j < |os| ==> !(os[j].code == 5 && |os[j].value| >= 16)
    ensures IpAmong(ip, os) == Some(os[i].value[..16])
    decreases |os|
  {
    if i > 0 {
      LastAddressDecides(IpFrom(ip, os[0]), os[1..], i - 1);
    } else {
      forall j | 0 <= j < |os[1..]| ensures os[1..][j] == os[j + 1] {}
      NoAddressLeaves(IpFrom(ip, os[0]), os[1..]);
    }
  }

  lemma {:induction false} NoAddressLeaves(ip: Option<Address>, os: seq<Opt>)
    requires forall j :: 0 <= j < |os| ==> !(os[j].code == 5 && |os[j].value| >= 16)
    ensures IpAmong(ip, os) == ip
    decreases |os|
  {
    if os != [] {
      NoAddressLeaves(IpFrom(ip, os[0]), os[1..]);
    }
  }

  lemma {:induction false} LastPrefixDecides(p: Option<(Address, uint8)>, os: seq<Opt>, i: nat)
    requires i < |os| && os[i].code == 26 && |os[i].value| >= 25
    requires forall j :: i < j < |os| ==> !(os[j].code == 26 && |os[j].value| >= 25)
    ensures PrefixAmong(p, os) == Some((os[i].value[9..25], os[i].value[8]))
    decreases |os|
  {
    if i > 0 {
      LastPrefixDecides(PrefixFrom(p, os[0]), os[1..], i - 1);
    } else {
      forall j | 0 <= j < |os[1..]| ensures os[1..][j] == os[j + 1] {}
      NoPrefixLeaves(PrefixFrom(p, os[0]), os[1..]);
    }
  }

  lemma {:induction false} NoPrefixLeaves(p: Option<(Address, uint8)>, os: seq<Opt>)
    requires forall j :: 0 <= j < |os| ==> !(os[j].code == 26 && |os[j].value| >= 25)
    ensures PrefixAmong(p, os) == p
    decreases |os|
  {
    if os != [] {
      NoPrefixLeaves(PrefixFrom(p, os[0]), os[1..]);
    }
  }

  /** What the last option with its code leaves in the meta data; one that is too short
      or of the wrong length leaves what there was. */
  ghost predicate Leaves(o: Opt, n: Meta)
  {
    && (o.code == 1 ==> n.client == Some(o.value)) && (o.code == 2 ==> n.server == Some(o.value))
    && (o.code == 3 && |o.value| >= 12 ==>
        n.iaNa == Some(U32(o.value, 0)) && exists was :: n.ip == IpAmong(was, Options(o.value, 12)))
    && (o.code == 25 && |o.value| >= 12 ==>
        n.iaPd == Some(U32(o.value, 0)) && exists was :: n.prefix == PrefixAmong(was, Options(o.value, 12)))
    && (o.code == 23 && |o.value| > 0 && |o.value| % 16 == 0 ==> ServersOf(o.value, n.dns))
    && (o.code == 24 && |o.value| > 0 ==> n.search == Some(o.value))
    && (o.code == 31 && |o.value| > 0 && |o.value| % 16 == 0 ==> ServersOf(o.value, n.sntp))
    && (o.code == 32 && |o.value| >= 4 ==> n.refresh == Some(U32(o.value, 0)))
  }

  lemma {:induction false} AbsorbLeaves(m: Meta, o: Opt)
    ensures Leaves(o, Absorb(m, o))
  {
    ServersInMeans(o.value, ServerCount(|o.value|));
  }

  lemma {:induction false} LastDecides(m: Meta, os: seq<Opt>, i: nat)
    requires i < |os| && forall j :: i < j < |os| ==> os[j].code != os[i].code
    ensures Leaves(os[i], AbsorbAll(m, os))
    decreases |os|
  {
    if i == 0 {
      AbsorbLeaves(m, os[0]);
      forall j | 0 <= j < |os[1..]| ensures os[1..][j].code != os[0].code { assert os[1..][j] == os[j + 1]; }
      FieldStays(Absorb(m, os[0]), os[1..], os[0].code);
    } else {
      LastDecides(Absorb(m, os[0]), os[1..], i - 1);
    }
  }

  /** Each field of a packet's meta data comes from the last option with its code, and is
      empty without one. */
  lemma {:induction false} FieldsComeFromTheirOptions(b: seq<uint8>, i: nat, code: uint16)
    requires |b| >= 4
    ensures var os, m := Options(b, 4), Parsed(b).value;
      && (i < |os| && (forall j :: i < j < |os| ==> os[j].code != os[i].code) ==> Leaves(os[i], m))
      && ((forall j :: 0 <= j < |os| ==> os[j].code != code) ==>
          && (code == 1 ==> m.client == None) && (code == 2 ==> m.server == None)
          && (code == 3 ==> m.iaNa == None && m.ip == None) && (code == 25 ==> m.iaPd == None && m.prefix == None)
          && (code == 23 ==> m.dns == []) && (code == 24 ==> m.search == None)
          && (code == 31 ==> m.sntp == []) && (code == 32 ==> m.refresh == None))
  {
    var os, m := Options(b, 4), Blank(b[0], Xid(b));
    if i < |os| && forall j :: i < j < |os| ==> os[j].code != os[i].code { LastDecides(m, os, i); }
    if forall j :: 0 <= j < |os| ==> os[j].code != code { FieldStays(m, os, code); }
  }

  /* ---------- the parser's loops ---------- */

  method ReadServers(val: seq<uint8>) returns (r: seq<Address>)
    ensures r == ServersIn(val)
  {
    var count := |val| / 16;
    if count > MAX_SERVERS {
      count := MAX_SERVERS;
    }
    assert count == ServerCount(|val|);
    r := [];
    for i := 0 to count
      invariant r == AddressesIn(val, i)
    {
      var next: Address := val[16 * i..16 * i + 16];
      r := r + [next];
      assert r == AddressesIn(val, i + 1);
    }
  }

  lemma {:induction false} OptionsStep(b: seq<uint8>, at: nat)
    requires HasOption(b, at)
    ensures Options(b, at) != [] && Options(b, at)[0] == OptionAt(b, at)
      && Options(b, at)[1..] == Options(b, NextAt(b, at))
  {
  }

  method ReadPrefix(val: seq<uint8>, off: nat, known: Option<(Address, uint8)>) returns (r: Option<(Address, uint8)>)
    requires HasOption(val, off)
    ensures r == PrefixFrom(known, OptionAt(val, off))
  {
    r := known;
    if U16(val, off) == OPT_IAPREFIX && U16(val, off + 2) >= 25 {
      r := Some((val[off + 13..off + 29], val[off + 12]));
      SliceOfSlice(val, off + 4, NextAt(val, off), 9, 25);
    }
  }

  method ReadAddress(val: seq<uint8>, off: nat, known: Option<Address>) returns (r: Option<Address>)
    requires HasOption(val, off)
    ensures r == IpFrom(known, OptionAt(val, off))
  {
    r := known;
    if U16(val, off) == OPT_IAADDR && U16(val, off + 2) >= 16 {
      r := Some(val[off + 4..off + 20]);
      SliceOfSlice(val, off + 4, NextAt(val, off), 0, 16);
    }
  }

  /** The inner loop of the OPT_IA_NA case. */
  method ReadIaNa(val: seq<uint8>, known: Option<Address>) returns (ip: Option<Address>)
    requires |val| >= 12
    ensures ip == IpAmong(known, Options(val, 12))
  {
    ip := known;
    var off := 12;
    while off + 4 <= |val|
      invariant off <= |val|
      invariant IpAmong(ip, Options(val, off)) == IpAmong(known, Options(val, 12))
      decreases |val| - off
    {
      var slen := U16(val, off + 2);
      if off + 4 + slen > |val| {
        break;
      }
      OptionsStep(val, off);
      ip := ReadAddress(val, off, ip);
      off := off + 4 + slen;
    }
  }

  /** The inner loop of the OPT_IA_PD case. */
  method ReadIaPd(val: seq<uint8>, known: Option<(Address, uint8)>) returns (prefix: Option<(Address, uint8)>)
    requires |val| >= 12
    ensures prefix == PrefixAmong(known, Options(val, 12))
  {
    prefix := known;
    var left := |val| - 12;
    while left >= 4
      invariant 0 <= left <= |val| - 12
      invariant PrefixAmong(prefix, Options(val, |val| - left)) == PrefixAmong(known, Options(val, 12))
    {
      var off := |val| - left;
      var slen := U16(val, off + 2);
      if 4 + slen > left {
        break;
      }
      OptionsStep(val, off);
      prefix := ReadPrefix(val, off, prefix);
      left := left - (4 + slen);
    }
  }

  /** The switch of dhcpv6_parse. */
  method ReadOption(m: Meta, code: uint16, val: seq<uint8>) returns (r: Meta)
    ensures r == Absorb(m, Opt(code, val))
  {
    r := m;
    if code == OPT_CLIENTID {
      r := m.(client := Some(val));
    } else if code == OPT_SERVERID {
      r := m.(server := Some(val));
    } else if code == OPT_IA_NA {
      if |val| >= 12 {
        var ip := ReadIaNa(val, m.ip);
        r := m.(iaNa := Some(U32(val, 0)), ip := ip);
      }
    } else if code == OPT_IA_PD {
      if |val| >= 12 {
        var prefix := ReadIaPd(val, m.prefix);
        r := m.(iaPd := Some(U32(val, 0)), prefix := prefix);
      }
    } else if code == OPT_DNS_SERVERS {
      if |val| > 0 && |val| % 16 == 0 {
        var servers := ReadServers(val);
        r := m.(dns := servers);
      }
    } else if code == OPT_DNS_SEARCH_LIST {
      if |val| > 0 {
        r := m.(search := Some(val));
      }
    } else if code == OPT_SNTP_SERVERS {
      if |val| > 0 && |val| % 16 == 0 {
        var servers := ReadServers(val);
        r := m.(sntp := servers);
      }
    } else if code == OPT_INFO_REFRESH_TIME {
      if |val| >= 4 {
        r := m.(refresh := Some(U32(val, 0)));
      }
    }
  }

  /** dhcpv6_parse. */
  method Parse(buf: seq<uint8>) returns (r: Option<Meta>)
    ensures r == Parsed(buf)
  {
    if |buf| < 4 {
      return None;
    }
    var m := Blank(buf[0], Xid(buf));
    var offset := 4;
    while offset + 4 <= |buf|
      invariant offset <= |buf|
      invariant AbsorbAll(m, Options(buf, offset)) == AbsorbAll(Blank(buf[0], Xid(buf)), Options(buf, 4))
      decreases |buf| - offset
    {
      var len := U16(buf, offset + 2);
      if offset + 4 + len > |buf| {
        break;
      }
      OptionsStep(buf, offset);
      m := ReadOption(m, U16(buf, offset), buf[offset + 4..offset + 4 + len]);
      offset := offset + 4 + len;
    }
    return Some(m);
  }
}
