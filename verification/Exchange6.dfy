/** One whole exchange of the DHCPv6 server, from the bytes of a request to the bytes
    of its reply: parse, process, answer. */
module Exchange6 {
  import opened Bytes
  import opened Address6
  import opened Leases6
  import opened Pools6
  import opened AddressPool
  import opened Server6
  import opened Wire6
  import opened Reply6

  /** What the server goes by in a parsed packet; an address or prefix that was not
      asked for is all zero. */
  function PacketOf(m: Meta, src: Address): Packet
  {
    Packet(
      m.msg, src, if m.client.Some? then m.client.value else [],
      if m.iaNa.None? then None else Some(NaRequest(m.iaNa.value, if m.ip.Some? then m.ip.value else UNSPECIFIED)),
      if m.iaPd.None? then None
      else Some(PdRequest(m.iaPd.value, if m.prefix.Some? then m.prefix.value.0 else UNSPECIFIED,
                          if m.prefix.Some? then m.prefix.value.1 else 0)))
  }

  const NO_TERMS := Terms(0, 0, 0, 0, STATUS_SUCCESS)
  const REFUSED := Terms(0, 0, 0, 0, STATUS_NOADDRSAVAIL)

  function Granted(lease: uint32, most: uint32): Terms
  {
    Terms(lease, most, lease, most, STATUS_SUCCESS)
  }

  /** The IA_NA part of the reply. */
  function AnswerNa(p: Packet, grant: Option<Key>, lease: uint32, most: uint32): NaAnswer
    requires p.na.Some?
  {
    if IsGiveBack(p.msg) then NaAnswer(p.na.value.iaid, p.na.value.ip, NO_TERMS)
    else if grant.Some? then NaAnswer(p.na.value.iaid, IpField(grant.value), Granted(lease, most))
    else NaAnswer(p.na.value.iaid, UNSPECIFIED, REFUSED)
  }

  /** The IA_PD part of the reply. */
  function AnswerPd(p: Packet, grant: Option<Key>, lease: uint32, most: uint32): PdAnswer
    requires p.pd.Some?
  {
    if IsGiveBack(p.msg) then PdAnswer(p.pd.value.iaid, p.pd.value.prefix, p.pd.value.plen, NO_TERMS)
    else if grant.Some? && grant.value.Pd? then
      PdAnswer(p.pd.value.iaid, grant.value.prefix, grant.value.plen, Granted(lease, most))
    else PdAnswer(p.pd.value.iaid, UNSPECIFIED, 0, REFUSED)
  }

  /** The settings of a subnet that show only in replies. */
  datatype Extras = Extras(dns: seq<Address>, lease: uint32, most: uint32)

  function ReplyTo(cfg: seq<Subnet>, x: Extras, m: Meta, src: Address, na: Option<Key>, pd: Option<Key>): Reply
  {
    var p := PacketOf(m, src);
    var served := FindSubnet(cfg, src, 0) < |cfg|;
    Reply(ReplyType(m.msg), m.xid, p.duid, x.dns,
          if p.na.Some? && served then Some(AnswerNa(p, na, x.lease, x.most)) else None,
          if p.pd.Some? && served then Some(AnswerPd(p, pd, x.lease, x.most)) else None)
  }

  /** The end of an exchange: the new state, and the datagram if there is one. */
  datatype Exchange = Exchange(outcome: Outcome, datagram: Option<seq<uint8>>)

  /** process_packet, bytes to bytes. */
  function Serve(
    cfg: seq<Subnet>, x: Extras, s: State, b: seq<uint8>, src: Address, now: nat, probe: Address -> bool): Exchange
    requires |s.pools| == |s.pds| == |cfg| && |b| < 65536
  {
    var m := Parsed(b);
    if m.None? then Exchange(Outcome(s, None, None), None)
    else
      var o := Process(cfg, s, PacketOf(m.value, src), now, probe);
      ClientFits(b);
      if ReplyType(m.value.msg) == 0 then Exchange(o, None)
      else Exchange(o, Some(ReplyBytes(ReplyTo(cfg, x, m.value, src, o.na, o.pd))))
  }

  ghost predicate ShortClient(m: Meta, n: nat)
  {
    m.client.Some? ==> |m.client.value| <= n
  }

  lemma {:induction false} ClientStaysShort(m: Meta, b: seq<uint8>, at: nat)
    requires ShortClient(m, |b|)
    ensures ShortClient(AbsorbAll(m, Options(b, at)), |b|)
    decreases |b| - at
  {
    if HasOption(b, at) {
      OptionsStep(b, at);
      ClientStaysShort(Absorb(m, OptionAt(b, at)), b, NextAt(b, at));
    }
  }

  /** A client identifier is no longer than the packet it came in. */
  lemma {:induction false} ClientFits(b: seq<uint8>)
    ensures Parsed(b).Some? ==> ShortClient(Parsed(b).value, |b|)
  {
    if |b| >= 4 {
      ClientStaysShort(Blank(b[0], Xid(b)), b, 4);
    }
  }

  lemma {:induction false} XidFits(m: Meta, os: seq<Opt>)
    ensures AbsorbAll(m, os).xid == m.xid && AbsorbAll(m, os).msg == m.msg
    decreases |os|
  {
    if os != [] {
      XidFits(Absorb(m, os[0]), os[1..]);
    }
  }

  /** The address an IA_NA of the reply carries: the one given back or declined, or the
      one granted; none when nothing was. */
  function ToldIp(m: Meta, o: Outcome): Option<Address>
  {
    if IsGiveBack(m.msg) then Some(if m.ip.Some? then m.ip.value else UNSPECIFIED)
    else if o.na.Some? then Some(IpField(o.na.value))
    else None
  }

  function ToldPrefix(m: Meta, o: Outcome): Option<(Address, uint8)>
  {
    if IsGiveBack(m.msg) then Some(if m.prefix.Some? then m.prefix.value else (UNSPECIFIED, 0))
    else if o.pd.Some? && o.pd.value.Pd? then Some((o.pd.value.prefix, o.pd.value.plen))
    else None
  }

  /** What a reply t has to tell the sender of m: that it is an ADVERTISE, to a SOLICIT,
      or else a REPLY; its own transaction id and identifier; and, if there is a subnet
      for it, under its own IAIDs exactly the address and the prefix that were granted,
      released or declined. */
  ghost predicate Tells(t: Meta, m: Meta, x: Extras, o: Outcome, served: bool)
  {
    && t.msg == (if m.msg == 1 then 2 else 7) && t.xid == m.xid && t.server == Some(SERVER_DUID)
    && t.client == (if m.client == Some([]) then None else m.client)
    && t.iaNa == (if served then m.iaNa else None) && t.iaPd == (if served then m.iaPd else None)
    && t.dns == x.dns[..Least(|x.dns|, MAX_SERVERS)]
    && t.ip == (if t.iaNa.Some? then ToldIp(m, o) else None)
    && t.prefix == (if t.iaPd.Some? then ToldPrefix(m, o) else None)
  }

  lemma {:induction false} ToldIsTheGrant(cfg: seq<Subnet>, x: Extras, m: Meta, src: Address, o: Outcome)
    requires m.xid < 0x100_0000 && m.msg in {1, 3, 5, 6, 8, 9}
    ensures Tells(Told(ReplyTo(cfg, x, m, src, o.na, o.pd)), m, x, o, FindSubnet(cfg, src, 0) < |cfg|)
  {
  }

  /** A grant comes out of the pool for its kind. */
  lemma {:induction false} GrantsAreOfTheirKind(cfg: seq<Subnet>, file: seq<Record>, s: State, e: Event)
    requires Reachable(cfg, file, s) && |s.pools| == |s.pds| == |cfg|
    ensures var o := Step(cfg, s, e); (o.na.Some? ==> o.na.value.Na?) && (o.pd.Some? ==> o.pd.value.Pd?)
  {
    var o := Step(cfg, s, e);
    if e.Receive? && (o.na.Some? || o.pd.Some?) {
      var p, i := e.packet, FindSubnet(cfg, e.packet.src, 0);
      ReachableIsStepped(cfg, file, s, i);
      if o.na.Some? { AddressUntouched(cfg, s, p, i, e.now, e.probe, o.na.value); }
      if o.pd.Some? { PrefixUntouched(cfg, s, p, i, e.now, e.probe, o.pd.value); }
    }
  }

  /** In every reachable state, the reply to a message that fits the buffer parses to
      exactly what was granted, released or declined. */
  lemma {:induction false} ReplyTellsTheGrant(
    cfg: seq<Subnet>, file: seq<Record>, x: Extras, s: State, b: seq<uint8>,
    src: Address, now: nat, probe: Address -> bool, m: Meta)
    requires Reachable(cfg, file, s) && |s.pools| == |s.pds| == |cfg| && |b| < 65536
    requires Parsed(b) == Some(m) && m.msg in {1, 3, 5, 6, 8, 9}
    requires var o := Process(cfg, s, PacketOf(m, src), now, probe);
      ReplySize(ReplyTo(cfg, x, m, src, o.na, o.pd)) <= BUF_SIZE
    ensures var e := Serve(cfg, x, s, b, src, now, probe);
      && e.datagram.Some? && Parsed(e.datagram.value).Some?
      && Tells(Parsed(e.datagram.value).value, m, x, e.outcome, FindSubnet(cfg, src, 0) < |cfg|)
      && (e.outcome.na.Some? ==> e.outcome.na.value.Na?) && (e.outcome.pd.Some? ==> e.outcome.pd.value.Pd?)
  {
    var e := Serve(cfg, x, s, b, src, now, probe);
    ClientFits(b);
    XidFits(Blank(b[0], Xid(b)), Options(b, 4));
    GrantsAreOfTheirKind(cfg, file, s, Receive(PacketOf(m, src), now, probe));
    ReplyReadsBack(ReplyTo(cfg, x, m, src, e.outcome.na, e.outcome.pd));
    ToldIsTheGrant(cfg, x, m, src, e.outcome);
  }

  /** The times an answer comes with: the subnet's for a grant, none otherwise. */
  function TimesFor(m: Meta, x: Extras, granted: bool): Terms
  {
    if IsGiveBack(m.msg) then Terms(0, 0, 0, 0, 0)
    else if granted then Terms(x.lease, x.most, x.lease, x.most, 0)
    else Terms(0, 0, 0, 0, 2)
  }

  /** The parts of the reply, as answers to the message. */
  lemma {:induction false} AnswersTo(cfg: seq<Subnet>, x: Extras, m: Meta, src: Address, o: Outcome)
    requires o.pd.Some? ==> o.pd.value.Pd?
    ensures var r, ip := ReplyTo(cfg, x, m, src, o.na, o.pd), AnsweredIp(m, o);
      r.na.Some? ==> m.iaNa.Some? && r.na.value == NaAnswer(m.iaNa.value, ip, TimesFor(m, x, o.na.Some?))
    ensures var r, q := ReplyTo(cfg, x, m, src, o.na, o.pd), AnsweredPrefix(m, o);
      r.pd.Some? ==> m.iaPd.Some? && r.pd.value == PdAnswer(m.iaPd.value, q.0, q.1, TimesFor(m, x, o.pd.Some?))
  {
  }

  function AnsweredIp(m: Meta, o: Outcome): Address
  {
    if ToldIp(m, o).Some? then ToldIp(m, o).value else UNSPECIFIED
  }

  function AnsweredPrefix(m: Meta, o: Outcome): (Address, uint8)
  {
    if ToldPrefix(m, o).Some? then ToldPrefix(m, o).value else (UNSPECIFIED, 0)
  }

  /** And in its bytes, the associations carry T1, T2 and the lifetimes: the subnet's
      default and maximum lease time with a grant, zeros with what is given back, zeros
      and the status NoAddrsAvail with nothing. */
  lemma {:induction false} ReplyCarriesLifetimes(
    cfg: seq<Subnet>, file: seq<Record>, x: Extras, s: State, b: seq<uint8>,
    src: Address, now: nat, probe: Address -> bool, m: Meta, opt: Opt)
    requires Reachable(cfg, file, s) && |s.pools| == |s.pds| == |cfg| && |b| < 65536 && Parsed(b) == Some(m)
    requires var e := Serve(cfg, x, s, b, src, now, probe);
      e.datagram.Some? && opt in Options(e.datagram.value, 4)
    ensures var o := Serve(cfg, x, s, b, src, now, probe).outcome;
      opt.code == 3 ==>
        m.iaNa.Some? && NaCarries(opt.value, m.iaNa.value, AnsweredIp(m, o), TimesFor(m, x, o.na.Some?))
    ensures var o := Serve(cfg, x, s, b, src, now, probe).outcome;
      var q := AnsweredPrefix(m, o);
      opt.code == 25 ==>
        m.iaPd.Some? && PdCarries(opt.value, m.iaPd.value, q.0, q.1, TimesFor(m, x, o.pd.Some?))
  {
    var o := Serve(cfg, x, s, b, src, now, probe).outcome;
    ClientFits(b);
    GrantsAreOfTheirKind(cfg, file, s, Receive(PacketOf(m, src), now, probe));
    AnswersTo(cfg, x, m, src, o);
    ReplyCarriesTimes(ReplyTo(cfg, x, m, src, o.na, o.pd), opt);
  }

  /** Nothing is sent in answer to any other message, or to bytes that do not parse. */
  lemma {:induction false} OthersGetNoReply(
    cfg: seq<Subnet>, x: Extras, s: State, b: seq<uint8>, src: Address, now: nat, probe: Address -> bool)
    requires |s.pools| == |s.pds| == |cfg| && |b| < 65536
    ensures Serve(cfg, x, s, b, src, now, probe).datagram.Some? <==> |b| >= 4 && b[0] in {1, 3, 5, 6, 8, 9}
  {
    if |b| >= 4 { XidFits(Blank(b[0], Xid(b)), Options(b, 4)); }
  }
}
