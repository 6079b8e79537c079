/** The append functions of protocol_v6.c and the reply part of process_packet, in
    place on the reply buffer, proved against Reply6. */
module Append6 {
  import opened Bytes
  import opened Address6
  import opened Wire6
  import opened Reply6

  method PutOption(buf: array<uint8>, pos: nat, o: Opt) returns (end: nat)
    requires Fits16(o) && pos + 4 + |o.value| <= buf.Length
    modifies buf
    ensures end == pos + 4 + |o.value| && buf[..end] == old(buf[..pos]) + OptBytes(o)
  {
    ghost var was := buf[..pos];
    end := Write(buf, pos, Be16(o.code));
    end := Write(buf, end, Be16(|o.value|));
    end := Write(buf, end, o.value);
    assert buf[..end] == was + (Be16(o.code) + Be16(|o.value|) + o.value);
  }

  /** dhcpv6_append_option: all of the option, or nothing. */
  method AppendOption(buf: array<uint8>, offset: nat, o: Opt) returns (ok: bool, off: nat)
    requires Fits16(o) && offset <= buf.Length
    modifies buf
    ensures ok <==> offset + 4 + |o.value| <= buf.Length
    ensures off <= buf.Length && buf[..off] == old(buf[..offset]) + if ok then OptBytes(o) else []
  {
    if offset + 4 + |o.value| > buf.Length {
      return false, offset;
    }
    off := PutOption(buf, offset, o);
    ok := true;
  }

  lemma {:induction false} IaAssembled(b: seq<uint8>, i: nat, code: uint16, iaid: uint32, t: Terms, sub: Opt)
    requires |sub.value| <= 25 && |b| == i + 20 + |sub.value|
    requires b[i..i + 2] == Be16(code) && b[i + 2..i + 4] == Be16(16 + |sub.value|)
    requires b[i + 4..i + 16] == IaHead(iaid, t) && b[i + 16..] == OptBytes(sub)
    ensures b == b[..i] + OptBytes(IaOpt(code, iaid, t, sub))
  {
    assert b == b[..i] + (b[i..i + 2] + b[i + 2..i + 4] + (b[i + 4..i + 16] + b[i + 16..]));
  }

  /** The fixed part of an identity association, all but its length. */
  method PutIaHead(buf: array<uint8>, offset: nat, code: uint16, iaid: uint32, t: Terms)
    requires offset + 16 <= buf.Length
    modifies buf
    ensures buf[..offset] == old(buf[..offset])
    ensures buf[offset..offset + 2] == Be16(code) && buf[offset + 4..offset + 16] == IaHead(iaid, t)
  {
    Store(buf, offset, Be16(code));
    Store(buf, offset + 4, IaHead(iaid, t));
  }

  /** The suboption, and then the length it gives the association. */
  method PutIaSub(buf: array<uint8>, offset: nat, sub: Opt) returns (off: nat)
    requires |sub.value| <= 25 && offset + 20 + |sub.value| <= buf.Length
    modifies buf
    ensures off == offset + 20 + |sub.value| && buf[offset + 16..off] == OptBytes(sub)
    ensures buf[offset + 2..offset + 4] == Be16(16 + |sub.value|)
    ensures buf[..offset + 2] == old(buf[..offset + 2])
    ensures buf[offset + 4..offset + 16] == old(buf[offset + 4..offset + 16])
  {
    ghost var was := buf[..offset + 16];
    off := PutOption(buf, offset + 16, sub);
    assert forall i :: 0 <= i < offset + 16 ==> buf[i] == buf[..off][i] == was[i];
    assert buf[offset + 16..off] == buf[..off][offset + 16..] == OptBytes(sub);
    ghost var full := buf[..off];
    assert full[..offset + 2] == was[..offset + 2] && full[offset + 4..offset + 16] == was[offset + 4..];
    Store(buf, offset + 2, Be16(16 + |sub.value|));
    assert buf[..offset + 2] == full[..offset + 2] && buf[offset + 4..offset + 16] == full[offset + 4..offset + 16];
  }

  /** The common shape of dhcpv6_append_ia_na and dhcpv6_append_ia_pd. The length goes
      in last; when there is no room for the suboption the head has been written, but
      beyond the offset. */
  method AppendIa(buf: array<uint8>, offset: nat, code: uint16, iaid: uint32, t: Terms, sub: Opt)
    returns (ok: bool, off: nat)
    requires |sub.value| <= 25 && offset <= buf.Length
    modifies buf
    ensures ok <==> offset + 20 + |sub.value| <= buf.Length
    ensures off <= buf.Length && buf[..off] == old(buf[..offset]) +
      if ok then OptBytes(IaOpt(code, iaid, t, sub)) else []
  {
    if offset + 16 > buf.Length {
      return false, offset;
    }
    PutIaHead(buf, offset, code, iaid, t);
    if offset + 20 + |sub.value| > buf.Length {
      return false, offset;
    }
    ghost var was := buf[..offset + 2];
    off := PutIaSub(buf, offset, sub);
    ghost var b := buf[..off];
    assert b[..offset] == was[..offset] && b[offset..offset + 2] == was[offset..];
    IaAssembled(b, offset, code, iaid, t, sub);
    ok := true;
  }

  /** The copying loop of dhcpv6_append_dns_servers. */
  method PutServers(buf: array<uint8>, pos: nat, servers: seq<Address>, use: nat) returns (end: nat)
    requires use <= |servers| && pos + 16 * use <= buf.Length
    modifies buf
    ensures end == pos + 16 * use && buf[..end] == old(buf[..pos]) + Joined(servers[..use])
  {
    end := pos;
    for i := 0 to use
      invariant end == pos + 16 * i && buf[..end] == old(buf[..pos]) + Joined(servers[..i])
    {
      ghost var was, joined := old(buf[..pos]), Joined(servers[..i]);
      assert Joined(servers[..i + 1]) == joined + servers[i] by {
        assert servers[..i + 1][..i] == servers[..i] && servers[..i + 1][i] == servers[i];
      }
      end := Write(buf, end, servers[i]);
      assert was + joined + servers[i] == was + (joined + servers[i]);
    }
  }

  /** The servers behind a header that tells of the first few of them. */
  lemma {:induction false} DnsAssembled(b: seq<uint8>, was: seq<uint8>, servers: seq<Address>, told: nat)
    requires told == 16 * |servers| % 65536
    requires b == was + Be16(OPT_DNS_SERVERS) + Be16(told) + Joined(servers)
    ensures var o := Opt(OPT_DNS_SERVERS, Joined(servers[..DnsTold(|servers|)]));
      |was| + 4 + told <= |b| && b[..|was| + 4 + told] == was + OptBytes(o)
  {
    JoinedPrefix(servers, DnsTold(|servers|));
    var head := was + Be16(OPT_DNS_SERVERS) + Be16(told);
    assert b[..|head| + told] == head + Joined(servers)[..told];
    assert head + Joined(servers)[..told] == was + (Be16(OPT_DNS_SERVERS) + Be16(told) + Joined(servers)[..told]);
  }

  /** dhcpv6_append_dns_servers. In a buffer of any size, an option that reads back as
      the servers its length tells of. */
  method AppendDns(buf: array<uint8>, offset: nat, servers: seq<Address>) returns (w: int)
    requires offset <= buf.Length
    modifies buf
    ensures var o := DnsOpt(servers, buf.Length - offset);
      if o.None? then w == -1 && buf[..offset] == old(buf[..offset])
      else (w == 4 + |o.value.value| && offset + w <= buf.Length
            && buf[..offset + w] == old(buf[..offset]) + OptBytes(o.value))
  {
    var room := buf.Length - offset;
    if |servers| == 0 || room < 20 {
      return -1;
    }
    var use := DnsUse(|servers|, room);
    ghost var was := buf[..offset];
    var told := 16 * use % 65536;
    var end := Write(buf, offset, Be16(OPT_DNS_SERVERS));
    end := Write(buf, end, Be16(told));
    end := PutServers(buf, end, servers, use);
    w := 4 + told;
    DnsAssembled(buf[..end], was, servers[..use], told);
    assert servers[..use][..DnsTold(use)] == servers[..DnsTold(use)];
    assert buf[..end][..offset + w] == buf[..offset + w];
  }

  /** The header and the two identifiers. */
  method PutIds(buf: array<uint8>, r: Reply) returns (len: nat)
    requires buf.Length == BUF_SIZE && |r.client| < 65536
    modifies buf
    ensures len <= buf.Length && buf[..len] == WithIds(r)
  {
    var ok;
    len := Write(buf, 0, Header(r.kind, r.xid));
    assert buf[..len] == Header(r.kind, r.xid);
    ok, len := AppendOption(buf, len, Opt(OPT_SERVERID, SERVER_DUID));
    if |r.client| > 0 {
      ok, len := AppendOption(buf, len, Opt(OPT_CLIENTID, r.client));
    }
  }

  method PutDns(buf: array<uint8>, offset: nat, dns: seq<Address>) returns (len: nat)
    requires offset <= buf.Length == BUF_SIZE
    modifies buf
    ensures len <= buf.Length && buf[..len] == WithDns(old(buf[..offset]), dns)
  {
    len := offset;
    ghost var was := buf[..offset];
    if |dns| > 0 {
      var w := AppendDns(buf, len, dns);
      if w > 0 {
        len := len + w;
      }
    }
  }

  method PutNa(buf: array<uint8>, offset: nat, na: Option<NaAnswer>) returns (len: nat)
    requires offset <= buf.Length == BUF_SIZE
    modifies buf
    ensures len <= buf.Length && buf[..len] == WithNa(old(buf[..offset]), na)
  {
    len := offset;
    if na.Some? {
      var ok;
      ok, len := AppendIa(buf, len, OPT_IA_NA, na.value.iaid, na.value.terms, NaSub(na.value.ip, na.value.terms));
    }
  }

  method PutPd(buf: array<uint8>, offset: nat, pd: Option<PdAnswer>) returns (len: nat)
    requires offset <= buf.Length == BUF_SIZE
    modifies buf
    ensures len <= buf.Length && buf[..len] == WithPd(old(buf[..offset]), pd)
  {
    len := offset;
    if pd.Some? {
      var ok;
      ok, len := AppendIa(buf, len, OPT_IA_PD, pd.value.iaid, pd.value.terms,
                          PdSub(pd.value.prefix, pd.value.plen, pd.value.terms));
    }
  }

  /** The reply part of process_packet. */
  method BuildReply(buf: array<uint8>, r: Reply) returns (len: nat)
    requires buf.Length == BUF_SIZE && |r.client| < 65536
    modifies buf
    ensures len <= buf.Length && buf[..len] == ReplyBytes(r)
  {
    len := PutIds(buf, r);
    len := PutDns(buf, len, r.dns);
    len := PutNa(buf, len, r.na);
    len := PutPd(buf, len, r.pd);
  }
}
