/** The DHCPv4 option area, DHCP_Server/DHCPv4/src/dhcp_message.c: a magic cookie and a
    chain of options ended by END, in 312 bytes (section 2 of RFC 2132). */
module Options4 {
  import opened Bytes

  const SIZE := 312
  const SCAN_LIMIT := 308
  const PAD: uint8 := 0
  const END: uint8 := 255

  type Area = b: seq<uint8> | |b| == SIZE witness seq(SIZE, _ => 0)

  datatype Opt = Opt(code: uint8, value: seq<uint8>)

  predicate HasCookie(b: Area)
  {
    b[0] == 0x63 && b[1] == 0x82 && b[2] == 0x53 && b[3] == 0x63
  }

  /* ---------- the chain ---------- */

  /** Where the next link of the chain is. */
  function NextAt(b: Area, at: nat): nat
    requires at + 1 < SIZE
  {
    if b[at] == PAD then at + 1 else at + 2 + b[at + 1]
  }

  /** Where END stands, if the chain from at on gets there within the area. */
  function EndFrom(b: Area, at: nat): (r: Option<nat>)
    ensures r.Some? ==> at <= r.value < SIZE && b[r.value] == END
    decreases SIZE - at
  {
    if at >= SIZE then None
    else if b[at] == END then Some(at)
    else if at + 1 == SIZE then None
    else EndFrom(b, NextAt(b, at))
  }

  /** The options of the chain. */
  function OptsFrom(b: Area, at: nat): seq<Opt>
    requires EndFrom(b, at).Some?
    decreases SIZE - at
  {
    if b[at] == END then []
    else if b[at] == PAD then OptsFrom(b, at + 1)
    else [Opt(b[at], b[at + 2..NextAt(b, at)])] + OptsFrom(b, NextAt(b, at))
  }

  predicate WellFormed(b: Area)
  {
    EndFrom(b, 4).Some?
  }

  function Opts(b: Area): seq<Opt>
    requires WellFormed(b)
  {
    OptsFrom(b, 4)
  }

  /* ---------- looking an option up ---------- */

  /** The value of the first option with that code. */
  function First(os: seq<Opt>, code: uint8): Option<seq<uint8>>
  {
    if os == [] then None else if os[0].code == code then Some(os[0].value) else First(os[1..], code)
  }

  function Lookup(b: Area, code: uint8): Option<seq<uint8>>
    requires WellFormed(b)
  {
    if HasCookie(b) then First(Opts(b), code) else None
  }

  lemma {:induction false} FirstLast(os: seq<Opt>, o: Opt, code: uint8)
    ensures First(os + [o], code) ==
      if First(os, code).Some? then First(os, code) else if o.code == code then Some(o.value) else None
  {
    if os == [] {
      assert [] + [o] == [o];
    } else {
      assert (os + [o])[1..] == os[1..] + [o];
      FirstLast(os[1..], o, code);
    }
  }

  /** The search reads nothing behind the area: it does not come to a code on the last
      byte, whose length would stand there. */
  predicate ReadsInside(b: Area, at: nat, code: uint8)
    decreases SIZE - at
  {
    if at >= SIZE || b[at] == END then true
    else if b[at] == PAD then ReadsInside(b, at + 1, code)
    else at + 1 < SIZE && (b[at] == code || ReadsInside(b, NextAt(b, at), code))
  }

  /** Where the codes of the chain stand: those of the whole options and, if the chain
      runs out of the area, that of the option it runs out by. */
  function Links(b: Area, at: nat): (r: seq<nat>)
    ensures forall i :: 0 <= i < |r| ==> r[i] + 1 < SIZE
    decreases SIZE - at
  {
    if at + 1 >= SIZE || b[at] == END then []
    else if b[at] == PAD then Links(b, at + 1)
    else [at] + Links(b, NextAt(b, at))
  }

  /** Link k is the first with that code. */
  predicate FirstLink(b: Area, code: uint8, k: nat)
  {
    var ls := Links(b, 4);
    k < |ls| && b[ls[k]] == code && forall j :: 0 <= j < k ==> b[ls[j]] != code
  }

  /** dhcp_message_get_option: where the value starts and how long it claims to be. */
  method GetOption(b: Area, code: uint8) returns (r: Option<(nat, uint8)>, ghost k: nat)
    requires HasCookie(b) ==> ReadsInside(b, 4, code)
    ensures r.None? <==> !HasCookie(b) || forall j :: 0 <= j < |Links(b, 4)| ==> b[Links(b, 4)[j]] != code
    ensures r.Some? ==> FirstLink(b, code, k) && r.value == (Links(b, 4)[k] + 2, b[Links(b, 4)[k] + 1])
  {
    k := 0;
    if !HasCookie(b) {
      return None, k;
    }
    var at: nat := 4;
    while at < SIZE && b[at] != END
      invariant k <= |Links(b, 4)| && Links(b, at) == Links(b, 4)[k..]
      invariant forall j :: 0 <= j < k ==> b[Links(b, 4)[j]] != code
      invariant ReadsInside(b, at, code)
      decreases SIZE - at
    {
      if b[at] == PAD {
        at := at + 1;
      } else {
        assert Links(b, at)[0] == Links(b, 4)[k];
        if b[at] == code {
          assert FirstLink(b, code, k);
          return Some((at + 2, b[at + 1])), k;
        }
        assert Links(b, at)[1..] == Links(b, 4)[k + 1..];
        at := at + 2 + b[at + 1];
        k := k + 1;
      }
    }
    return None, k;
  }

  /** Link k, in a well-formed area, is the code of option k. */
  ghost predicate LinkHolds(b: Area, p: nat, o: Opt)
  {
    p + 1 < SIZE && p + 2 + b[p + 1] < SIZE && o == Opt(b[p], b[p + 2..p + 2 + b[p + 1]])
  }

  lemma {:induction false} LinkIsOption(b: Area, at: nat, k: nat)
    requires EndFrom(b, at).Some?
    ensures |Links(b, at)| == |OptsFrom(b, at)|
    ensures k < |Links(b, at)| ==> LinkHolds(b, Links(b, at)[k], OptsFrom(b, at)[k])
    decreases SIZE - at
  {
    if b[at] != END {
      var next := NextAt(b, at);
      assert EndFrom(b, next).Some? && next < SIZE;
      if b[at] == PAD {
        LinkIsOption(b, next, k);
      } else {
        LinkIsOption(b, next, if k > 0 then k - 1 else 0);
        assert LinkHolds(b, at, Opt(b[at], b[at + 2..next]));
        assert Links(b, at) == [at] + Links(b, next);
      }
    }
  }

  lemma {:induction false} WellFormedIsInside(b: Area, at: nat, code: uint8)
    requires EndFrom(b, at).Some?
    ensures ReadsInside(b, at, code)
    decreases SIZE - at
  {
    if b[at] != END {
      WellFormedIsInside(b, NextAt(b, at), code);
    }
  }

  lemma {:induction false} FirstAt(os: seq<Opt>, code: uint8, k: nat)
    requires k < |os| && os[k].code == code && forall j :: 0 <= j < k ==> os[j].code != code
    ensures First(os, code) == Some(os[k].value)
  {
    if k > 0 {
      FirstAt(os[1..], code, k - 1);
    }
  }

  lemma {:induction false} FirstNone(os: seq<Opt>, code: uint8)
    requires forall j :: 0 <= j < |os| ==> os[j].code != code
    ensures First(os, code) == None
  {
    if os != [] {
      FirstNone(os[1..], code);
    }
  }

  /** In a well-formed area no link with the code means no option with it. */
  lemma {:induction false} NoLinkIsNone(b: Area, code: uint8)
    requires WellFormed(b) && forall j :: 0 <= j < |Links(b, 4)| ==> b[Links(b, 4)[j]] != code
    ensures Lookup(b, code) == None
  {
    LinkIsOption(b, 4, 0);
    forall j | 0 <= j < |Opts(b)| ensures Opts(b)[j].code != code { LinkIsOption(b, 4, j); }
    FirstNone(Opts(b), code);
  }

  /** In a well-formed area the bytes so delimited lie inside and are the value of the
      first option with the code. */
  lemma {:induction false} FirstLinkIsFirst(b: Area, code: uint8, k: nat)
    requires WellFormed(b) && HasCookie(b) && FirstLink(b, code, k)
    ensures ReadsInside(b, 4, code)
    ensures var p := Links(b, 4)[k] + 2; p + b[p - 1] <= SIZE && Lookup(b, code) == Some(b[p..p + b[p - 1]])
  {
    WellFormedIsInside(b, 4, code);
    LinkIsOption(b, 4, k);
    forall j | 0 <= j < k ensures Opts(b)[j].code == b[Links(b, 4)[j]] { LinkIsOption(b, 4, j); }
    FirstAt(Opts(b), code, k);
  }

  /* ---------- adding an option ---------- */

  /** Where the scan for the end stops: at END, or at the first link at or beyond 308. */
  function StopFrom(b: Area, at: nat): (r: nat)
    ensures r >= at && (r >= SCAN_LIMIT || b[r] == END)
    decreases SIZE - at
  {
    if at >= SCAN_LIMIT || b[at] == END then at else StopFrom(b, NextAt(b, at))
  }

  function Stop(b: Area): nat
  {
    StopFrom(b, 4)
  }

  function OptBytes(o: Opt): seq<uint8>
    requires |o.value| < 256
  {
    [o.code, |o.value|] + o.value + [END]
  }

  predicate Fits(b: Area, o: Opt)
  {
    Stop(b) + 3 + |o.value| <= SIZE
  }

  /** The area after the option has been written where the scan stopped. */
  function Added(b: Area, o: Opt): Area
    requires |o.value| < 256 && Fits(b, o)
  {
    b[..Stop(b)] + OptBytes(o) + b[Stop(b) + 3 + |o.value|..]
  }

  /** The options before the link at stop. */
  function OptsUntil(b: Area, at: nat, stop: nat): seq<Opt>
    requires StopFrom(b, at) == stop < SIZE
    decreases SIZE - at
  {
    if at >= SCAN_LIMIT || b[at] == END then []
    else if b[at] == PAD then OptsUntil(b, at + 1, stop)
    else [Opt(b[at], b[at + 2..NextAt(b, at)])] + OptsUntil(b, NextAt(b, at), stop)
  }

  lemma {:induction false} OptsSplit(b: Area, at: nat)
    requires EndFrom(b, at).Some?
    ensures StopFrom(b, at) < SIZE && EndFrom(b, StopFrom(b, at)) == EndFrom(b, at)
    ensures OptsFrom(b, at) == OptsUntil(b, at, StopFrom(b, at)) + OptsFrom(b, StopFrom(b, at))
    decreases SIZE - at
  {
    if at < SCAN_LIMIT && b[at] != END {
      OptsSplit(b, NextAt(b, at));
    }
  }

  /** c is b up to stop, and from there the option o followed by END. */
  ghost predicate Carries(b: Area, c: Area, o: Opt, stop: nat)
  {
    && |o.value| < 256 && stop + 3 + |o.value| <= SIZE && o.code != PAD && o.code != END
    && (forall i :: 0 <= i < stop ==> c[i] == b[i])
    && c[stop] == o.code && c[stop + 1] == |o.value| && c[stop + 2..stop + 2 + |o.value|] == o.value
    && c[stop + 2 + |o.value|] == END
  }

  lemma {:induction false} AddedCarries(b: Area, o: Opt)
    requires |o.value| < 256 && Fits(b, o) && o.code != PAD && o.code != END
    ensures Carries(b, Added(b, o), o, Stop(b))
  {
    var c, stop := Added(b, o), Stop(b);
    assert c[stop + 2..stop + 2 + |o.value|] == o.value;
  }

  /** One link of the chain, where the two areas agree on it. */
  lemma {:induction false} SameLink(b: Area, c: Area, at: nat)
    requires at + 1 < SIZE && b[at] != END && NextAt(b, at) <= SIZE
    requires forall i :: at <= i < NextAt(b, at) ==> c[i] == b[i]
    ensures c[at] == b[at] && NextAt(c, at) == NextAt(b, at)
    ensures b[at] != PAD ==> c[at + 2..NextAt(c, at)] == b[at + 2..NextAt(b, at)]
  {
    if b[at] != PAD {
      assert c[at + 1] == b[at + 1];
    }
  }

  /** In the new area the chain runs as before up to where the option was written, and
      ends right behind it. */
  lemma {:induction false} CarriedChain(b: Area, c: Area, o: Opt, at: nat, stop: nat)
    requires stop == StopFrom(b, at) && Carries(b, c, o, stop)
    ensures EndFrom(c, at) == Some(stop + 2 + |o.value|)
    ensures OptsFrom(c, at) == OptsUntil(b, at, stop) + [o]
    decreases SIZE - at
  {
    if at >= SCAN_LIMIT || b[at] == END {
      assert OptsUntil(b, at, stop) == [];
    } else {
      var next := NextAt(b, at);
      CarriedChain(b, c, o, next, stop);
      SameLink(b, c, at);
      assert EndFrom(c, at) == EndFrom(c, next);
      if b[at] != PAD {
        var here := Opt(b[at], b[at + 2..next]);
        assert OptsFrom(c, at) == [here] + OptsFrom(c, next);
        assert OptsUntil(b, at, stop) == [here] + OptsUntil(b, next, stop);
      }
    }
  }

  lemma {:induction false} AddedChain(b: Area, o: Opt)
    requires |o.value| < 256 && Fits(b, o) && o.code != PAD && o.code != END
    ensures EndFrom(Added(b, o), 4) == Some(Stop(b) + 2 + |o.value|)
    ensures OptsFrom(Added(b, o), 4) == OptsUntil(b, 4, Stop(b)) + [o]
  {
    AddedCarries(b, o);
    CarriedChain(b, Added(b, o), o, 4, Stop(b));
  }

  /** An addition keeps every option and appends the new one if and only if no option
      starts where the scan stopped or later. */
  lemma {:induction false} AddedIsAppended(b: Area, o: Opt)
    requires WellFormed(b) && |o.value| < 256 && Fits(b, o) && o.code != PAD && o.code != END
    ensures WellFormed(Added(b, o)) && EndFrom(b, Stop(b)).Some?
    ensures Opts(Added(b, o)) == Opts(b) + [o] <==> OptsFrom(b, Stop(b)) == []
  {
    OptsSplit(b, 4);
    AddedChain(b, o);
    var before, after := OptsUntil(b, 4, Stop(b)), OptsFrom(b, Stop(b));
    assert after != [] ==> |before + [o]| != |before + after + [o]|;
  }

  /** With END before offset 308 the scan finds it, and an addition fails exactly when
      the option would not fit behind it. */
  lemma {:induction false} ScanFindsEnd(b: Area, o: Opt)
    requires WellFormed(b) && EndFrom(b, 4).value < SCAN_LIMIT
    ensures Stop(b) == EndFrom(b, 4).value && OptsFrom(b, Stop(b)) == []
    ensures Fits(b, o) <==> EndFrom(b, 4).value + 3 + |o.value| <= SIZE
  {
    OptsSplit(b, 4);
  }

  /** With END before offset 308 an addition that fits appends, and moves END by 2 + len,
      within the area. */
  lemma {:induction false} AddedGrows(b: Area, o: Opt)
    requires WellFormed(b) && EndFrom(b, 4).value < SCAN_LIMIT && |o.value| < 256 && o.code != PAD && o.code != END
    requires EndFrom(b, 4).value + 3 + |o.value| <= SIZE
    ensures Fits(b, o) && WellFormed(Added(b, o)) && HasCookie(Added(b, o)) == HasCookie(b)
    ensures EndFrom(Added(b, o), 4) == Some(EndFrom(b, 4).value + 2 + |o.value|)
    ensures Opts(Added(b, o)) == Opts(b) + [o]
  {
    ScanFindsEnd(b, o);
    AddedChain(b, o);
    AddedIsAppended(b, o);
    AddedCarries(b, o);
  }

  /** So it makes its code readable if it was not there, and leaves every other code's
      value alone. */
  lemma {:induction false} AddedReads(b: Area, o: Opt, code: uint8)
    requires WellFormed(b) && EndFrom(b, 4).value < SCAN_LIMIT && |o.value| < 256 && o.code != PAD && o.code != END
    requires EndFrom(b, 4).value + 3 + |o.value| <= SIZE && HasCookie(b)
    ensures Fits(b, o) && WellFormed(Added(b, o))
    ensures Lookup(Added(b, o), code) ==
      if Lookup(b, code).Some? then Lookup(b, code) else if code == o.code then Some(o.value) else None
  {
    AddedGrows(b, o);
    FirstLast(Opts(b), o, code);
  }

  /** And it can lose one: an option that starts at offset 308 is overwritten. */
  lemma {:induction false} AdditionCanOverwrite() returns (b: Area, o: Opt)
    ensures HasCookie(b) && WellFormed(b) && |o.value| < 256 && Fits(b, o) && o.code != PAD && o.code != END
    ensures WellFormed(Added(b, o)) && Opts(Added(b, o)) != Opts(b) + [o]
  {
    b := seq(SIZE, i => if i == 0 || i == 3 then 0x63 else if i == 1 then 0x82 else if i == 2 then 0x53
                        else if i == 4 then 1 else if i == 5 then 255 else if i == 261 then 2 else if i == 262 then 45
                        else if i == 308 then 3 else if i == 310 then END else 0);
    o := Opt(9, []);
    assert NextAt(b, 4) == 261 && NextAt(b, 261) == 308 && NextAt(b, 308) == 310;
    assert EndFrom(b, 310) == Some(310);
    assert EndFrom(b, 261) == EndFrom(b, 308);
    assert StopFrom(b, 261) == 308;
    AddedIsAppended(b, o);
  }

  /* ---------- in place ---------- */

  /** The scanning loop of dhcp_message_add_option. */
  method FindEnd(b: array<uint8>) returns (at: nat)
    requires b.Length == SIZE
    ensures at == Stop(b[..])
  {
    at := 4;
    while at < SCAN_LIMIT && b[at] != END
      invariant StopFrom(b[..], at) == Stop(b[..])
      decreases SIZE - at
    {
      if b[at] == PAD {
        at := at + 1;
      } else {
        at := at + 2 + b[at + 1];
      }
    }
  }

  method WriteOption(b: array<uint8>, at: nat, o: Opt)
    requires b.Length == SIZE && |o.value| < 256 && at + 3 + |o.value| <= SIZE
    modifies b
    ensures b[..] == old(b[..at]) + OptBytes(o) + old(b[at + 3 + |o.value|..])
  {
    ghost var was := b[..];
    Store(b, at, [o.code, |o.value|]);
    Store(b, at + 2, o.value);
    b[at + 2 + |o.value|] := END;
    ghost var now := b[..];
    assert now[..at] == was[..at] && now[at + 3 + |o.value|..] == was[at + 3 + |o.value|..];
    assert now[at..at + 2] == [o.code, |o.value|] && now[at + 2..at + 2 + |o.value|] == o.value;
    assert now == now[..at] + (now[at..at + 2] + now[at + 2..at + 2 + |o.value|] + [END]) + now[at + 3 + |o.value|..];
  }

  /** dhcp_message_add_option. A failed addition changes nothing, whatever the area
      holds. */
  method AddOption(b: array<uint8>, code: uint8, data: seq<uint8>) returns (err: int)
    requires b.Length == SIZE && |data| < 256
    modifies b
    ensures err == 0 || err == -1
    ensures err == 0 <==> Fits(old(b[..]), Opt(code, data))
    ensures b[..] == if err == 0 then Added(old(b[..]), Opt(code, data)) else old(b[..])
  {
    var at := FindEnd(b);
    if at + 3 + |data| > SIZE {
      return -1;
    }
    WriteOption(b, at, Opt(code, data));
    return 0;
  }

  /* ---------- the server's messages ---------- */

  /** The area dhcp_message_init sets up. */
  const EMPTY: Area := [0x63, 0x82, 0x53, 0x63, END] + seq(307, _ => 0)

  lemma {:induction false} EmptyHasNone()
    ensures HasCookie(EMPTY) && EndFrom(EMPTY, 4) == Some(4) && Opts(EMPTY) == []
  {
  }

  predicate Sendable(o: Opt)
  {
    |o.value| < 256 && o.code != PAD && o.code != END
  }

  /** Adding one option after another. */
  function Build(b: Area, os: seq<Opt>): Area
    requires forall i :: 0 <= i < |os| ==> Sendable(os[i])
  {
    if os == [] then b
    else
      var c := Build(b, os[..|os| - 1]);
      var o := os[|os| - 1];
      assert Sendable(o);
      if Fits(c, o) then Added(c, o) else c
  }

  function SizeOf(os: seq<Opt>): nat
  {
    if os == [] then 0 else SizeOf(os[..|os| - 1]) + 2 + |os[|os| - 1].value|
  }

  /** The area has its cookie, its END at end, and exactly the options os. */
  ghost predicate Holds(b: Area, end: nat, os: seq<Opt>)
  {
    HasCookie(b) && EndFrom(b, 4) == Some(end) && Opts(b) == os
  }

  lemma {:induction false} AddedHolds(b: Area, end: nat, os: seq<Opt>, o: Opt)
    requires Holds(b, end, os) && Sendable(o) && end + 2 + |o.value| < SCAN_LIMIT
    ensures Fits(b, o) && Holds(Added(b, o), end + 2 + |o.value|, os + [o])
  {
    AddedGrows(b, o);
    var had := Opts(b);
    assert had == os;
    assert Opts(Added(b, o)) == had + [o] == os + [o];
  }

  /** Holding all but the last option, the area holds all when that one is added. */
  lemma {:induction false} LastAdded(b: Area, end: nat, all: seq<Opt>, c: Area)
    requires all != [] && Holds(b, end, all[..|all| - 1]) && Sendable(all[|all| - 1])
    requires end + 2 + |all[|all| - 1].value| < SCAN_LIMIT
    requires c == if Fits(b, all[|all| - 1]) then Added(b, all[|all| - 1]) else b
    ensures Holds(c, end + 2 + |all[|all| - 1].value|, all)
  {
    var rest, o := all[..|all| - 1], all[|all| - 1];
    assert all == rest + [o];
    AddedHolds(b, end, rest, o);
  }

  /** As long as END stays before offset 308 the options add up. */
  lemma {:induction false} BuildHolds(b: Area, end: nat, os: seq<Opt>)
    requires Holds(b, end, []) && (forall i :: 0 <= i < |os| ==> Sendable(os[i])) && end + SizeOf(os) < SCAN_LIMIT
    ensures Holds(Build(b, os), end + SizeOf(os), os)
  {
    if os != [] {
      var n := |os| - 1;
      assert Sendable(os[n]);
      BuildHolds(b, end, os[..n]);
      LastAdded(Build(b, os[..n]), end + SizeOf(os[..n]), os, Build(b, os));
    }
  }

  const MESSAGE_TYPE: uint8 := 53
  const SUBNET_MASK: uint8 := 1
  const ROUTER: uint8 := 3
  const LEASE_TIME: uint8 := 51
  const SERVER_ID: uint8 := 54
  const DNS_SERVERS: uint8 := 6
  const MAX_DNS_SERVERS := 4

  type Quad = q: seq<uint8> | |q| == 4 witness [0, 0, 0, 0]

  /** The options of an OFFER or an ACK, in the order they are added. dns holds the
      servers' addresses one after another. */
  function GrantOpts(kind: uint8, mask: Quad, router: Quad, secs: Quad, dns: seq<uint8>): (os: seq<Opt>)
    requires |dns| <= 4 * MAX_DNS_SERVERS
    ensures forall i :: 0 <= i < |os| ==> Sendable(os[i])
  {
    [Opt(MESSAGE_TYPE, [kind]), Opt(SUBNET_MASK, mask), Opt(ROUTER, router),
     Opt(LEASE_TIME, secs), Opt(SERVER_ID, router)]
      + if dns == [] then [] else [Opt(DNS_SERVERS, dns)]
  }

  lemma {:induction false} SizeAtMost(os: seq<Opt>)
    requires forall i :: 0 <= i < |os| ==> |os[i].value| <= 4 * MAX_DNS_SERVERS
    ensures SizeOf(os) <= 18 * |os|
  {
    if os != [] {
      SizeAtMost(os[..|os| - 1]);
    }
  }

  /** dhcp_message_make_offer and dhcp_message_make_ack: a client that looks the options
      up gets the message type, the mask, the router, the lease time, the server
      identifier and the DNS servers it was sent. */
  lemma {:induction false} GrantReads(kind: uint8, mask: Quad, router: Quad, secs: Quad, dns: seq<uint8>)
    requires |dns| <= 4 * MAX_DNS_SERVERS
    ensures var b := Build(EMPTY, GrantOpts(kind, mask, router, secs, dns));
      WellFormed(b) && Lookup(b, MESSAGE_TYPE) == Some([kind]) && Lookup(b, SUBNET_MASK) == Some(mask)
      && Lookup(b, ROUTER) == Some(router) && Lookup(b, LEASE_TIME) == Some(secs)
      && Lookup(b, SERVER_ID) == Some(router)
      && Lookup(b, DNS_SERVERS) == if dns == [] then None else Some(dns)
  {
    var os := GrantOpts(kind, mask, router, secs, dns);
    EmptyHasNone();
    SizeAtMost(os);
    BuildHolds(EMPTY, 4, os);
    assert [] + os == os;
    GrantFirst(kind, mask, router, secs, dns);
  }

  lemma {:induction false} GrantFirst(kind: uint8, mask: Quad, router: Quad, secs: Quad, dns: seq<uint8>)
    requires |dns| <= 4 * MAX_DNS_SERVERS
    ensures var os := GrantOpts(kind, mask, router, secs, dns);
      First(os, MESSAGE_TYPE) == Some([kind]) && First(os, SUBNET_MASK) == Some(mask)
      && First(os, ROUTER) == Some(router)
      && First(os, LEASE_TIME) == Some(secs) && First(os, SERVER_ID) == Some(router)
      && First(os, DNS_SERVERS) == if dns == [] then None else Some(dns)
  {
    var os := GrantOpts(kind, mask, router, secs, dns);
    forall code ensures First(os, code) == First(os[1..], code) || code == MESSAGE_TYPE {
    }
    assert os[1..][1..] == os[2..] && os[2..][1..] == os[3..] && os[3..][1..] == os[4..] && os[4..][1..] == os[5..];
    assert First(os[4..], DNS_SERVERS) == First(os[5..], DNS_SERVERS);
    assert dns != [] ==> os[5..] == [Opt(DNS_SERVERS, dns)];
    assert First(os[3..], SERVER_ID) == First(os[4..], SERVER_ID);
    assert First(os[3..], DNS_SERVERS) == First(os[4..], DNS_SERVERS);
    assert First(os[2..], LEASE_TIME) == First(os[3..], LEASE_TIME);
    assert First(os[2..], SERVER_ID) == First(os[3..], SERVER_ID);
    assert First(os[2..], DNS_SERVERS) == First(os[3..], DNS_SERVERS);
    assert First(os[1..], ROUTER) == First(os[2..], ROUTER);
    assert First(os[1..], LEASE_TIME) == First(os[2..], LEASE_TIME);
    assert First(os[1..], SERVER_ID) == First(os[2..], SERVER_ID);
    assert First(os[1..], DNS_SERVERS) == First(os[2..], DNS_SERVERS);
  }
}
