/** 128-bit address arithmetic on byte arrays, as in
    DHCP_Server/DHCPv6/sources/utilsv6.c and the prefix stepping of pd_pool.c. */
module Address6 {
  import opened Bytes

  /** struct in6_addr: sixteen bytes, most significant first. */
  type Address = s: seq<uint8> | |s| == 16 witness seq(16, _ => 0)

  const UNSPECIFIED: Address := [0, 0, 0, 0, 0, 0, 0, 0, 0, 0, 0, 0, 0, 0, 0, 0]

  /** memcmp on two equally long byte strings; only the sign matters. */
  function Compare(a: seq<uint8>, b: seq<uint8>): int
    requires |a| == |b|
  {
    if a == [] then 0
    else if a[0] != b[0] then a[0] - b[0]
    else Compare(a[1..], b[1..])
  }

  /** ipv6_compare is integer order. */
  lemma {:induction false} CompareIsOrder(a: seq<uint8>, b: seq<uint8>)
    requires |a| == |b|
    ensures Compare(a, b) < 0 <==> Value(a) < Value(b)
    ensures Compare(a, b) == 0 <==> a == b
    ensures Compare(a, b) > 0 <==> Value(a) > Value(b)
  {
    if a != [] {
      var p := Pow2(8 * (|a| - 1));
      assert a == [a[0]] + a[1..] && b == [b[0]] + b[1..];
      ValueConcat([a[0]], a[1..]);
      ValueConcat([b[0]], b[1..]);
      assert Value([a[0]]) == a[0] && Value([b[0]]) == b[0];
      ValueBound(a[1..]);
      ValueBound(b[1..]);
      CompareIsOrder(a[1..], b[1..]);
      LeadingDigitDecides(a[0], b[0], p, Value(a[1..]), Value(b[1..]));
    }
  }

  lemma {:induction false} MulGap(x: int, y: int, p: nat)
    requires x < y
    ensures x * p + p <= y * p
  {
    assert (y - x - 1) * p >= 0;
    assert (y - x - 1) * p == y * p - x * p - p;
  }

  lemma {:induction false} LeadingDigitDecides(x: int, y: int, p: nat, u: nat, v: nat)
    requires u < p && v < p
    ensures x < y ==> x * p + u < y * p + v
    ensures y < x ==> y * p + v < x * p + u
  {
    if x < y { MulGap(x, y, p); }
    if y < x { MulGap(y, x, p); }
  }

  /** What the carry loop leaves behind when it stops at byte i: the bytes after i
      have wrapped from 0xff to 0, so the value has grown by exactly one there. */
  lemma {:induction false} CarryValue(s: seq<uint8>, t: seq<uint8>, i: nat)
    requires |s| == |t| && i < |s|
    requires s[..i] == t[..i] && s[i] < 255 && t[i] == s[i] + 1
    requires forall k :: i < k < |s| ==> s[k] == 255 && t[k] == 0
    ensures Value(t) == Value(s) + 1
  {
    var n := |s| - 1;
    if i == n {
      assert s[..n] == t[..n];
    } else {
      assert s[..n][..i] == s[..i] == t[..i] == t[..n][..i];
      CarryValue(s[..n], t[..n], i);
    }
  }

  lemma {:induction false} AllOnes(s: seq<uint8>)
    requires forall k :: 0 <= k < |s| ==> s[k] == 255
    ensures Value(s) + 1 == Pow2(8 * |s|)
  {
    if s != [] {
      AllOnes(s[..|s| - 1]);
      Pow2Byte(|s| - 1);
    }
  }

  lemma {:induction false} AllZeros(s: seq<uint8>)
    requires forall k :: 0 <= k < |s| ==> s[k] == 0
    ensures Value(s) == 0
  {
    if s != [] { AllZeros(s[..|s| - 1]); }
  }

  /** ipv6_increment: adds one modulo 2^128 and reports overflow. */
  method Increment(ip: array<uint8>) returns (ok: bool)
    requires ip.Length == 16
    modifies ip
    ensures Value(ip[..]) == if ok then old(Value(ip[..])) + 1 else 0
    ensures ok <==> old(Value(ip[..])) + 1 < Pow2(128)
  {
    ghost var s := ip[..];
    var i := 15;
    while i >= 0
      invariant -1 <= i <= 15
      invariant forall k :: i < k < 16 ==> s[k] == 255 && ip[k] == 0
      invariant forall k :: 0 <= k <= i ==> ip[k] == s[k]
    {
      if ip[i] != 255 {
        ip[i] := ip[i] + 1;
        assert ip[..][..i] == s[..i];
        CarryValue(s, ip[..], i);
        ValueBound(ip[..]);
        return true;
      }
      ip[i] := 0;
      i := i - 1;
    }
    AllOnes(s);
    AllZeros(ip[..]);
    return false;
  }

  lemma {:induction false} DigitCarry(x: nat, add: nat, p: nat)
    ensures (x + add) % 256 * p + (x + add) / 256 * (256 * p) == x * p + add * p
  {
    var d, c := (x + add) % 256, (x + add) / 256;
    calc {
      d * p + c * (256 * p);
      d * p + (256 * c) * p;
      (d + 256 * c) * p;
      (x + add) * p;
    }
  }

  lemma {:induction false} ShiftBoth(x: nat, y: nat, m: nat, t: nat, carry: nat, addend: nat)
    requires x + carry * m == y + addend
    ensures x * t + carry * (m * t) == y * t + addend * t
  {
    calc {
      x * t + carry * (m * t);
      x * t + (carry * m) * t;
      (x + carry * m) * t;
      (y + addend) * t;
    }
  }

  lemma {:induction false} ValueCons(d: uint8, s: seq<uint8>)
    ensures Value([d] + s) == d * Pow2(8 * |s|) + Value(s)
  {
    ValueConcat([d], s);
    assert Value([d]) == d;
  }

  /** One byte of the carry loop: the digit written and the carry passed on are
      together worth the digit read plus the carry received. */
  lemma {:induction false} CarryStep(x: uint8, was: seq<uint8>, now: seq<uint8>, add: nat, addend: nat)
    requires |was| == |now|
    requires Value(now) + add * Pow2(8 * |now|) == Value(was) + addend
    ensures Value([(x as int + add) % 256] + now) + (x as int + add) / 256 * Pow2(8 * (|now| + 1))
         == Value([x] + was) + addend
  {
    ValueCons(x, was);
    ValueCons((x as int + add) % 256, now);
    Pow2Byte(|now|);
    DigitCarry(x, add, Pow2(8 * |now|));
  }

  /** The bytes before and after the carried-over run keep their places. */
  lemma {:induction false} SpliceValue(
    head: seq<uint8>, was: seq<uint8>, now: seq<uint8>, tail: seq<uint8>, carry: nat, addend: nat)
    requires |was| == |now|
    requires Value(now) + carry * Pow2(8 * |now|) == Value(was) + addend
    ensures Value(head + now + tail) + carry * Pow2(8 * |now + tail|)
         == Value(head + was + tail) + addend * Pow2(8 * |tail|)
  {
    var m, t := Pow2(8 * |now|), Pow2(8 * |tail|);
    assert Pow2(8 * |now + tail|) == m * t by { Pow2Add(8 * |now|, 8 * |tail|); }
    var x, y := Value(head + now), Value(head + was);
    assert x + carry * m == y + addend by {
      ValueConcat(head, now);
      ValueConcat(head, was);
    }
    ShiftBoth(x, y, m, t, carry, addend);
    ValueConcat(head + now, tail);
    ValueConcat(head + was, tail);
  }

  /** The carry loop's state: bytes i..b have been rewritten, and together with the
      pending carry they are worth what they were plus the addend. */
  ghost predicate Carried(was: seq<uint8>, now: seq<uint8>, i: nat, b: nat, carry: nat, addend: nat)
  {
    && |was| == |now| && i <= b + 1 <= |was|
    && now[..i] == was[..i] && now[b + 1..] == was[b + 1..]
    && Value(now[i..b + 1]) + carry * Pow2(8 * (b + 1 - i)) == Value(was[i..b + 1]) + addend
  }

  lemma {:induction false} CarriedStep(was: seq<uint8>, now: seq<uint8>, i: nat, b: nat, carry: nat, addend: nat)
    requires Carried(was, now, i + 1, b, carry, addend) && i < |now|
    ensures Carried(was, now[i := (now[i] as int + carry) % 256], i, b, (now[i] as int + carry) / 256, addend)
  {
    var x := now[i];
    assert x == was[i] by { assert now[..i + 1][i] == was[..i + 1][i]; }
    var next := now[i := (x as int + carry) % 256];
    CarryStep(x, was[i + 1..b + 1], now[i + 1..b + 1], carry, addend);
    assert was[i..b + 1] == [x] + was[i + 1..b + 1];
    assert next[i..b + 1] == [next[i]] + now[i + 1..b + 1];
    assert next[..i] == now[..i + 1][..i] == was[..i + 1][..i] == was[..i];
    assert next[b + 1..] == now[b + 1..];
  }

  /** x + y modulo m, for x and y below m (WrapAddIsModular). */
  function WrapAdd(x: nat, y: nat, m: nat): int
  {
    if x + y < m then x + y else x + y - m
  }

  lemma {:induction false} WrapAddIsModular(x: nat, y: nat, m: nat)
    requires x < m && y < m
    ensures WrapAdd(x, y, m) == (x + y) % m
  {
    if x + y < m { DivModUnique(0, x + y, m); } else { DivModUnique(1, x + y - m, m); }
  }

  lemma {:induction false} CarriedTotal(was: seq<uint8>, now: seq<uint8>, i: nat, b: nat, carry: nat, addend: nat)
    requires Carried(was, now, i, b, carry, addend)
    requires i == 0 || carry == 0
    ensures Value(now) + carry * Pow2(8 * |now|) == Value(was) + addend * Pow2(8 * (|now| - 1 - b))
  {
    assert now == was[..i] + now[i..b + 1] + was[b + 1..];
    assert was == was[..i] + was[i..b + 1] + was[b + 1..];
    SpliceValue(was[..i], was[i..b + 1], now[i..b + 1], was[b + 1..], carry, addend);
  }

  /** The loop stopped with no carry left, or ran off the top byte. */
  lemma {:induction false} CarriedOut(was: seq<uint8>, now: seq<uint8>, i: nat, plen: nat, carry: nat)
    requires |was| == 16 && 1 <= plen <= 128
    requires Carried(was, now, i, (plen - 1) / 8, carry, Pow2(7 - (plen - 1) % 8))
    requires i == 0 || carry == 0
    ensures Value(now) == WrapAdd(Value(was), Pow2(128 - plen), Pow2(128))
  {
    var b, bit := (plen - 1) / 8, 7 - (plen - 1) % 8;
    assert Pow2(bit) * Pow2(8 * (|now| - 1 - b)) == Pow2(128 - plen) by {
      Pow2Add(bit, 8 * (|now| - 1 - b));
      assert bit + 8 * (|now| - 1 - b) == 128 - plen;
    }
    CarriedTotal(was, now, i, b, carry, Pow2(bit));
    CarryIsWrap(Value(was), Pow2(128 - plen), Value(now), carry, Pow2(128)) by {
      ValueBound(now);
      ValueBound(was);
      Pow2Monotone(128 - plen, 128);
    }
  }

  lemma {:induction false} CarryIsWrap(x: nat, y: nat, z: nat, carry: nat, m: nat)
    requires x < m && y < m && z < m && z + carry * m == x + y
    ensures z == WrapAdd(x, y, m)
  {
    if carry >= 2 { MulGap(1, carry, m); }
  }

  /** Adding to byte i and carrying towards byte 0 until the carry runs out. */
  function AddAt(s: seq<uint8>, i: int, add: nat): (t: seq<uint8>)
    requires -1 <= i < |s|
    ensures |t| == |s|
    decreases i + 1
  {
    if i < 0 || add == 0 then s
    else AddAt(s[i := (s[i] as int + add) % 256], i - 1, (s[i] as int + add) / 256)
  }

  lemma {:induction false} AddAtValue(was: seq<uint8>, now: seq<uint8>, i: int, plen: nat, carry: nat)
    requires |was| == 16 && 1 <= plen <= 128 && -1 <= i
    requires Carried(was, now, i + 1, (plen - 1) / 8, carry, Pow2(7 - (plen - 1) % 8))
    ensures Value(AddAt(now, i, carry)) == WrapAdd(Value(was), Pow2(128 - plen), Pow2(128))
    decreases i + 1
  {
    if i < 0 || carry == 0 {
      CarriedOut(was, now, i + 1, plen, carry);
    } else {
      CarriedStep(was, now, i, (plen - 1) / 8, carry, Pow2(7 - (plen - 1) % 8));
      AddAtValue(was, now[i := (now[i] as int + carry) % 256], i - 1, plen, (now[i] as int + carry) / 256);
    }
  }

  /** One step of a prefix pool: the bit numbered plen - 1 is worth 2^(128 - plen). */
  lemma {:induction false} NextPrefixValue(s: Address, plen: nat)
    requires 1 <= plen <= 128
    ensures Value(AddAt(s, (plen - 1) / 8, Pow2(7 - (plen - 1) % 8)))
         == WrapAdd(Value(s), Pow2(128 - plen), Pow2(128))
  {
    var b := (plen - 1) / 8;
    assert Value(s[b + 1..b + 1]) == 0;
    AddAtValue(s, s, b, plen, Pow2(7 - (plen - 1) % 8));
  }

  /** increment_prefix: steps to the next prefix of length plen by adding
      2^(128 - plen) modulo 2^128; a length outside 1..128 changes nothing. */
  method IncrementPrefix(ip: array<uint8>, plen: uint8)
    requires ip.Length == 16
    modifies ip
    ensures 1 <= plen <= 128 ==>
      Value(ip[..]) == WrapAdd(old(Value(ip[..])), Pow2(128 - plen), Pow2(128))
    ensures !(1 <= plen <= 128) ==> ip[..] == old(ip[..])
  {
    if plen == 0 || plen > 128 { return; }
    ghost var was := ip[..];
    var add: int := Pow2(7 - (plen - 1) % 8);
    var i: int := (plen - 1) / 8;
    ghost var goal := AddAt(was, i, add);
    while i >= 0 && add != 0
      invariant -1 <= i < 16 && 0 <= add
      invariant AddAt(ip[..], i, add) == goal
    {
      var val := ip[i] as int + add;
      ghost var next := ip[..][i := val % 256];
      ip[i] := val % 256;
      assert ip[..] == next;
      add := val / 256;
      i := i - 1;
    }
    NextPrefixValue(was, plen);
  }

  /** The byte with only its n highest bits kept: b & (uint8_t)(0xff << (8 - n)). */
  function HighBits(b: uint8, n: nat): nat
    requires n <= 8
  {
    Quot(b, Pow2(8 - n)) * Pow2(8 - n)
  }

  /** ipv6_in_subnet: whole bytes by memcmp, the odd bits under a mask. */
  predicate InSubnet(ip: Address, subnet: Address, plen: uint8)
  {
    && plen <= 128
    && var full, odd := plen / 8, plen % 8;
    && ip[..full] == subnet[..full]
    && (odd != 0 ==> HighBits(ip[full], odd) == HighBits(subnet[full], odd))
  }

  /** The number of the aligned 2^(128 - plen) block an address lies in. */
  function Block(ip: Address, plen: nat): nat
    requires plen <= 128
  {
    Quot(Value(ip), Pow2(128 - plen))
  }

  /** The same number read off the leading bytes and the odd bits. */
  function BlockDigits(ip: Address, full: nat, odd: nat): nat
    requires odd < 8 && 8 * full + odd <= 128
  {
    if odd == 0 then Value(ip[..full])
    else Value(ip[..full]) * Pow2(odd) + Quot(ip[full], Pow2(8 - odd))
  }

  lemma {:induction false} OddBits(odd: nat)
    requires odd <= 8
    ensures Pow2(odd) * Pow2(8 - odd) == 256
  {
    Pow2Add(odd, 8 - odd);
    Pow2Byte(0);
    assert odd + (8 - odd) == 8 * 1;
  }

  /** The quotient of v = h * 256 + x, followed by `low` below p, by e * p. */
  lemma {:induction false} NestedQuot(v: nat, h: nat, x: nat, w: nat, e: nat, low: nat, p: nat)
    requires v == h * 256 + x && 0 < e && w * e == 256 && low < p
    ensures e * p > 0 && Quot(v * p + low, e * p) == h * w + Quot(x, e)
  {
    var q := Quot(x, e);
    QuotBounds(x, e);
    var r := x - q * e;
    assert v == (h * w + q) * e + r by { Associate(h, w, e); Distribute(h * w, q, e); }
    assert v * p + low == (h * w + q) * (e * p) + (r * p + low) by {
      Distribute((h * w + q) * e, r, p);
      Associate(h * w + q, e, p);
    }
    assert r * p + low < e * p by { MulGap(r, e, p); }
    QuotUnique(h * w + q, r * p + low, e * p);
  }

  lemma {:induction false} OddBlock(ip: Address, full: nat, odd: nat)
    requires full < 16 && 0 < odd < 8
    ensures Quot(Value(ip), Pow2(8 - odd) * Pow2(8 * (15 - full))) == BlockDigits(ip, full, odd)
  {
    var head, tail := ip[..full + 1], ip[full + 1..];
    assert ip == head + tail && head[..full] == ip[..full];
    ValueConcat(head, tail);
    ValueBound(tail);
    OddBits(odd);
    NestedQuot(Value(head), Value(ip[..full]), ip[full], Pow2(odd), Pow2(8 - odd), Value(tail), Pow2(8 * (15 - full)));
  }

  lemma {:induction false} BlockIsLeadingBits(ip: Address, plen: nat)
    requires plen <= 128
    ensures Block(ip, plen) == BlockDigits(ip, plen / 8, plen % 8)
  {
    var full, odd := plen / 8, plen % 8;
    if odd == 0 {
      assert ip == ip[..full] + ip[full..];
      ValueConcat(ip[..full], ip[full..]);
      ValueBound(ip[full..]);
      QuotUnique(Value(ip[..full]), Value(ip[full..]), Pow2(128 - plen));
    } else {
      assert Pow2(128 - plen) == Pow2(8 - odd) * Pow2(8 * (15 - full)) by {
        Pow2Add(8 - odd, 8 * (15 - full));
        assert 8 - odd + 8 * (15 - full) == 128 - plen;
      }
      OddBlock(ip, full, odd);
    }
  }

  lemma {:induction false} LeadingBits(s: seq<uint8>, x: uint8, t: seq<uint8>, y: uint8, odd: nat)
    requires |s| == |t| && 0 < odd < 8
    ensures (s == t && HighBits(x, odd) == HighBits(y, odd))
       <==> Value(s) * Pow2(odd) + Quot(x, Pow2(8 - odd)) == Value(t) * Pow2(odd) + Quot(y, Pow2(8 - odd))
  {
    var e, w := Pow2(8 - odd), Pow2(odd);
    var q, r := Quot(x, e), Quot(y, e);
    OddBits(odd);
    QuotBelow(x, e, w);
    QuotBelow(y, e, w);
    if q < r { MulGap(q, r, e); } else if r < q { MulGap(r, q, e); }
    LeadingDigitDecides(Value(s), Value(t), w, q, r);
    if Value(s) == Value(t) { ValueInjective(s, t); }
  }

  lemma {:induction false} QuotBelow(x: nat, e: nat, w: nat)
    requires 0 < e && x < w * e
    ensures Quot(x, e) < w
  {
    QuotBounds(x, e);
    if w < Quot(x, e) { MulGap(w, Quot(x, e), e); }
  }

  /** Mask comparison is equality of block numbers. */
  lemma {:induction false} InSubnetIsBlock(ip: Address, subnet: Address, plen: uint8)
    requires plen <= 128
    ensures InSubnet(ip, subnet, plen) <==> Block(ip, plen) == Block(subnet, plen)
  {
    var full, odd := plen / 8, plen % 8;
    BlockIsLeadingBits(ip, plen);
    BlockIsLeadingBits(subnet, plen);
    if odd == 0 {
      if Value(ip[..full]) == Value(subnet[..full]) { ValueInjective(ip[..full], subnet[..full]); }
    } else {
      LeadingBits(ip[..full], ip[full], subnet[..full], subnet[full], odd);
    }
  }

  /** Blocks are numbered in the order of their addresses. */
  lemma {:induction false} BlockMonotone(a: Address, b: Address, plen: nat)
    requires plen <= 128 && Value(a) <= Value(b)
    ensures Block(a, plen) <= Block(b, plen)
  {
    var d := Pow2(128 - plen);
    QuotBounds(Value(a), d);
    QuotBounds(Value(b), d);
    if Block(b, plen) < Block(a, plen) { MulGap(Block(b, plen), Block(a, plen), d); }
  }

  /** Stepping a prefix by its own size always lands in the next block, whether or
      not the start was aligned. */
  lemma {:induction false} NextBlock(a: Address, b: Address, plen: nat, k: nat)
    requires plen <= 128 && Value(b) == Value(a) + k * Pow2(128 - plen)
    ensures Block(b, plen) == Block(a, plen) + k
  {
    var d := Pow2(128 - plen);
    var q := Quot(Value(a), d);
    QuotBounds(Value(a), d);
    Distribute(q, k, d);
    QuotUnique(q + k, Value(a) - q * d, d);
  }
}
