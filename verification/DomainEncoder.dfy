/** The repository's second name encoder, encode_domain_name in
    DHCP_Server/DHCPv6/sources/utilsv6.c, and how it compares with the first. */
module DomainEncoder {
  import opened Bytes
  import opened DnsName

  /** The labels without a last empty one. */
  function Trimmed(ls: seq<Label>): seq<Label>
  {
    if ls != [] && ls[|ls| - 1] == [] then ls[..|ls| - 1] else ls
  }

  /** The text without one trailing dot. */
  function Undotted(t: Text): Text
  {
    if t != [] && t[|t| - 1] == DOT then t[..|t| - 1] else t
  }

  /** The first 255 characters. */
  function Clipped(t: Text): Text
  {
    if |t| > 255 then t[..255] else t
  }

  /** What encode_domain_name makes of a text, given room. */
  function DomainEncoded(t: Text): seq<uint8>
  {
    Wire(Trimmed(Split(Undotted(Clipped(t)))))
  }

  lemma {:induction false} LastLabelEmpty(t: Text)
    ensures Split(t)[|Split(t)| - 1] == [] <==> t == [] || t[|t| - 1] == DOT
  {
  }

  /** The two encoders agree on a text both can take if and only if it is not empty and
      does not end in a dot. */
  lemma {:induction false} EncodersAgree(t: Text)
    requires |t| <= 254
    ensures DomainEncoded(t) == Encoded(t) <==> t != [] && t[|t| - 1] != DOT
  {
    var u := Undotted(t);
    LastLabelEmpty(u);
    EncodedSize(t);
    EncodedSize(u);
    if u != t || u == [] {
      TrimmedIsNoLonger(Split(u));
    }
  }

  lemma {:induction false} TrimmedIsNoLonger(ls: seq<Label>)
    ensures |Wire(Trimmed(ls))| <= |Wire(ls)| && (ls != [] && ls[|ls| - 1] == [] ==> |Wire(Trimmed(ls))| < |Wire(ls)|)
  {
    if ls != [] && ls[|ls| - 1] == [] {
      assert ls == ls[..|ls| - 1] + [[]];
      BodyLast(ls[..|ls| - 1], []);
    }
  }

  /** A stretch without dots is one label. */
  lemma {:induction false} SplitRun(d: Text, s: nat, e: nat, done: seq<Label>)
    requires s <= e <= |d| && AtLabel(d, s, done, []) && forall i :: s <= i < e ==> d[i] != DOT
    ensures AtLabel(d, e, done, d[s..e])
    decreases e
  {
    if s < e {
      SplitRun(d, s, e - 1, done);
      NextInLabel(d, e - 1, done, d[s..e - 1]);
      assert d[s..e] == d[s..e - 1] + [d[e - 1]];
    } else {
      assert d[s..e] == [];
    }
  }

  /** strchr for the next dot; the end of the text if there is none. */
  method FindDot(d: Text, s: nat) returns (e: nat)
    requires s <= |d|
    ensures s <= e <= |d| && (forall i :: s <= i < e ==> d[i] != DOT) && (e < |d| ==> d[e] == DOT)
  {
    e := s;
    while e < |d| && d[e] != DOT
      invariant s <= e <= |d| && forall i :: s <= i < e ==> d[i] != DOT
    {
      e := e + 1;
    }
  }

  /** All but the last label of a beginning are labels of the whole. */
  lemma {:induction false} SplitGrows(d: Text, e: nat, n: nat)
    requires e <= n <= |d|
    ensures |SplitTo(d, e)| <= |SplitTo(d, n)|
    ensures SplitTo(d, n)[..|SplitTo(d, e)| - 1] == SplitTo(d, e)[..|SplitTo(d, e)| - 1]
    decreases n
  {
    if e < n {
      SplitGrows(d, e, n - 1);
      var k := |SplitTo(d, e)| - 1;
      assert SplitTo(d, n)[..k] == SplitTo(d, n - 1)[..k];
    }
  }

  /** The next label of the text, starting at s and ending at e. */
  ghost predicate NextLabel(d: Text, s: nat, e: nat, done: seq<Label>)
  {
    && s < |d| && s <= e <= |d| && AtLabel(d, s, done, [])
    && (forall i :: s <= i < e ==> d[i] != DOT) && (e < |d| ==> d[e] == DOT)
  }

  lemma {:induction false} LastLabel(d: Text, s: nat, done: seq<Label>)
    requires NextLabel(d, s, |d|, done)
    ensures Trimmed(Split(d)) == done + [d[s..|d|]]
  {
    SplitRun(d, s, |d|, done);
  }

  lemma {:induction false} DottedLabel(d: Text, s: nat, e: nat, done: seq<Label>)
    requires NextLabel(d, s, e, done) && e < |d|
    ensures AtLabel(d, e + 1, done + [d[s..e]], [])
  {
    SplitRun(d, s, e, done);
    NextAfterDot(d, e, done, d[s..e]);
  }

  lemma {:induction false} DottedLabelIsPrefix(d: Text, e: nat, ls: seq<Label>)
    requires AtLabel(d, e, ls, [])
    ensures ls <= Trimmed(Split(d))
  {
    SplitGrows(d, e, |d|);
    assert (ls + [[]])[..|ls|] == ls;
    assert Split(d)[..|ls|] == ls;
  }

  /** Each label found is the next one of the encoding. */
  lemma {:induction false} NextLabelIsLabel(d: Text, s: nat, e: nat, done: seq<Label>)
    requires NextLabel(d, s, e, done)
    ensures done + [d[s..e]] <= Trimmed(Split(d))
  {
    if e < |d| {
      DottedLabel(d, s, e, done);
      DottedLabelIsPrefix(d, e + 1, done + [d[s..e]]);
    } else {
      LastLabel(d, s, done);
    }
  }

  lemma {:induction false} BodyPrefix(a: seq<Label>, b: seq<Label>)
    requires a <= b
    ensures |Body(a)| <= |Body(b)|
  {
    assert b == a + b[|a|..];
    BodyConcat(a, b[|a|..]);
  }

  /** encode_domain_name: the encoding if the buffer has room for it, else -1. */
  method EncodeDomain(domain: Text, buf: array<uint8>) returns (r: int)
    modifies buf
    ensures r == -1 <==> |DomainEncoded(domain)| > buf.Length
    ensures r != -1 ==> 0 <= r <= buf.Length && buf[..r] == DomainEncoded(domain)
  {
    if buf.Length == 0 {
      return -1;
    }
    var d := Undotted(Clipped(domain));
    ghost var all := Trimmed(Split(d));
    var s: nat, pos: nat := 0, 0;
    ghost var done: seq<Label> := [];
    var more := true;
    assert buf[..0] == [];
    while more && s < |d|
      invariant s <= |d| && pos < buf.Length && buf[..pos] == Body(done)
      invariant more ==> AtLabel(d, s, done, [])
      invariant !more ==> done == all
      decreases more, |d| - s
    {
      var e := FindDot(d, s);
      var l := d[s..e];
      NextLabelIsLabel(d, s, e, done);
      BodyLast(done, l);
      if pos + 1 + |l| >= buf.Length {
        BodyPrefix(done + [l], all);
        return -1;
      }
      pos := PutLabel(buf, pos, l);
      if e == |d| {
        LastLabel(d, s, done);
        more := false;
      } else {
        DottedLabel(d, s, e, done);
        s := e + 1;
      }
      done := done + [l];
    }
    if more {
      assert (done + [[]])[..|done|] == done;
    }
    pos := Write(buf, pos, [0]);
    return pos;
  }
}
