/** Domain names as text and as labels on the wire (section 4.1 of RFC 1035): the
    converters of DNS_Server/utils/string_utils.c, and the size loop of
    DNS_Server/sources/zone_manager.c. Characters are bytes. */
module DnsName {
  import opened Bytes

  const DOT: uint8 := 46

  type Label = seq<uint8>

  type Text = seq<uint8>

  /* ---------- text and labels ---------- */

  /** One more character: a dot opens a label, any other lengthens the last one. */
  function Extended(ls: seq<Label>, c: uint8): (r: seq<Label>)
    requires ls != []
    ensures r != []
  {
    if c == DOT then ls + [[]] else ls[..|ls| - 1] + [ls[|ls| - 1] + [c]]
  }

  /** The pieces of the first n characters between their dots; always at least one. */
  function SplitTo(t: Text, n: nat): (ls: seq<Label>)
    requires n <= |t|
    ensures ls != []
  {
    if n == 0 then [[]] else Extended(SplitTo(t, n - 1), t[n - 1])
  }

  /** The pieces of a text between its dots. */
  function Split(t: Text): (ls: seq<Label>)
    ensures ls != []
  {
    SplitTo(t, |t|)
  }

  lemma {:induction false} ExtendedLast(done: seq<Label>, l: Label, c: uint8)
    ensures Extended(done + [l], c) == if c == DOT then done + [l] + [[]] else done + [l + [c]]
  {
    assert (done + [l])[..|done|] == done;
  }

  /** The first e characters of the text are the labels done and, so far, l. */
  ghost predicate AtLabel(d: Text, e: nat, done: seq<Label>, l: Label)
  {
    e <= |d| && SplitTo(d, e) == done + [l]
  }

  /** One character further on. */
  lemma {:induction false} NextInLabel(d: Text, e: nat, done: seq<Label>, l: Label)
    requires AtLabel(d, e, done, l) && e < |d| && d[e] != DOT
    ensures AtLabel(d, e + 1, done, l + [d[e]])
  {
    ExtendedLast(done, l, d[e]);
  }

  lemma {:induction false} NextAfterDot(d: Text, e: nat, done: seq<Label>, l: Label)
    requires AtLabel(d, e, done, l) && e < |d| && d[e] == DOT
    ensures AtLabel(d, e + 1, done + [l], [])
  {
    ExtendedLast(done, l, d[e]);
  }

  lemma {:induction false} SplitAgrees(s: Text, t: Text, n: nat)
    requires n <= |s| && n <= |t| && forall i :: 0 <= i < n ==> s[i] == t[i]
    ensures SplitTo(s, n) == SplitTo(t, n)
  {
    if n > 0 {
      SplitAgrees(s, t, n - 1);
    }
  }

  function Join(ls: seq<Label>): Text
  {
    if ls == [] then [] else if |ls| == 1 then ls[0] else Join(ls[..|ls| - 1]) + [DOT] + ls[|ls| - 1]
  }

  lemma {:induction false} JoinLast(ls: seq<Label>, l: Label)
    requires ls != []
    ensures Join(ls + [l]) == Join(ls) + [DOT] + l
  {
    assert (ls + [l])[..|ls|] == ls;
  }

  lemma {:induction false} JoinExtends(ls: seq<Label>, c: uint8)
    requires ls != []
    ensures Join(ls[..|ls| - 1] + [ls[|ls| - 1] + [c]]) == Join(ls) + [c]
  {
    var n := |ls| - 1;
    if n > 0 {
      JoinLast(ls[..n], ls[n] + [c]);
      assert Join(ls[..n]) + [DOT] + (ls[n] + [c]) == Join(ls[..n]) + [DOT] + ls[n] + [c];
    }
  }

  lemma {:induction false} JoinExtended(ls: seq<Label>, c: uint8)
    requires ls != []
    ensures Join(Extended(ls, c)) == Join(ls) + [c]
  {
    if c == DOT {
      JoinLast(ls, []);
      assert Join(ls) + [DOT] + [] == Join(ls) + [DOT];
    } else {
      JoinExtends(ls, c);
    }
  }

  lemma {:induction false} JoinSplitTo(t: Text, n: nat)
    requires n <= |t|
    ensures Join(SplitTo(t, n)) == t[..n]
  {
    if n > 0 {
      JoinSplitTo(t, n - 1);
      JoinExtended(SplitTo(t, n - 1), t[n - 1]);
      assert t[..n] == t[..n - 1] + [t[n - 1]];
    }
  }

  /** Joining the pieces gives the text back. */
  lemma {:induction false} JoinSplit(t: Text)
    ensures Join(Split(t)) == t
  {
    JoinSplitTo(t, |t|);
    assert t[..|t|] == t;
  }

  /* ---------- labels on the wire ---------- */

  /** The labels, each after its length in one byte. */
  function Body(ls: seq<Label>): seq<uint8>
    decreases |ls|
  {
    if ls == [] then [] else [|ls[0]| % 256] + ls[0] + Body(ls[1..])
  }

  function Wire(ls: seq<Label>): seq<uint8>
  {
    Body(ls) + [0]
  }

  /** What text_to_dns_binary makes of a text. */
  function Encoded(t: Text): seq<uint8>
  {
    Wire(Split(t))
  }

  lemma {:induction false} BodyConcat(a: seq<Label>, b: seq<Label>)
    ensures Body(a + b) == Body(a) + Body(b)
    decreases |a|
  {
    if a == [] {
      assert a + b == b;
    } else {
      BodyConcat(a[1..], b);
      var first := [|a[0]| % 256] + a[0];
      assert (a + b)[0] == a[0] && (a + b)[1..] == a[1..] + b;
      assert Body(a + b) == first + Body(a[1..] + b);
      assert first + (Body(a[1..]) + Body(b)) == first + Body(a[1..]) + Body(b);
    }
  }

  lemma {:induction false} BodyLast(ls: seq<Label>, l: Label)
    ensures Body(ls + [l]) == Body(ls) + [|l| % 256] + l
  {
    BodyConcat(ls, [l]);
    assert [l][1..] == [];
    assert Body([l]) == [|l| % 256] + l;
  }

  lemma {:induction false} BodySize(ls: seq<Label>)
    requires ls != []
    ensures |Body(ls)| == |Join(ls)| + 1
  {
    var n := |ls| - 1;
    BodyLast(ls[..n], ls[n]);
    assert ls == ls[..n] + [ls[n]];
    if n > 0 {
      BodySize(ls[..n]);
    } else {
      assert ls[..0] == [];
    }
  }

  /** An encoded name takes two bytes more than its text. */
  lemma {:induction false} EncodedSize(t: Text)
    ensures |Encoded(t)| == |t| + 2
  {
    BodySize(Split(t));
    JoinSplit(t);
  }

  method PutLabel(buf: array<uint8>, pos: nat, l: Label) returns (end: nat)
    requires pos + 1 + |l| <= buf.Length
    modifies buf
    ensures end == pos + 1 + |l| && buf[..end] == old(buf[..pos]) + [|l| % 256] + l
  {
    end := Write(buf, pos, [|l| % 256]);
    end := Write(buf, end, l);
  }

  lemma {:induction false} LastLabelEmptyAt(d: Text, e: nat, done: seq<Label>, l: Label)
    requires AtLabel(d, e, done, l) && e > 0 && d[e - 1] == DOT
    ensures l == []
  {
    var ls := SplitTo(d, e - 1);
    assert (ls + [[]])[|ls|] == (done + [l])[|done|];
  }

  /** The loop of text_to_dns_binary, which writes a label at every dot. */
  method PutLabels(temp: Text, out: array<uint8>) returns (pos: nat, ghost done: seq<Label>)
    requires |temp| <= out.Length
    modifies out
    ensures pos <= |temp| && AtLabel(temp, |temp|, done, temp[pos..|temp|]) && out[..pos] == Body(done)
  {
    pos, done := 0, [];
    ghost var l: Label := [];
    for i := 0 to |temp|
      invariant pos <= i && l == temp[pos..i] && AtLabel(temp, i, done, l) && out[..pos] == Body(done)
    {
      if temp[i] == DOT {
        NextAfterDot(temp, i, done, l);
        BodyLast(done, l);
        pos := PutLabel(out, pos, temp[pos..i]);
        assert pos == i + 1;
        done, l := done + [l], [];
      } else {
        NextInLabel(temp, i, done, l);
        assert temp[pos..i + 1] == temp[pos..i] + [temp[i]];
        l := l + [temp[i]];
      }
    }
  }

  /** text_to_dns_binary; its copy of the text has room for 254 characters. */
  method TextToBinary(host: Text, out: array<uint8>) returns (pos: nat)
    requires |host| <= 254 && |host| + 2 <= out.Length
    modifies out
    ensures pos <= out.Length && out[..pos] == Encoded(host)
  {
    var temp := host + [DOT];
    ghost var done;
    pos, done := PutLabels(temp, out);
    LastLabelEmptyAt(temp, |temp|, done, temp[pos..|temp|]);
    SplitDotted(host, done);
    pos := Write(out, pos, [0]);
  }

  lemma {:induction false} SplitDotted(host: Text, done: seq<Label>)
    requires AtLabel(host + [DOT], |host| + 1, done, [])
    ensures Split(host) == done
  {
    SplitAgrees(host + [DOT], host, |host|);
    assert (done + [[]])[..|done|] == (Split(host) + [[]])[..|Split(host)|];
  }

  /* ---------- reading names ---------- */

  /** How a name is spelt in a packet: labels and compression pointers up to the end. */
  datatype Name = End | Lab(piece: Label, rest: Name) | Jump(target: nat, rest: Name)

  /** The bytes of buf from at on spell n. A cyclic chain of pointers spells nothing. */
  ghost predicate Spelt(buf: seq<uint8>, at: nat, n: Name)
    decreases n
  {
    at < |buf| &&
    match n
    case End => buf[at] == 0
    case Lab(l, rest) =>
      1 <= |l| == buf[at] < 192 && at + 1 + |l| <= |buf| && buf[at + 1..at + 1 + |l|] == l
      && Spelt(buf, at + 1 + |l|, rest)
    case Jump(target, rest) =>
      at + 1 < |buf| && buf[at] >= 192 && target == (buf[at] as int - 192) * 256 + buf[at + 1]
      && Spelt(buf, target, rest)
  }

  /** A position spells at most one name. */
  lemma {:induction false} SpeltOnce(buf: seq<uint8>, at: nat, n: Name, m: Name)
    requires Spelt(buf, at, n) && Spelt(buf, at, m)
    ensures n == m
    decreases n
  {
    match n
    case End =>
    case Lab(l, rest) => SpeltOnce(buf, at + 1 + |l|, rest, m.rest);
    case Jump(target, rest) => SpeltOnce(buf, target, rest, m.rest);
  }

  /* ---------- when reading ends ---------- */

  /** Where the decoder's loop goes from p; None where it ends or leaves the buffer. */
  function Next(buf: seq<uint8>, p: nat): Option<nat>
  {
    if p >= |buf| || buf[p] == 0 then None
    else if buf[p] >= 192 then (if p + 1 < |buf| then Some((buf[p] as int - 192) * 256 + buf[p + 1]) else None)
    else if p + 1 + buf[p] <= |buf| then Some(p + 1 + buf[p]) else None
  }

  /** Where it is after k rounds from at. */
  function After(buf: seq<uint8>, at: nat, k: nat): Option<nat>
    decreases k
  {
    if k == 0 then Some(at)
    else
      var p := Next(buf, at);
      if p.None? then None else After(buf, p.value, k - 1)
  }

  /** It meets the zero that ends a name after exactly k rounds. */
  predicate EndsAfter(buf: seq<uint8>, at: nat, k: nat)
  {
    var p := After(buf, at, k);
    p.Some? && p.value < |buf| && buf[p.value] == 0
  }

  ghost function Rounds(n: Name): nat
  {
    if n.End? then 0 else 1 + Rounds(n.rest)
  }

  /** A name is spelt exactly where the loop ends, after as many rounds as it has
      labels and pointers. */
  lemma {:induction false} SpeltEnds(buf: seq<uint8>, at: nat, n: Name)
    requires Spelt(buf, at, n)
    ensures EndsAfter(buf, at, Rounds(n))
    decreases n
  {
    match n
    case End =>
    case Lab(l, rest) => SpeltEnds(buf, at + 1 + |l|, rest);
    case Jump(target, rest) => SpeltEnds(buf, target, rest);
  }

  lemma {:induction false} EndsSpelt(buf: seq<uint8>, at: nat, k: nat) returns (n: Name)
    requires EndsAfter(buf, at, k)
    ensures Spelt(buf, at, n)
    decreases k
  {
    if k == 0 {
      n := End;
    } else {
      var rest := EndsSpelt(buf, Next(buf, at).value, k - 1);
      n := if buf[at] >= 192 then Jump(Next(buf, at).value, rest) else Lab(buf[at + 1..at + 1 + buf[at]], rest);
    }
  }

  /** The places the loop passes on its way to the end of a name. */
  ghost function Places(buf: seq<uint8>, at: nat, n: Name): set<nat>
    requires Spelt(buf, at, n)
    decreases n
  {
    {at} + match n
           case End => {}
           case Lab(l, rest) => Places(buf, at + 1 + |l|, rest)
           case Jump(target, rest) => Places(buf, target, rest)
  }

  lemma {:induction false} PlaceSpells(buf: seq<uint8>, at: nat, n: Name, p: nat) returns (m: Name)
    requires Spelt(buf, at, n) && p in Places(buf, at, n)
    ensures Spelt(buf, p, m) && Rounds(m) <= Rounds(n)
    decreases n
  {
    if p == at {
      m := n;
    } else {
      match n
      case Lab(l, rest) => m := PlaceSpells(buf, at + 1 + |l|, rest, p);
      case Jump(target, rest) => m := PlaceSpells(buf, target, rest, p);
    }
  }

  /** No place is passed twice. */
  lemma {:induction false} NotAgain(buf: seq<uint8>, at: nat, n: Name, next: nat)
    requires Spelt(buf, at, n) && !n.End? && Spelt(buf, next, n.rest)
    ensures at !in Places(buf, next, n.rest)
  {
    if at in Places(buf, next, n.rest) {
      var m := PlaceSpells(buf, next, n.rest, at);
      SpeltOnce(buf, at, n, m);
    }
  }

  lemma {:induction false} PlacesCount(buf: seq<uint8>, at: nat, n: Name)
    requires Spelt(buf, at, n)
    ensures |Places(buf, at, n)| == Rounds(n) + 1 && forall p :: p in Places(buf, at, n) ==> p < |buf|
    decreases n
  {
    match n
    case End =>
    case Lab(l, rest) =>
      PlacesCount(buf, at + 1 + |l|, rest);
      NotAgain(buf, at, n, at + 1 + |l|);
      OneMorePlace(Places(buf, at + 1 + |l|, rest), at, |buf|);
    case Jump(target, rest) =>
      PlacesCount(buf, target, rest);
      NotAgain(buf, at, n, target);
      OneMorePlace(Places(buf, target, rest), at, |buf|);
  }

  lemma {:induction false} OneMorePlace(s: set<nat>, x: nat, n: nat)
    requires x !in s && x < n && forall p :: p in s ==> p < n
    ensures |{x} + s| == |s| + 1 && forall p :: p in {x} + s ==> p < n
  {
  }

  lemma {:induction false} Below(s: set<nat>, n: nat)
    requires forall p :: p in s ==> p < n
    ensures |s| <= n
  {
    if n == 0 {
      assert s == {};
    } else {
      Below(s - {n - 1}, n - 1);
    }
  }

  ghost predicate SpellsName(buf: seq<uint8>, at: nat)
  {
    exists n :: Spelt(buf, at, n)
  }

  /** Whether the bytes at a place spell a name at all, so that decoding it ends, shows
      within as many rounds as the packet has bytes: a walk still going then never
      ends. */
  lemma {:induction false} DecodingEnds(buf: seq<uint8>, at: nat)
    ensures SpellsName(buf, at) <==> exists k :: 0 <= k < |buf| && EndsAfter(buf, at, k)
  {
    if SpellsName(buf, at) {
      var n :| Spelt(buf, at, n);
      SpeltEnds(buf, at, n);
      PlacesCount(buf, at, n);
      Below(Places(buf, at, n), |buf|);
      assert Rounds(n) < |buf| && EndsAfter(buf, at, Rounds(n));
    } else {
      forall k | 0 <= k < |buf| ensures !EndsAfter(buf, at, k) {
        if EndsAfter(buf, at, k) {
          var n := EndsSpelt(buf, at, k);
        }
      }
    }
  }

  lemma {:induction false} AfterSum(buf: seq<uint8>, at: nat, j: nat, k: nat)
    requires After(buf, at, j).Some?
    ensures After(buf, at, j + k) == After(buf, After(buf, at, j).value, k)
    decreases j
  {
    if j > 0 {
      AfterSum(buf, Next(buf, at).value, j - 1, k);
    }
  }

  /** A walk that comes back to where it was spells nothing. */
  lemma {:induction false} CycleSpellsNothing(buf: seq<uint8>, at: nat, k: nat, n: Name)
    requires k > 0 && After(buf, at, k) == Some(at)
    ensures !Spelt(buf, at, n)
  {
    if Spelt(buf, at, n) {
      SpeltEnds(buf, at, n);
      RoundTheCycle(buf, at, k, Rounds(n));
    }
  }

  lemma {:induction false} RoundTheCycle(buf: seq<uint8>, at: nat, k: nat, j: nat)
    requires k > 0 && After(buf, at, k) == Some(at)
    ensures !EndsAfter(buf, at, j)
    decreases j
  {
    if EndsAfter(buf, at, j) {
      if j < k {
        AfterSum(buf, at, j, k - j);
      } else {
        AfterSum(buf, at, k, j - k);
        RoundTheCycle(buf, at, k, j - k);
      }
    }
  }

  /* ---------- what is read ---------- */

  ghost function LabelsOf(n: Name): seq<Label>
  {
    match n
    case End => []
    case Lab(l, rest) => [l] + LabelsOf(rest)
    case Jump(_, rest) => LabelsOf(rest)
  }

  /** How many bytes the name takes where it stands: up to its end or through its first
      pointer. */
  ghost function SizeOf(n: Name): nat
  {
    match n
    case End => 1
    case Lab(l, rest) => |l| + 1 + SizeOf(rest)
    case Jump(_, _) => 2
  }

  /** Labels as text, "." for none. */
  function Shown(ls: seq<Label>): Text
  {
    if ls == [] then [DOT] else Join(ls)
  }

  /** Every label with a dot behind it. */
  function Dotted(ls: seq<Label>): Text
  {
    if ls == [] then [] else Dotted(ls[..|ls| - 1]) + ls[|ls| - 1] + [DOT]
  }

  lemma {:induction false} DottedIsJoin(ls: seq<Label>)
    requires ls != []
    ensures Dotted(ls) == Join(ls) + [DOT]
  {
    var n := |ls| - 1;
    if n > 0 {
      DottedIsJoin(ls[..n]);
    } else {
      assert ls[..0] == [];
      assert Dotted(ls[..0]) + ls[0] + [DOT] == ls[0] + [DOT];
    }
  }

  lemma {:induction false} OneMoreLabel(done: seq<Label>, m: Name)
    requires m.Lab?
    ensures done + LabelsOf(m) == done + [m.piece] + LabelsOf(m.rest)
    ensures Dotted(done + [m.piece]) == Dotted(done) + m.piece + [DOT]
  {
    assert (done + [m.piece])[..|done|] == done;
  }

  /** dns_binary_to_text. */
  method BinaryToText(buf: seq<uint8>, at: nat, ghost n: Name) returns (text: Text, count: nat)
    requires Spelt(buf, at, n)
    ensures text == Shown(LabelsOf(n)) && count == SizeOf(n)
  {
    var p: nat, jumped := at, false;
    count, text := 1, [];
    ghost var m, done := n, [];
    assert [] + LabelsOf(n) == LabelsOf(n);
    while buf[p] != 0
      invariant Spelt(buf, p, m) && LabelsOf(n) == done + LabelsOf(m) && text == Dotted(done)
      invariant SizeOf(n) == if jumped then count else count - 1 + SizeOf(m)
      decreases m
    {
      if buf[p] >= 192 {
        if !jumped {
          count := count + 1;
        }
        jumped := true;
        p := (buf[p] as int - 192) * 256 + buf[p + 1];
      } else {
        var len := buf[p];
        text := text + buf[p + 1..p + 1 + len] + [DOT];
        if !jumped {
          count := count + len + 1;
        }
        OneMoreLabel(done, m);
        done := done + [m.piece];
        p := p + len + 1;
      }
      m := m.rest;
    }
    assert done + [] == done;
    if |text| > 0 {
      DottedIsJoin(done);
      text := text[..|text| - 1];
    } else {
      text := [DOT];
    }
  }

  /* ---------- encoding and decoding ---------- */

  /** The labels in front of a name. */
  ghost function Then(ls: seq<Label>, n: Name): Name
    decreases |ls|
  {
    if ls == [] then n else Lab(ls[0], Then(ls[1..], n))
  }

  ghost predicate Short(ls: seq<Label>)
  {
    forall i :: 0 <= i < |ls| ==> |ls[i]| < 192
  }

  ghost predicate NonEmpty(ls: seq<Label>)
  {
    forall i :: 0 <= i < |ls| ==> ls[i] != []
  }

  lemma {:induction false} ThenLabels(ls: seq<Label>, n: Name)
    ensures LabelsOf(Then(ls, n)) == ls + LabelsOf(n)
    decreases |ls|
  {
    if ls == [] {
      assert ls + LabelsOf(n) == LabelsOf(n);
    } else {
      ThenLabels(ls[1..], n);
      assert [ls[0]] + (ls[1..] + LabelsOf(n)) == ls + LabelsOf(n);
    }
  }

  /** A byte, a stretch l and a stretch r written one after another. */
  lemma {:induction false} ThreeParts(buf: seq<uint8>, at: nat, x: uint8, l: seq<uint8>, r: seq<uint8>)
    requires at + 1 + |l| + |r| <= |buf| && buf[at..at + 1 + |l| + |r|] == [x] + l + r
    ensures buf[at] == x && buf[at + 1..at + 1 + |l|] == l && buf[at + 1 + |l|..at + 1 + |l| + |r|] == r
  {
    var n := 1 + |l| + |r|;
    var here := buf[at..at + n];
    assert buf[at] == here[0];
    SliceOfSlice(buf, at, at + n, 1, 1 + |l|);
    SliceOfSlice(buf, at, at + n, 1 + |l|, n);
    assert here[1..1 + |l|] == l && here[1 + |l|..n] == r;
  }

  lemma {:induction false} LabelSpells(buf: seq<uint8>, at: nat, l: Label, rest: Name)
    requires 1 <= |l| < 192 && at + 1 + |l| <= |buf| && buf[at] == |l| && buf[at + 1..at + 1 + |l|] == l
    requires Spelt(buf, at + 1 + |l|, rest)
    ensures Spelt(buf, at, Lab(l, rest))
  {
  }

  /** Labels written at some place in a buffer, with a name right behind them, spell the
      labels followed by that name. */
  lemma {:induction false} RunSpells(buf: seq<uint8>, at: nat, ls: seq<Label>, n: Name)
    requires Short(ls) && NonEmpty(ls)
    requires at + |Body(ls)| <= |buf| && buf[at..at + |Body(ls)|] == Body(ls) && Spelt(buf, at + |Body(ls)|, n)
    ensures Spelt(buf, at, Then(ls, n)) && SizeOf(Then(ls, n)) == |Body(ls)| + SizeOf(n)
    decreases |ls|
  {
    if ls != [] {
      var l, rest := ls[0], ls[1..];
      var next := at + 1 + |l|;
      assert l != [] && |l| < 192;
      assert at + |Body(ls)| == next + |Body(rest)|;
      ThreeParts(buf, at, |l|, l, Body(rest));
      RunSpells(buf, next, rest, n);
      LabelSpells(buf, at, l, Then(rest, n));
    }
  }

  /** The name that the encoding of a text spells: its labels up to the first empty
      one. */
  ghost function Head(ls: seq<Label>): (hs: seq<Label>)
    ensures |hs| <= |ls| && hs == ls[..|hs|] && NonEmpty(hs) && (|hs| < |ls| ==> ls[|hs|] == [])
    decreases |ls|
  {
    if ls == [] || ls[0] == [] then [] else
      var hs := Head(ls[1..]);
      assert [ls[0]] + hs == ls[..|hs| + 1];
      [ls[0]] + hs
  }

  /** Behind the last label that is read stands a zero. */
  lemma {:induction false} HeadThenZero(ls: seq<Label>)
    ensures |Body(Head(ls))| < |Wire(ls)| && Wire(ls)[..|Body(Head(ls))|] == Body(Head(ls))
      && Wire(ls)[|Body(Head(ls))|] == 0
  {
    var hs := Head(ls);
    var rest := ls[|hs|..];
    assert ls == hs + rest;
    BodyConcat(hs, rest);
    if rest != [] {
      assert rest[0] == [] && Body(rest)[0] == 0;
    }
  }

  lemma {:induction false} EncodedSpells(t: Text)
    requires Short(Split(t))
    ensures var n := Then(Head(Split(t)), End); Spelt(Encoded(t), 0, n) && SizeOf(n) == |Body(Head(Split(t)))| + 1
  {
    var hs, buf := Head(Split(t)), Encoded(t);
    var n := |Body(hs)|;
    HeadThenZero(Split(t));
    assert Spelt(buf, n, End) && buf[0..n] == buf[..n];
    assert Short(hs);
    RunSpells(buf, 0, hs, End);
  }

  lemma {:induction false} HeadIsWhole(ls: seq<Label>)
    requires ls != []
    ensures Shown(Head(ls)) == Join(ls) <==> NonEmpty(ls) || Join(ls) == [DOT]
  {
    var hs := Head(ls);
    if NonEmpty(ls) {
      assert hs == ls;
    } else if hs != [] {
      JoinShorter(ls, |hs|);
      assert |hs| == 1 ==> |Join(hs)| >= 1;
      JoinIsNotRoot(hs);
    }
  }

  lemma {:induction false} JoinIsNotRoot(hs: seq<Label>)
    requires hs != [] && NonEmpty(hs)
    ensures |Join(hs)| >= 1
  {
    var n := |hs| - 1;
    if n > 0 {
      assert hs[n] != [];
    }
  }

  /** Decoding an encoded text gives it back, with a count of its length plus two, when
      no label is empty; and with labels short enough for the wire only then, but for
      the root, whose count is 1. */
  lemma {:induction false} NameRoundTrip(t: Text)
    requires Short(Split(t))
    ensures var n := Then(Head(Split(t)), End);
      Spelt(Encoded(t), 0, n) && (Shown(LabelsOf(n)) == t <==> NonEmpty(Split(t)) || t == [DOT])
    ensures NonEmpty(Split(t)) ==> SizeOf(Then(Head(Split(t)), End)) == |t| + 2
    ensures t == [DOT] ==> SizeOf(Then(Head(Split(t)), End)) == 1
  {
    var hs := Head(Split(t));
    EncodedSpells(t);
    ThenLabels(hs, End);
    assert hs + [] == hs;
    JoinSplit(t);
    HeadIsWhole(Split(t));
    EncodedSize(t);
    assert NonEmpty(Split(t)) ==> hs == Split(t);
    if t == [DOT] { assert SplitTo(t, 0) == [[]] && Split(t)[0] == []; }
  }

  lemma {:induction false} JoinShorter(ls: seq<Label>, n: nat)
    requires 0 < n < |ls|
    ensures |Join(ls[..n])| < |Join(ls)|
  {
    var k := |ls| - 1;
    if n < k {
      assert ls[..k][..n] == ls[..n];
      JoinShorter(ls[..k], n);
    }
  }

  /** A run of labels that ends in a pointer to a well-formed name reads as the labels
      followed by that name's, and takes its own bytes and the pointer's two. */
  lemma {:induction false} PointerReads(buf: seq<uint8>, at: nat, ls: seq<Label>, target: nat, n: Name)
    requires Short(ls) && NonEmpty(ls)
    requires at + |Body(ls)| + 1 < |buf| && buf[at..at + |Body(ls)|] == Body(ls)
    requires buf[at + |Body(ls)|] >= 192
      && target == (buf[at + |Body(ls)|] as int - 192) * 256 + buf[at + |Body(ls)| + 1]
    requires Spelt(buf, target, n)
    ensures var m := Then(ls, Jump(target, n));
      Spelt(buf, at, m) && LabelsOf(m) == ls + LabelsOf(n) && SizeOf(m) == |Body(ls)| + 2
  {
    RunSpells(buf, at, ls, Jump(target, n));
    ThenLabels(ls, Jump(target, n));
  }

  /* ---------- measuring ---------- */

  /** The length bytes from at on lead to a zero inside the buffer. */
  predicate Closed(buf: seq<uint8>, at: nat)
    decreases |buf| - at
  {
    at < |buf| && (buf[at] == 0 || Closed(buf, at + 1 + buf[at]))
  }

  /** Labels whose lengths fit a byte, none of them empty. */
  ghost predicate Plain(ls: seq<Label>)
  {
    forall i :: 0 <= i < |ls| ==> 1 <= |ls[i]| < 256
  }

  lemma {:induction false} OneMoreMeasured(buf: seq<uint8>, p: nat, ls: seq<Label>, l: Label)
    requires p < |buf| && buf[p] != 0 && Plain(ls) && buf[..p] == Body(ls)
    requires p + 1 + buf[p] <= |buf| && l == buf[p + 1..p + 1 + buf[p]]
    ensures Plain(ls + [l]) && buf[..p + 1 + buf[p]] == Body(ls + [l])
  {
    BodyLast(ls, l);
    assert buf[..p + 1 + buf[p]] == buf[..p] + [buf[p]] + l;
  }

  /** The size loop for CNAME, NS and PTR records in zone_manager.c, which takes every
      byte for a length: the bytes it measures are exactly some non-empty labels and
      the zero behind them. */
  method Measure(encoded: seq<uint8>) returns (size: nat, ghost ls: seq<Label>)
    requires Closed(encoded, 0)
    ensures size <= |encoded| && Plain(ls) && encoded[..size] == Wire(ls)
  {
    size, ls := 0, [];
    var p: nat := 0;
    while encoded[p] != 0
      invariant p == size && Closed(encoded, p) && Plain(ls) && encoded[..p] == Body(ls)
      decreases |encoded| - p
    {
      var len: nat := encoded[p];
      ghost var l := encoded[p + 1..p + 1 + len];
      OneMoreMeasured(encoded, p, ls, l);
      size := size + (len + 1);
      p := p + (len + 1);
      ls := ls + [l];
    }
    size := size + 1;
    assert encoded[..size] == encoded[..p] + [encoded[p]];
  }

  lemma {:induction false} WireFirst(ls: seq<Label>)
    requires Plain(ls)
    ensures Wire(ls)[0] == if ls == [] then 0 else |ls[0]|
  {
  }

  /** Only one run of labels and its zero starts at a place. */
  lemma {:induction false} WireOnce(buf: seq<uint8>, at: nat, a: seq<Label>, b: seq<Label>)
    requires Plain(a) && Plain(b) && at + |Wire(a)| <= |buf| && at + |Wire(b)| <= |buf|
    requires buf[at..at + |Wire(a)|] == Wire(a) && buf[at..at + |Wire(b)|] == Wire(b)
    ensures a == b
    decreases |a|
  {
    WireFirst(a);
    WireFirst(b);
    assert buf[at] == Wire(a)[0] && buf[at] == Wire(b)[0];
    if a != [] {
      assert Wire(a) == [|a[0]|] + a[0] + Wire(a[1..]) && Wire(b) == [|b[0]|] + b[0] + Wire(b[1..]);
      ThreeParts(buf, at, |a[0]|, a[0], Wire(a[1..]));
      ThreeParts(buf, at, |b[0]|, b[0], Wire(b[1..]));
      WireOnce(buf, at + 1 + |a[0]|, a[1..], b[1..]);
      assert a == [a[0]] + a[1..] && b == [b[0]] + b[1..];
    }
  }

  lemma {:induction false} ClosedAt(buf: seq<uint8>, at: nat, ls: seq<Label>)
    requires Plain(ls) && at + |Wire(ls)| <= |buf| && buf[at..at + |Wire(ls)|] == Wire(ls)
    ensures Closed(buf, at)
    decreases |ls|
  {
    assert buf[at] == Wire(ls)[0];
    if ls != [] {
      assert Wire(ls) == [|ls[0]|] + ls[0] + Wire(ls[1..]);
      ThreeParts(buf, at, |ls[0]|, ls[0], Wire(ls[1..]));
      ClosedAt(buf, at + 1 + |ls[0]|, ls[1..]);
    }
  }

  lemma {:induction false} LabelInJoin(ls: seq<Label>, i: nat)
    requires i < |ls|
    ensures |ls[i]| <= |Join(ls)|
  {
    var n := |ls| - 1;
    if n > 0 && i < n {
      LabelInJoin(ls[..n], i);
    }
  }

  /** The first bytes of an encoded text are the labels up to the first empty one and a
      zero, whatever follows. */
  lemma {:induction false} HeadInWire(t: Text, more: seq<uint8>)
    requires |t| < 256
    ensures var hs, buf := Head(Split(t)), Encoded(t) + more;
      Plain(hs) && |Wire(hs)| <= |buf| && buf[0..|Wire(hs)|] == Wire(hs)
  {
    var ls := Split(t);
    var hs, n := Head(ls), |Body(Head(ls))|;
    HeadThenZero(ls);
    JoinSplit(t);
    forall i | 0 <= i < |hs| ensures 1 <= |hs[i]| < 256 { LabelInJoin(ls, i); assert hs[i] != []; }
    assert Wire(ls)[..n + 1] == Wire(ls)[..n] + [Wire(ls)[n]];
    assert (Wire(ls) + more)[0..n + 1] == Wire(ls)[..n + 1];
  }

  /** A record's name is measured at the length of its encoding if and only if the text
      has no empty label, and otherwise cut at the first one. */
  lemma {:induction false} MeasureIsWhole(t: Text, more: seq<uint8>, size: nat, ls: seq<Label>)
    requires |t| < 256 && size <= |Encoded(t) + more| && Plain(ls) && (Encoded(t) + more)[..size] == Wire(ls)
    ensures ls == Head(Split(t)) && (size == |Encoded(t)| <==> NonEmpty(Split(t)))
  {
    var buf, hs := Encoded(t) + more, Head(Split(t));
    HeadInWire(t, more);
    assert buf[0..|Wire(ls)|] == buf[..size];
    WireOnce(buf, 0, ls, hs);
    var rest := Split(t)[|hs|..];
    assert Split(t) == hs + rest;
    BodyConcat(hs, rest);
    assert NonEmpty(Split(t)) <==> |hs| == |Split(t)|;
  }

  /** The size loop ends inside every encoded text. */
  lemma {:induction false} EncodedIsClosed(t: Text, more: seq<uint8>)
    requires |t| < 256
    ensures Closed(Encoded(t) + more, 0)
  {
    HeadInWire(t, more);
    ClosedAt(Encoded(t) + more, 0, Head(Split(t)));
  }
}
