/** Text forms of client identifiers: the colon-separated DUID text of
    utilsv6.c and leases6.c, and the octal client-id text of encoding_utils.c. */
module Identifiers {
  import opened Bytes

  const DUID_MAX_LEN: nat := 128

  /* ---------- DUID <-> "aa:bb:cc" ---------- */

  /** The lower-case digit for a value below 16. */
  function HexDigit(v: int): char
    requires 0 <= v < 16
  {
    if v < 10 then '0' + v as char else 'a' + (v - 10) as char
  }

  /** Character k of the text: two digits a byte, a colon between bytes. */
  function HexChar(duid: seq<uint8>, k: nat): char
    requires k < 3 * |duid|
  {
    var b := duid[k / 3];
    if k % 3 == 0 then HexDigit(b / 16) else if k % 3 == 1 then HexDigit(b % 16) else ':'
  }

  lemma {:induction false} HexCharAt(duid: seq<uint8>, i: nat)
    requires i < |duid|
    ensures HexChar(duid, 3 * i) == HexDigit(duid[i] / 16)
    ensures HexChar(duid, 3 * i + 1) == HexDigit(duid[i] % 16)
    ensures HexChar(duid, 3 * i + 2) == ':'
  {
    assert 3 * i / 3 == i && (3 * i + 1) / 3 == i;
  }

  function Hex(duid: seq<uint8>): (text: string)
    ensures |text| == if duid == [] then 0 else 3 * |duid| - 1
  {
    if duid == [] then ""
    else seq(3 * |duid| - 1, k requires 0 <= k < 3 * |duid| - 1 => HexChar(duid, k))
  }

  lemma {:induction false} HexDigitInjective(v: int, w: int)
    requires 0 <= v < 16 && 0 <= w < 16 && HexDigit(v) == HexDigit(w)
    ensures v == w
  {
  }

  /** Two DUIDs with the same text are the same DUID. */
  lemma {:induction false} HexInjective(d: seq<uint8>, e: seq<uint8>)
    requires Hex(d) == Hex(e)
    ensures d == e
  {
    assert |d| == |e|;
    forall i | 0 <= i < |d|
      ensures d[i] == e[i]
    {
      HexCharAt(d, i);
      HexCharAt(e, i);
      assert Hex(d)[3 * i] == Hex(e)[3 * i] && Hex(d)[3 * i + 1] == Hex(e)[3 * i + 1];
      HexDigitInjective(d[i] / 16, e[i] / 16);
      HexDigitInjective(d[i] % 16, e[i] % 16);
    }
  }

  /** The text left in a buffer of the given size, terminator included: the whole
      text when it fits, nothing otherwise. */
  function HexIn(duid: seq<uint8>, size: nat): string
  {
    if 3 * |duid| <= size then Hex(duid) else ""
  }

  /** The text's characters for byte i. */
  ghost predicate SpellsByte(text: string, duid: seq<uint8>, i: nat)
    requires i < |duid|
  {
    && |text| == 3 * |duid| - 1
    && text[3 * i] == HexDigit(duid[i] / 16)
    && text[3 * i + 1] == HexDigit(duid[i] % 16)
    && (i + 1 < |duid| ==> text[3 * i + 2] == ':')
  }

  lemma {:induction false} HexSpells(duid: seq<uint8>, i: nat)
    requires i < |duid|
    ensures SpellsByte(Hex(duid), duid, i)
  {
    var t := Hex(duid);
    assert t[3 * i] == HexChar(duid, 3 * i) && t[3 * i + 1] == HexChar(duid, 3 * i + 1);
    assert i + 1 < |duid| ==> t[3 * i + 2] == HexChar(duid, 3 * i + 2);
    HexCharAt(duid, i);
  }

  /** The write loop of duid_bin_to_hex. */
  method WriteHex(duid: seq<uint8>, out: array<char>, ghost text: string) returns (pos: nat)
    requires duid != [] && |text| == 3 * |duid| - 1 < out.Length
    requires forall i: nat :: i < |duid| ==> SpellsByte(text, duid, i)
    modifies out
    ensures pos == |text| && out[..pos] == text
  {
    pos := 0;
    for i := 0 to |duid|
      invariant pos == if i < |duid| then 3 * i else |text|
      invariant out[..pos] == text[..pos]
    {
      assert SpellsByte(text, duid, i);
      PutChar(out, pos, HexDigit(duid[i] / 16), text);
      PutChar(out, pos + 1, HexDigit(duid[i] % 16), text);
      pos := pos + 2;
      if i + 1 < |duid| {
        PutChar(out, pos, ':', text);
        pos := pos + 1;
      }
    }
  }

  /** duid_bin_to_hex. The text is out[..n] followed by a terminator. */
  method DuidBinToHex(duid: seq<uint8>, out: array<char>) returns (n: int)
    modifies out
    ensures n == if out.Length > 0 && 3 * |duid| <= out.Length then |Hex(duid)| else -1
    ensures out.Length > 0 ==>
      var text := HexIn(duid, out.Length);
      |text| < out.Length && out[..|text|] == text && out[|text|] == '\0'
  {
    if out.Length == 0 { return -1; }
    var need := if |duid| > 0 then 3 * |duid| - 1 + 1 else 1;
    if out.Length < need { out[0] := '\0'; return -1; }
    var pos := 0;
    if duid != [] {
      forall i: nat | i < |duid| ensures SpellsByte(Hex(duid), duid, i) { HexSpells(duid, i); }
      pos := WriteHex(duid, out, Hex(duid));
    }
    ghost var written := out[..pos];
    out[pos] := '\0';
    assert out[..pos] == written;
    return pos;
  }

  function HexDigitValue(c: char): (r: Option<nat>)
    ensures r.Some? ==> r.value < 16
  {
    if '0' <= c <= '9' then Some((c - '0') as int)
    else if 'a' <= c <= 'f' then Some((c - 'a') as int + 10)
    else if 'A' <= c <= 'F' then Some((c - 'A') as int + 10)
    else None
  }

  predicate IsSpace(c: char)
  {
    c == ' ' || '\t' <= c <= '\r'
  }

  /** sscanf with "%2x" at position p: blanks, then one or two hexadecimal digits. */
  function ScanHex2(s: string, p: nat): Option<uint8>
    requires p <= |s|
    decreases |s| - p
  {
    if p == |s| then None
    else if IsSpace(s[p]) then ScanHex2(s, p + 1)
    else match HexDigitValue(s[p])
      case None => None
      case Some(hi) =>
        if p + 1 == |s| || HexDigitValue(s[p + 1]).None? then Some(hi)
        else Some(hi * 16 + HexDigitValue(s[p + 1]).value)
  }

  /** strchr for a colon from position p. */
  function FindColon(s: string, p: nat): (r: Option<nat>)
    requires p <= |s|
    ensures r.Some? ==> p <= r.value < |s|
    decreases |s| - p
  {
    if p == |s| then None else if s[p] == ':' then Some(p) else FindColon(s, p + 1)
  }

  /** The length of the run from p up to a colon, a blank or the end. */
  function TokenLength(s: string, p: nat): nat
    requires p <= |s|
    decreases |s| - p
  {
    if p == |s| || s[p] == ':' || IsSpace(s[p]) then 0 else 1 + TokenLength(s, p + 1)
  }

  datatype HexTurn = Stop(result: Option<seq<uint8>>) | Next(byte: uint8, next: nat)

  /** One turn of duid_hex_to_bin's loop at position p of the text. */
  function ScanByte(s: string, p: nat, room: nat): (r: HexTurn)
    requires p < |s|
    ensures r.Next? ==> room > 0 && p < r.next <= |s|
  {
    var q := if s[p] == ':' || s[p] == ' ' || s[p] == '\t' then p + 1 else p;
    if q == |s| then Stop(Some([]))
    else match ScanHex2(s, q)
      case None => Stop(None)
      case Some(b) =>
        if room == 0 then Stop(None)
        else match FindColon(s, q)
          case None => Stop(if TokenLength(s, q) > 2 then None else Some([b]))
          case Some(k) => Next(b, k + 1)
  }

  function Prepend(out: seq<uint8>, r: Option<seq<uint8>>): Option<seq<uint8>>
  {
    if r.None? then None else Some(out + r.value)
  }

  /** duid_hex_to_bin from position p, with room for `room` more bytes. */
  function FromHex(s: string, p: nat, room: nat): Option<seq<uint8>>
    requires p <= |s|
    decreases |s| - p
  {
    if p == |s| then Some([])
    else match ScanByte(s, p, room)
      case Stop(r) => r
      case Next(b, next) => Prepend([b], FromHex(s, next, room - 1))
  }

  lemma {:induction false} HexDigitRoundTrip(v: nat)
    requires v < 16
    ensures HexDigitValue(HexDigit(v)) == Some(v)
    ensures HexDigit(v) != ':' && !IsSpace(HexDigit(v))
  {
  }

  /** At the start of byte i the loop reads that byte and finds the next one. */
  ghost predicate ReadsByte(t: string, duid: seq<uint8>, i: nat, room: nat)
    requires i < |duid|
  {
    && 3 * i < |t| && 3 * i + 3 <= |t| + 1
    && ScanByte(t, 3 * i, room) ==
       if i + 1 == |duid| then Stop(Some([duid[i]])) else Next(duid[i], 3 * i + 3)
  }

  lemma {:induction false} ScanHexText(t: string, duid: seq<uint8>, i: nat, room: nat)
    requires i < |duid| && room > 0 && SpellsByte(t, duid, i)
    ensures ReadsByte(t, duid, i, room)
  {
    var p := 3 * i;
    HexDigitRoundTrip(duid[i] / 16);
    HexDigitRoundTrip(duid[i] % 16);
    if i + 1 == |duid| {
      assert FindColon(t, p + 2).None? && TokenLength(t, p + 2) == 0;
      assert FindColon(t, p + 1).None? && TokenLength(t, p + 1) == 1;
    } else {
      assert FindColon(t, p + 1) == Some(p + 2);
    }
  }

  lemma {:induction false} FromHexAt(t: string, duid: seq<uint8>, i: nat, room: nat)
    requires i < |duid| <= i + room
    requires forall j: nat, r: nat :: j < |duid| && 0 < r ==> ReadsByte(t, duid, j, r)
    ensures 3 * i <= |t| && FromHex(t, 3 * i, room) == Some(duid[i..])
    decreases |duid| - i
  {
    assert ReadsByte(t, duid, i, room);
    if i + 1 == |duid| {
      assert duid[i..] == [duid[i]];
    } else {
      FromHexAt(t, duid, i + 1, room - 1);
      assert duid[i..] == [duid[i]] + duid[i + 1..];
    }
  }

  /** duid_hex_to_bin undoes duid_bin_to_hex for every DUID that fits. */
  lemma {:induction false} HexRoundTrip(duid: seq<uint8>, room: nat)
    requires |duid| <= room
    ensures FromHex(Hex(duid), 0, room) == Some(duid)
  {
    if duid != [] {
      forall j: nat, r: nat | j < |duid| && 0 < r
        ensures ReadsByte(Hex(duid), duid, j, r)
      {
        HexSpells(duid, j);
        ScanHexText(Hex(duid), duid, j, r);
      }
      FromHexAt(Hex(duid), duid, 0, room);
    }
    assert duid[0..] == duid;
  }

  /** The text names a client by that DUID, the empty text one without any. */
  predicate ReadsAs(text: string, name: seq<uint8>)
  {
    FromHex(text, 0, DUID_MAX_LEN) == Some(name) && (text == "" <==> name == [])
  }

  lemma {:induction false} HexReadsAs(name: seq<uint8>)
    requires |name| <= DUID_MAX_LEN
    ensures ReadsAs(Hex(name), name)
  {
    HexRoundTrip(name, DUID_MAX_LEN);
  }

  lemma {:induction false} TooLongAt(t: string, duid: seq<uint8>, i: nat, room: nat)
    requires i + room < |duid| && forall j: nat, r: nat :: j < |duid| && 0 < r ==> ReadsByte(t, duid, j, r)
    requires forall j: nat :: j < |duid| ==> 3 * j < |t| && ScanByte(t, 3 * j, 0) == Stop(None)
    ensures 3 * i <= |t| && FromHex(t, 3 * i, room) == None
    decreases room
  {
    if room > 0 {
      assert ReadsByte(t, duid, i, room);
      TooLongAt(t, duid, i + 1, room - 1);
    } else {
      assert ScanByte(t, 3 * i, 0) == Stop(None);
    }
  }

  /** So the text of a DUID parses if and only if the DUID fits. */
  lemma {:induction false} HexParsesWhen(duid: seq<uint8>, room: nat)
    ensures FromHex(Hex(duid), 0, room) == if |duid| <= room then Some(duid) else None
  {
    if |duid| <= room {
      HexRoundTrip(duid, room);
    } else {
      forall j: nat, r: nat | j < |duid| && 0 < r ensures ReadsByte(Hex(duid), duid, j, r) {
        HexSpells(duid, j);
        ScanHexText(Hex(duid), duid, j, r);
      }
      forall j: nat | j < |duid| ensures 3 * j < |Hex(duid)| && ScanByte(Hex(duid), 3 * j, 0) == Stop(None) {
        HexSpells(duid, j);
        ScanHexText(Hex(duid), duid, j, 1);
      }
      TooLongAt(Hex(duid), duid, 0, room);
    }
  }

  lemma {:induction false} PrependSnoc(out: seq<uint8>, b: uint8, r: Option<seq<uint8>>)
    ensures Prepend(out, Prepend([b], r)) == Prepend(out + [b], r)
  {
    if r.Some? { assert out + ([b] + r.value) == out + [b] + r.value; }
  }

  lemma {:induction false} PrependNothing(out: seq<uint8>, r: Option<seq<uint8>>)
    ensures Prepend([], r) == r && Prepend(out, Some([])) == Some(out)
  {
    assert out + [] == out;
    if r.Some? { assert [] + r.value == r.value; }
  }

  /** The parse loop; at most DUID_MAX_LEN bytes are stored. */
  method DuidHexToBin(hex: string) returns (r: Option<seq<uint8>>)
    ensures r == FromHex(hex, 0, DUID_MAX_LEN)
  {
    var out: seq<uint8> := [];
    var p := 0;
    PrependNothing([], FromHex(hex, 0, DUID_MAX_LEN));
    while p < |hex|
      invariant p <= |hex| && |out| <= DUID_MAX_LEN
      invariant FromHex(hex, 0, DUID_MAX_LEN) == Prepend(out, FromHex(hex, p, DUID_MAX_LEN - |out|))
    {
      PrependNothing(out, None);
      ghost var turn := ScanByte(hex, p, DUID_MAX_LEN - |out|);
      if hex[p] == ':' || hex[p] == ' ' || hex[p] == '\t' { p := p + 1; }
      if p == |hex| { return Some(out); }
      var byte := ScanHex2(hex, p);
      if byte.None? || |out| >= DUID_MAX_LEN { return None; }
      var colon := FindColon(hex, p);
      if colon.None? {
        if TokenLength(hex, p) > 2 { return None; }
        return Some(out + [byte.value]);
      }
      p := colon.value + 1;
      PrependSnoc(out, byte.value, FromHex(hex, p, DUID_MAX_LEN - |out| - 1));
      out := out + [byte.value];
    }
    PrependNothing(out, None);
    return Some(out);
  }

  /* ---------- DHCPv4 client id <-> "\\001\\377" ---------- */

  const MAX_CLIENT_ID_LEN: nat := 64

  function OctalDigit(v: int): char
    requires 0 <= v < 8
  {
    '0' + v as char
  }

  /** Character k of the text: a quote, a backslash and three digits a byte, a quote. */
  function OctalChar(id: seq<uint8>, k: nat): char
    requires k < 4 * |id| + 2
  {
    if k == 0 || k == 4 * |id| + 1 then '"'
    else
      var b, d := id[(k - 1) / 4], (k - 1) % 4;
      if d == 0 then '\\'
      else if d == 1 then OctalDigit(b / 64)
      else if d == 2 then OctalDigit(b / 8 % 8)
      else OctalDigit(b % 8)
  }

  function OctalText(id: seq<uint8>): (text: string)
    ensures |text| == 4 * |id| + 2
  {
    seq(4 * |id| + 2, k requires 0 <= k < 4 * |id| + 2 => OctalChar(id, k))
  }

  lemma {:induction false} OctalCharAt(id: seq<uint8>, i: nat)
    requires i < |id|
    ensures OctalChar(id, 4 * i + 1) == '\\'
    ensures OctalChar(id, 4 * i + 2) == OctalDigit(id[i] / 64)
    ensures OctalChar(id, 4 * i + 3) == OctalDigit(id[i] / 8 % 8)
    ensures OctalChar(id, 4 * i + 4) == OctalDigit(id[i] % 8)
  {
  }

  /** How many bytes the formatter writes before fewer than six places remain. */
  function OctalFit(size: nat): nat
  {
    if size > 6 then (size - 3) / 4 else 0
  }

  /** The formatter's whole result for a buffer of the given size. */
  function FormatClientId(id: seq<uint8>, size: nat): string
  {
    if size < 3 || id == [] then ""
    else OctalText(id[..Least(|id|, OctalFit(size))])
  }

  /** The text's four characters for byte i. */
  ghost predicate SpellsOctet(text: string, id: seq<uint8>, i: nat)
    requires i < |id|
  {
    && |text| == 4 * |id| + 2
    && text[4 * i + 1] == '\\'
    && text[4 * i + 2] == OctalDigit(id[i] / 64)
    && text[4 * i + 3] == OctalDigit(id[i] / 8 % 8)
    && text[4 * i + 4] == OctalDigit(id[i] % 8)
  }

  lemma {:induction false} OctalSpells(id: seq<uint8>, i: nat)
    requires i < |id|
    ensures SpellsOctet(OctalText(id), id, i)
  {
    OctalCharAt(id, i);
  }

  /** One character of a text being copied out. */
  method PutChar(out: array<char>, pos: nat, c: char, ghost text: string)
    requires pos < out.Length && pos < |text| && text[pos] == c && out[..pos] == text[..pos]
    modifies out
    ensures out[..pos + 1] == text[..pos + 1]
  {
    out[pos] := c;
    assert text[..pos + 1] == text[..pos] + [c];
  }

  /** The body of format_client_id_to_string: the bytes that fit, between quotes. */
  method WriteOctal(id: seq<uint8>, out: array<char>, ghost kept: nat, ghost text: string) returns (pos: nat)
    requires kept <= |id| && 4 * kept + 2 < out.Length && (kept == |id| || out.Length <= 4 * kept + 6)
    requires |text| == 4 * kept + 2 && text[0] == '"' && text[|text| - 1] == '"'
    requires forall i: nat :: i < kept ==> SpellsOctet(text, id[..kept], i)
    modifies out
    ensures pos == |text| < out.Length && out[..pos] == text
  {
    out[0] := '"';
    pos := 1;
    var remaining, i := out.Length - 1, 0;
    while i < |id| && remaining > 5
      invariant i <= kept && pos == 4 * i + 1 && remaining == out.Length - pos
      invariant out[..pos] == text[..pos]
      decreases |id| - i
    {
      assert SpellsOctet(text, id[..kept], i);
      PutChar(out, pos, '\\', text);
      PutChar(out, pos + 1, OctalDigit(id[i] / 64), text);
      PutChar(out, pos + 2, OctalDigit(id[i] / 8 % 8), text);
      PutChar(out, pos + 3, OctalDigit(id[i] % 8), text);
      pos, remaining, i := pos + 4, remaining - 4, i + 1;
    }
    out[pos] := '"';
    pos := pos + 1;
  }

  /** format_client_id_to_string. */
  method FormatClientIdToString(id: seq<uint8>, out: array<char>)
    modifies out
    ensures out.Length > 0 ==>
      var text := FormatClientId(id, out.Length);
      |text| < out.Length && out[..|text|] == text && out[|text|] == '\0'
  {
    if out.Length < 3 || id == [] {
      if out.Length > 0 { out[0] := '\0'; }
      return;
    }
    ghost var kept := if |id| <= OctalFit(out.Length) then |id| else OctalFit(out.Length);
    ghost var text := OctalText(id[..kept]);
    forall i: nat | i < kept ensures SpellsOctet(text, id[..kept], i) { OctalSpells(id[..kept], i); }
    var pos := WriteOctal(id, out, kept, text);
    out[pos] := '\0';
    assert out[..pos] == text;
  }

  predicate IsOctal(c: char)
  {
    '0' <= c <= '7'
  }

  /** The value and end of a run of at most n octal digits from p. */
  function OctalRun(s: string, p: nat, n: nat, value: nat): (r: (nat, nat))
    requires p <= |s|
    ensures p <= r.1 <= |s|
    decreases n
  {
    if n == 0 || p == |s| || !IsOctal(s[p]) then (value, p)
    else OctalRun(s, p + 1, n - 1, value * 8 + (s[p] - '0') as int)
  }

  function HexRun(s: string, p: nat, n: nat, value: nat): (r: (nat, nat))
    requires p <= |s|
    ensures p <= r.1 <= |s|
    decreases n
  {
    if n == 0 || p == |s| || HexDigitValue(s[p]).None? then (value, p)
    else HexRun(s, p + 1, n - 1, value * 16 + HexDigitValue(s[p]).value)
  }

  /** An escape needs a character to escape. */
  predicate Escapable(s: string, p: nat)
  {
    p < |s| && (s[p] == '\\' ==> p + 1 < |s|)
  }

  /** One byte of parse_client_id_from_string's second loop: the byte stored and
      the position after it. */
  function ClientIdByte(s: string, p: nat): (r: (uint8, nat))
    requires Escapable(s, p)
    ensures p < r.1 <= |s|
  {
    if s[p] != '\\' then (s[p] as int % 256, p + 1)
    else if IsOctal(s[p + 1]) then
      var (v, q) := OctalRun(s, p + 1, 3, 0);
      assert OctalRun(s, p + 1, 3, 0) == OctalRun(s, p + 2, 2, (s[p + 1] - '0') as int);
      (v % 256, q)
    else if s[p + 1] == 'x' then
      var (v, q) := HexRun(s, p + 2, 2, 0);
      (v % 256, q)
    else (s[p + 1] as int % 256, p + 2)
  }

  /** The digit at q, octal or hexadecimal, if there is one. */
  function OctalAt(s: string, q: nat): Option<nat>
  {
    if q < |s| && '0' <= s[q] <= '7' then Some((s[q] - '0') as nat) else None
  }

  function HexAt(s: string, q: nat): Option<nat>
  {
    if q < |s| then HexDigitValue(s[q]) else None
  }

  /** One to three octal digits and where they end. */
  function OctalValue(s: string, q: nat): (nat, nat)
  {
    var a, b, c := OctalAt(s, q), OctalAt(s, q + 1), OctalAt(s, q + 2);
    if a.None? then (0, q)
    else if b.None? then (a.value, q + 1)
    else if c.None? then (a.value * 8 + b.value, q + 2)
    else (a.value * 64 + b.value * 8 + c.value, q + 3)
  }

  /** Up to two hexadecimal digits and where they end. */
  function HexValue(s: string, q: nat): (nat, nat)
  {
    var h, l := HexAt(s, q), HexAt(s, q + 1);
    if h.None? then (0, q) else if l.None? then (h.value, q + 1) else (h.value * 16 + l.value, q + 2)
  }

  /** What an escape stands for: one to three octal digits, an x with up to two
      hexadecimal ones, or the character itself; a value beyond 255 wraps. */
  lemma {:induction false} EscapesMean(s: string, p: nat)
    requires Escapable(s, p) && s[p] == '\\'
    ensures ClientIdByte(s, p) ==
      if OctalAt(s, p + 1).Some? then (OctalValue(s, p + 1).0 % 256, OctalValue(s, p + 1).1)
      else if s[p + 1] == 'x' then (HexValue(s, p + 2).0 % 256, HexValue(s, p + 2).1)
      else (s[p + 1] as int % 256, p + 2)
  {
    if OctalAt(s, p + 1).Some? {
      OctalRunMeans(s, p + 1);
    } else if s[p + 1] == 'x' {
      HexRunMeans(s, p + 2);
    }
  }

  lemma {:induction false} OctalRunMeans(s: string, q: nat)
    requires q <= |s|
    ensures OctalRun(s, q, 3, 0) == OctalValue(s, q)
  {
    var a, b := OctalAt(s, q), OctalAt(s, q + 1);
    if a.Some? {
      assert OctalRun(s, q, 3, 0) == OctalRun(s, q + 1, 2, a.value);
      if b.Some? { assert OctalRun(s, q + 1, 2, a.value) == OctalRun(s, q + 2, 1, a.value * 8 + b.value); }
    }
  }

  lemma {:induction false} HexRunMeans(s: string, q: nat)
    requires q <= |s|
    ensures HexRun(s, q, 2, 0) == HexValue(s, q)
  {
    var h := HexAt(s, q);
    if h.Some? { assert HexRun(s, q, 2, 0) == HexRun(s, q + 1, 1, h.value); }
  }

  /** Reading at most `room` bytes from p on meets no backslash that ends the text. */
  predicate Whole(s: string, p: nat, room: nat)
    requires p <= |s|
    decreases |s| - p
  {
    p == |s| || s[p] == '"' || room == 0 || (Escapable(s, p) && Whole(s, ClientIdByte(s, p).1, room - 1))
  }

  lemma {:induction false} NoBareEndIsWhole(s: string, p: nat, room: nat)
    requires p <= |s| && (s == "" || s[|s| - 1] != '\\')
    ensures Whole(s, p, room)
    decreases |s| - p
  {
    if p < |s| && s[p] != '"' && room > 0 {
      NoBareEndIsWhole(s, ClientIdByte(s, p).1, room - 1);
    }
  }

  /** The bytes read from p on, at most `room` of them. */
  function ClientIdFrom(s: string, p: nat, room: nat): seq<uint8>
    requires p <= |s| && Whole(s, p, room)
    decreases |s| - p
  {
    if p == |s| || s[p] == '"' || room == 0 then []
    else var (b, q) := ClientIdByte(s, p); [b] + ClientIdFrom(s, q, room - 1)
  }

  function SkipQuotes(s: string, p: nat): (q: nat)
    requires p <= |s|
    ensures p <= q <= |s|
    decreases |s| - p
  {
    if p < |s| && (IsSpace(s[p]) || s[p] == '"') then SkipQuotes(s, p + 1) else p
  }

  method SkipLeading(s: string) returns (p: nat)
    ensures p == SkipQuotes(s, 0)
  {
    p := 0;
    while p < |s| && (IsSpace(s[p]) || s[p] == '"')
      invariant p <= |s| && SkipQuotes(s, p) == SkipQuotes(s, 0)
    {
      p := p + 1;
    }
  }

  /** parse_client_id_from_string. Only an escape cut off by the end of the text would
      be read past it, so callers must not pass one. */
  method ParseClientId(s: string) returns (id: seq<uint8>)
    requires Whole(s, SkipQuotes(s, 0), MAX_CLIENT_ID_LEN)
    ensures id == ClientIdFrom(s, SkipQuotes(s, 0), MAX_CLIENT_ID_LEN)
  {
    var p := SkipLeading(s);
    id := [];
    ghost var goal := ClientIdFrom(s, p, MAX_CLIENT_ID_LEN);
    assert goal == [] + goal;
    while p < |s| && s[p] != '"' && |id| < MAX_CLIENT_ID_LEN
      invariant p <= |s| && |id| <= MAX_CLIENT_ID_LEN && Whole(s, p, MAX_CLIENT_ID_LEN - |id|)
      invariant goal == id + ClientIdFrom(s, p, MAX_CLIENT_ID_LEN - |id|)
      decreases |s| - p
    {
      var (b, q) := ClientIdByte(s, p);
      ghost var rest := ClientIdFrom(s, q, MAX_CLIENT_ID_LEN - |id| - 1);
      assert goal == id + ([b] + rest);
      id, p := id + [b], q;
      assert goal == id + rest;
    }
    assert goal == id + [];
  }

  /** At the start of byte i's escape the parser reads that byte. */
  ghost predicate ReadsOctet(t: string, id: seq<uint8>, i: nat)
    requires i < |id|
  {
    && |t| == 4 * |id| + 2 && t[|t| - 1] == '"'
    && t[4 * i + 1] == '\\'
    && ClientIdByte(t, 4 * i + 1) == (id[i], 4 * i + 5)
  }

  lemma {:induction false} OctalDigits(b: uint8)
    ensures (b / 64 * 8 + b / 8 % 8) * 8 + b % 8 == b
  {
  }

  lemma {:induction false} OctalRunReads(t: string, p: nat, a: nat, b: nat, c: nat)
    requires p + 3 <= |t| && a < 8 && b < 8 && c < 8
    requires t[p] == OctalDigit(a) && t[p + 1] == OctalDigit(b) && t[p + 2] == OctalDigit(c)
    ensures OctalRun(t, p, 3, 0) == ((a * 8 + b) * 8 + c, p + 3)
  {
    assert OctalRun(t, p + 2, 1, a * 8 + b) == OctalRun(t, p + 3, 0, (a * 8 + b) * 8 + c);
    assert OctalRun(t, p + 1, 2, a) == OctalRun(t, p + 2, 1, a * 8 + b);
  }

  lemma {:induction false} OctalReads(t: string, id: seq<uint8>, i: nat)
    requires i < |id| && SpellsOctet(t, id, i) && t[|t| - 1] == '"'
    ensures ReadsOctet(t, id, i)
  {
    var p, b := 4 * i + 1, id[i];
    OctalRunReads(t, p + 1, b / 64, b / 8 % 8, b % 8);
    OctalDigits(b);
  }

  lemma {:induction false} ParseOctalAt(t: string, id: seq<uint8>, i: nat, room: nat)
    requires i <= |id| && |t| == 4 * |id| + 2 && t[|t| - 1] == '"'
    requires forall j: nat :: j < |id| ==> ReadsOctet(t, id, j)
    ensures Whole(t, 4 * i + 1, room) && ClientIdFrom(t, 4 * i + 1, room) == id[i..Least(|id|, i + room)]
    decreases |id| - i
  {
    if i < |id| && room > 0 {
      assert ReadsOctet(t, id, i);
      ParseOctalAt(t, id, i + 1, room - 1);
    }
  }

  /** How many of n bytes get through a text buffer of the given size and back. */
  function Surviving(n: nat, size: nat): nat
  {
    Least(n, Least(OctalFit(size), MAX_CLIENT_ID_LEN))
  }

  /** The parser reads back exactly the bytes that fit the formatter's buffer and the
      record, for every id and every buffer size. */
  lemma {:induction false} ParseOfFormat(id: seq<uint8>, size: nat)
    ensures var text := FormatClientId(id, size);
      && Whole(text, SkipQuotes(text, 0), MAX_CLIENT_ID_LEN)
      && ClientIdFrom(text, SkipQuotes(text, 0), MAX_CLIENT_ID_LEN) == id[..Surviving(|id|, size)]
  {
    if id != [] && size >= 3 {
      var kept := id[..Least(|id|, OctalFit(size))];
      var t := OctalText(kept);
      assert t[0] == '"' && t[|t| - 1] == '"';
      forall j: nat | j < |kept|
        ensures ReadsOctet(t, kept, j)
      {
        OctalSpells(kept, j);
        OctalReads(t, kept, j);
      }
      ParseOctalAt(t, kept, 0, MAX_CLIENT_ID_LEN);
      assert kept[0..Least(|kept|, MAX_CLIENT_ID_LEN)] == id[..Surviving(|id|, size)];
      if kept != [] {
        assert ReadsOctet(t, kept, 0);
        assert SkipQuotes(t, 1) == 1;
      }
    }
  }

  /** So the text form keeps a client id exactly when it has at most 64 bytes and the
      buffer has room for it; the callers' 256 bytes have room for 63. */
  lemma {:induction false} ClientIdRoundTrip(id: seq<uint8>, size: nat)
    ensures var text := FormatClientId(id, size);
      && Whole(text, SkipQuotes(text, 0), MAX_CLIENT_ID_LEN)
      && (ClientIdFrom(text, SkipQuotes(text, 0), MAX_CLIENT_ID_LEN) == id <==>
          |id| <= OctalFit(size) && |id| <= MAX_CLIENT_ID_LEN)
    ensures OctalFit(256) == 63
  {
    ParseOfFormat(id, size);
    if |id| <= OctalFit(size) && |id| <= MAX_CLIENT_ID_LEN { assert id[..|id|] == id; }
  }
}
