/** Bytes, byte strings read as big-endian integers, and the small vocabulary
    shared by the other modules. */
module Bytes {

  type uint8 = x: int | 0 <= x < 256

  type uint16 = x: int | 0 <= x < 0x1_0000

  type uint32 = x: int | 0 <= x < 0x1_0000_0000

  datatype Option<+T> = None | Some(value: T)

  function Pow2(n: nat): (p: nat)
    ensures p > 0
  {
    if n == 0 then 1 else 2 * Pow2(n - 1)
  }

  /** The byte string read as a big-endian integer. */
  function Value(s: seq<uint8>): nat
  {
    if s == [] then 0 else Value(s[..|s| - 1]) * 256 + s[|s| - 1]
  }

  lemma {:induction false} Associate(x: int, y: int, z: int)
    ensures (x * y) * z == x * (y * z)
  {
  }

  lemma {:induction false} Distribute(x: int, y: int, z: int)
    ensures (x + y) * z == x * z + y * z
  {
  }

  lemma {:induction false} Pow2Add(m: nat, n: nat)
    ensures Pow2(m + n) == Pow2(m) * Pow2(n)
  {
    if m > 0 {
      Pow2Add(m - 1, n);
      Associate(2, Pow2(m - 1), Pow2(n));
    }
  }

  lemma {:induction false} Pow2Monotone(m: nat, n: nat)
    requires m < n
    ensures 2 * Pow2(m) <= Pow2(n)
  {
    if m + 1 < n { Pow2Monotone(m, n - 1); }
  }

  /** A byte appended on the right is worth 2^8 of what precedes it. */
  lemma {:induction false} Pow2Byte(n: nat)
    ensures Pow2(8 * (n + 1)) == 256 * Pow2(8 * n)
  {
    Pow2Add(8, 8 * n);
    assert Pow2(8) == 256 by {
      assert Pow2(4) == 16;
      Pow2Add(4, 4);
    }
  }

  /** Concatenation shifts the left part by the width of the right part. */
  lemma {:induction false} ValueConcat(s: seq<uint8>, t: seq<uint8>)
    ensures Value(s + t) == Value(s) * Pow2(8 * |t|) + Value(t)
  {
    if t == [] {
      assert s + t == s;
    } else {
      var t' := t[..|t| - 1];
      assert (s + t)[..|s + t| - 1] == s + t';
      ValueConcat(s, t');
      Pow2Byte(|t'|);
      Associate(Value(s), Pow2(8 * |t'|), 256);
    }
  }

  lemma {:induction false} ValueBound(s: seq<uint8>)
    ensures Value(s) < Pow2(8 * |s|)
  {
    if s != [] {
      ValueBound(s[..|s| - 1]);
      Pow2Byte(|s| - 1);
    }
  }

  /** Byte strings of one width are determined by their value. */
  lemma {:induction false} ValueInjective(s: seq<uint8>, t: seq<uint8>)
    requires |s| == |t| && Value(s) == Value(t)
    ensures s == t
  {
    if s != [] {
      var s', t' := s[..|s| - 1], t[..|t| - 1];
      assert Value(s') == Value(t') && s[|s| - 1] == t[|t| - 1];
      ValueInjective(s', t');
      assert s == s' + [s[|s| - 1]] && t == t' + [t[|t| - 1]];
    }
  }

  lemma {:induction false} DivModUnique(q: int, r: int, d: int)
    requires 0 <= r < d
    ensures (q * d + r) / d == q && (q * d + r) % d == r
  {
    var n := q * d + r;
    assert n == (n / d) * d + n % d;
    var k := q - n / d;
    assert k * d == n % d - r;
    assert k > 0 ==> k * d >= d;
    assert k < 0 ==> k * d <= -d;
  }

  /** The floor of x / d (QuotIsDivision), by repeated subtraction. */
  function Quot(x: nat, d: nat): nat
    requires d > 0
  {
    if x < d then 0 else 1 + Quot(x - d, d)
  }

  lemma {:induction false} QuotBounds(x: nat, d: nat)
    requires d > 0
    ensures Quot(x, d) * d <= x < Quot(x, d) * d + d
  {
    if x >= d {
      QuotBounds(x - d, d);
      Distribute(1, Quot(x - d, d), d);
    }
  }

  lemma {:induction false} QuotUnique(q: nat, r: nat, d: nat)
    requires r < d
    ensures Quot(q * d + r, d) == q
  {
    if q > 0 {
      Distribute(q - 1, 1, d);
      QuotUnique(q - 1, r, d);
    }
  }

  lemma {:induction false} QuotIsDivision(x: nat, d: nat)
    requires d > 0
    ensures Quot(x, d) == x / d
  {
    QuotBounds(x, d);
    DivModUnique(Quot(x, d), x - Quot(x, d) * d, d);
  }

  function Least(i: nat, j: nat): nat
  {
    if i < j then i else j
  }

  lemma {:induction false} SliceOfSlice(s: seq<uint8>, i: nat, j: nat, k: nat, l: nat)
    requires i <= j <= |s| && k <= l <= j - i
    ensures s[i..j][k..l] == s[i + k..i + l]
  {
    var whole, part := s[i..j], s[i..j][k..l];
    assert |part| == |s[i + k..i + l]|;
    forall n | 0 <= n < l - k ensures part[n] == s[i + k..i + l][n] {
      assert part[n] == whole[k + n] && whole[k + n] == s[i + (k + n)];
    }
  }

  /** memcpy into a buffer. */
  method Store(buf: array<uint8>, pos: nat, data: seq<uint8>)
    requires pos + |data| <= buf.Length
    modifies buf
    ensures forall i :: 0 <= i < buf.Length ==> buf[i] == if pos <= i < pos + |data| then data[i - pos] else old(buf[i])
  {
    for k := 0 to |data|
      invariant forall i :: 0 <= i < buf.Length ==> buf[i] == if pos <= i < pos + k then data[i - pos] else old(buf[i])
    {
      buf[pos + k] := data[k];
    }
  }

  /** Writing right behind what is there. */
  method Write(buf: array<uint8>, pos: nat, data: seq<uint8>) returns (end: nat)
    requires pos + |data| <= buf.Length
    modifies buf
    ensures end == pos + |data| && buf[..end] == old(buf[..pos]) + data
  {
    Store(buf, pos, data);
    end := pos + |data|;
  }
}
