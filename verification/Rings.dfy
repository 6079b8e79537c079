/** The bounded ring buffer that the thread pool and the lease I/O queue share:
    a head index, a tail index and a count over a fixed number of slots. */
module Rings {
  import opened Bytes

  datatype Ring<T> = Ring(slots: seq<T>, head: nat, tail: nat, count: nat)

  /** i reduced into a ring of n slots, for an i at most one turn ahead. */
  function Wrap(i: nat, n: nat): nat
    requires i < 2 * n
  {
    if i < n then i else i - n
  }

  /** The index arithmetic of the source, (i + 1) % n, is that reduction. */
  lemma {:induction false} WrapIsModular(i: nat, n: nat)
    requires i < n
    ensures (i + 1) % n == Wrap(i + 1, n)
  {
    if i + 1 < n {
      DivModUnique(0, i + 1, n);
    } else {
      DivModUnique(1, 0, n);
    }
  }

  ghost predicate ValidRing<T>(r: Ring<T>)
  {
    && r.head < |r.slots| && r.tail < |r.slots| && r.count <= |r.slots|
    && r.tail == Wrap(r.head + r.count, |r.slots|)
  }

  /** What the ring holds, oldest first. */
  ghost function Held<T>(r: Ring<T>): (s: seq<T>)
    requires ValidRing(r)
    ensures |s| == r.count
    ensures forall i :: 0 <= i < r.count ==> s[i] == r.slots[Wrap(r.head + i, |r.slots|)]
  {
    seq(r.count, i requires 0 <= i < r.count => r.slots[Wrap(r.head + i, |r.slots|)])
  }

  function Put<T>(r: Ring<T>, x: T): Ring<T>
    requires r.tail < |r.slots|
  {
    Ring(r.slots[r.tail := x], r.head, Wrap(r.tail + 1, |r.slots|), r.count + 1)
  }

  function Take<T>(r: Ring<T>): Ring<T>
    requires r.head < |r.slots| && r.count > 0
  {
    Ring(r.slots, Wrap(r.head + 1, |r.slots|), r.tail, r.count - 1)
  }

  lemma {:induction false} PutAppends<T>(r: Ring<T>, x: T)
    requires ValidRing(r) && r.count < |r.slots|
    ensures ValidRing(Put(r, x)) && Held(Put(r, x)) == Held(r) + [x]
  {
  }

  lemma {:induction false} TakeDrops<T>(r: Ring<T>)
    requires ValidRing(r) && r.count > 0
    ensures ValidRing(Take(r)) && Held(r) == [r.slots[r.head]] + Held(Take(r))
  {
    assert |Held(r)| == |[r.slots[r.head]] + Held(Take(r))|;
    forall i | 0 <= i < r.count
      ensures Held(r)[i] == ([r.slots[r.head]] + Held(Take(r)))[i]
    {
    }
  }
}
