/** The asynchronous lease writer of DHCP_Server/DHCPv4/src/lease_v4.c: producers put
    operations into a ring of 256, one I/O thread takes them out and carries them
    out. As in ThreadPool, each critical section is one step. */
module IoQueue {
  import opened Bytes
  import opened Rings

  const IO_QUEUE_SIZE := 256

  /** An operation; the lease in SaveLease is a copy of the caller's record. */
  datatype Op = SaveLease(record: seq<uint8>) | SaveAll | Marker

  /** The fields the queue's lock protects. */
  datatype Queue = Queue(ring: Ring<Op>, running: bool, processed: nat, dropped: nat)

  ghost predicate ValidQueue(q: Queue)
  {
    ValidRing(q.ring) && |q.ring.slots| == IO_QUEUE_SIZE
  }

  /* ---------- the critical sections ---------- */

  /** lease_io_queue_save_lease and lease_io_queue_save_all. */
  function Enqueued(q: Queue, op: Op): Queue
    requires q.ring.tail < |q.ring.slots|
  {
    if q.ring.count >= IO_QUEUE_SIZE then q.(dropped := q.dropped + 1) else q.(ring := Put(q.ring, op))
  }

  /** The locked part of lease_io_stop: a full ring swallows the marker. */
  function Stopped(q: Queue): Queue
    requires q.ring.tail < |q.ring.slots|
  {
    if q.running && q.ring.count < IO_QUEUE_SIZE then q.(ring := Put(q.ring, Marker)) else q
  }

  /* ---------- the writer as a state machine ---------- */

  /** The I/O thread: about to lock, blocked on the condition variable, carrying out
      an operation, about to count it, or gone. */
  datatype Thread = Ready | Waiting | Working(op: Op) | Counting | Exited

  /** accepted and done record history: the operations that entered the ring and
      those carried out. */
  datatype Writer = Writer(q: Queue, thread: Thread, accepted: seq<Op>, done: seq<Op>)

  datatype Event = Save(op: Op) | Stop | Look | CarryOut | Account | Spurious

  ghost predicate Enabled(w: Writer, e: Event)
  {
    match e
    case Save(op) => op != Marker
    case Stop => true
    case Look => w.thread.Ready?
    case CarryOut => w.thread.Working?
    case Account => w.thread.Counting?
    case Spurious => w.thread.Waiting?
  }

  /** What a signal does to the thread. */
  function Signalled(t: Thread): Thread
  {
    if t.Waiting? then Ready else t
  }

  function Step(w: Writer, e: Event): Writer
    requires Enabled(w, e) && w.q.ring.head < |w.q.ring.slots| && w.q.ring.tail < |w.q.ring.slots|
  {
    match e
    case Save(op) =>
      if w.q.ring.count >= IO_QUEUE_SIZE then w.(q := Enqueued(w.q, op))
      else w.(q := Enqueued(w.q, op), thread := Signalled(w.thread), accepted := w.accepted + [op])
    case Stop =>
      if !w.q.running then w
      else if w.q.ring.count >= IO_QUEUE_SIZE then w.(thread := Signalled(w.thread))
      else w.(q := Stopped(w.q), thread := Signalled(w.thread), accepted := w.accepted + [Marker])
    case Look =>
      if w.q.ring.count == 0 then w.(thread := if w.q.running then Waiting else Exited)
      else w.(q := w.q.(ring := Take(w.q.ring)), thread := Working(w.q.ring.slots[w.q.ring.head]))
    case CarryOut =>
      if w.thread.op == Marker then w.(q := w.q.(running := false), thread := Exited)
      else w.(thread := Counting, done := w.done + [w.thread.op])
    case Account => w.(q := w.q.(processed := w.q.processed + 1), thread := Ready)
    case Spurious => w.(thread := Ready)
  }

  /** The state lease_io_init and lease_io_start set up. */
  function Started(blank: Op): Writer
  {
    Writer(Queue(Ring(seq(IO_QUEUE_SIZE, _ => blank), 0, 0, 0), true, 0, 0), Ready, [], [])
  }

  /* ---------- what every reachable state satisfies ---------- */

  /** The operation that has left the ring and is not yet carried out. */
  function InFlight(t: Thread): seq<Op>
  {
    if t.Working? then [t.op] else if t.Exited? then [Marker] else []
  }

  ghost predicate Inv(w: Writer)
  {
    && ValidQueue(w.q)
    && w.accepted == w.done + InFlight(w.thread) + Held(w.q.ring)
    && Marker !in w.done
    && (w.thread.Waiting? ==> w.q.ring.count == 0)
    && (w.q.running <==> !w.thread.Exited?)
    && w.q.processed + (if w.thread.Counting? then 1 else 0) == |w.done|
  }

  lemma {:induction false} PutKeepsInv(w: Writer, op: Op)
    requires Inv(w) && w.q.ring.count < IO_QUEUE_SIZE
    ensures Inv(w.(q := w.q.(ring := Put(w.q.ring, op)), thread := Signalled(w.thread), accepted := w.accepted + [op]))
  {
    PutAppends(w.q.ring, op);
    assert InFlight(Signalled(w.thread)) == InFlight(w.thread);
    var before := w.done + InFlight(w.thread);
    assert before + Held(w.q.ring) + [op] == before + (Held(w.q.ring) + [op]);
  }

  lemma {:induction false} StepKeepsInv(w: Writer, e: Event)
    requires Inv(w) && Enabled(w, e)
    ensures Inv(Step(w, e))
  {
    if e.Save? && w.q.ring.count < IO_QUEUE_SIZE {
      PutKeepsInv(w, e.op);
    } else if e.Stop? && w.q.running && w.q.ring.count < IO_QUEUE_SIZE {
      PutKeepsInv(w, Marker);
    }
  }

  ghost predicate Follows(w: Writer, e: Event, t: Writer)
  {
    && Enabled(w, e) && w.q.ring.head < |w.q.ring.slots| && w.q.ring.tail < |w.q.ring.slots|
    && t == Step(w, e)
  }

  ghost predicate IsRun(ws: seq<Writer>, es: seq<Event>)
  {
    |ws| == |es| + 1 && forall i :: 0 <= i < |es| ==> Follows(ws[i], es[i], ws[i + 1])
  }

  ghost predicate Reachable(blank: Op, w: Writer)
  {
    exists ws, es :: IsRun(ws, es) && ws[0] == Started(blank) && w == ws[|es|]
  }

  lemma {:induction false} RunKeepsInv(ws: seq<Writer>, es: seq<Event>, n: nat)
    requires IsRun(ws, es) && Inv(ws[0]) && n <= |es|
    ensures Inv(ws[n])
  {
    if n > 0 {
      RunKeepsInv(ws, es, n - 1);
      assert Follows(ws[n - 1], es[n - 1], ws[n]);
      StepKeepsInv(ws[n - 1], es[n - 1]);
    }
  }

  lemma {:induction false} ReachableIsInv(blank: Op, w: Writer)
    requires Reachable(blank, w)
    ensures Inv(w)
  {
    var ws, es :| IsRun(ws, es) && ws[0] == Started(blank) && w == ws[|es|];
    RunKeepsInv(ws, es, |es|);
  }

  /** Every accepted operation is carried out exactly once and in the order of
      acceptance: the accepted ones are the finished ones, then the one in hand, then
      those in the ring. */
  lemma {:induction false} CarriedOutInOrder(blank: Op, w: Writer)
    requires Reachable(blank, w)
    ensures ValidRing(w.q.ring) && w.accepted == w.done + InFlight(w.thread) + Held(w.q.ring)
    ensures |InFlight(w.thread)| <= 1
    ensures w.thread.Waiting? ==> w.accepted == w.done
    ensures w.q.processed + (if w.thread.Counting? then 1 else 0) == |w.done|
  {
    ReachableIsInv(blank, w);
  }

  function Saves(es: seq<Event>): nat
  {
    if es == [] then 0 else Saves(es[..|es| - 1]) + (if es[|es| - 1].Save? then 1 else 0)
  }

  function Markers(s: seq<Op>): nat
  {
    if s == [] then 0 else Markers(s[..|s| - 1]) + (if s[|s| - 1] == Marker then 1 else 0)
  }

  lemma {:induction false} MarkersLast(s: seq<Op>, op: Op)
    ensures Markers(s + [op]) == Markers(s) + if op == Marker then 1 else 0
  {
    assert (s + [op])[..|s|] == s;
  }

  lemma {:induction false} SaveIsCounted(w: Writer, e: Event)
    requires Enabled(w, e) && w.q.ring.head < |w.q.ring.slots| && w.q.ring.tail < |w.q.ring.slots|
    ensures var t := Step(w, e);
      |t.accepted| - Markers(t.accepted) + t.q.dropped ==
      |w.accepted| - Markers(w.accepted) + w.q.dropped + if e.Save? then 1 else 0
  {
    if e.Save? { MarkersLast(w.accepted, e.op); }
    MarkersLast(w.accepted, Marker);
  }

  /** Every request to save is accepted or counted as dropped, in every run. */
  lemma {:induction false} SavesAreCounted(blank: Op, ws: seq<Writer>, es: seq<Event>)
    requires IsRun(ws, es) && ws[0] == Started(blank)
    ensures var w := ws[|es|]; Saves(es) == |w.accepted| - Markers(w.accepted) + w.q.dropped
  {
    if es != [] {
      var n := |es| - 1;
      var before, events := ws[..|es|], es[..n];
      forall i | 0 <= i < n ensures Follows(before[i], events[i], before[i + 1]) {
        assert Follows(ws[i], es[i], ws[i + 1]);
      }
      SavesAreCounted(blank, before, events);
      assert Follows(ws[n], es[n], ws[n + 1]);
      SaveIsCounted(ws[n], es[n]);
    }
  }

  /** When the thread is gone, exactly the operations accepted before the first
      shutdown marker have been carried out. */
  lemma {:induction false} ExitFlushes(blank: Op, w: Writer)
    requires Reachable(blank, w) && w.thread.Exited?
    ensures var k := |w.done|;
      k < |w.accepted| && w.accepted[k] == Marker && w.done == w.accepted[..k] && Marker !in w.accepted[..k]
  {
    ReachableIsInv(blank, w);
    assert w.accepted[..|w.done|] == w.done;
  }

  /* ---------- does the thread come to an end ---------- */

  /** Where the first marker stands in a list that has one. */
  function Ahead(s: seq<Op>): nat
  {
    if s == [] || s[0] == Marker then 0 else 1 + Ahead(s[1..])
  }

  lemma {:induction false} AheadAppend(s: seq<Op>, op: Op)
    requires Marker in s
    ensures Ahead(s + [op]) == Ahead(s)
  {
    if s[0] != Marker {
      assert (s + [op])[1..] == s[1..] + [op];
      AheadAppend(s[1..], op);
    }
  }

  /** A shutdown marker is on its way to the thread. */
  ghost predicate Pending(w: Writer)
    requires ValidRing(w.q.ring)
  {
    w.thread == Working(Marker) || Marker in Held(w.q.ring)
  }

  /** The number of steps the thread takes before it is gone. */
  ghost function StepsLeft(w: Writer): nat
    requires ValidRing(w.q.ring)
  {
    match w.thread
    case Exited => 0
    case Working(op) => if op == Marker then 1 else 3 * Ahead(Held(w.q.ring)) + 4
    case Counting => 3 * Ahead(Held(w.q.ring)) + 3
    case Ready => 3 * Ahead(Held(w.q.ring)) + 2
    case Waiting => 3 * Ahead(Held(w.q.ring)) + 2
  }

  predicate IsThreadStep(e: Event)
  {
    e.Look? || e.CarryOut? || e.Account?
  }

  lemma {:induction false} PutKeepsPending(w: Writer, op: Op)
    requires Inv(w) && w.q.ring.count < IO_QUEUE_SIZE && Pending(w)
    ensures var t := w.(q := w.q.(ring := Put(w.q.ring, op)), thread := Signalled(w.thread),
            accepted := w.accepted + [op]);
      ValidRing(t.q.ring) && Pending(t) && StepsLeft(t) == StepsLeft(w)
  {
    PutAppends(w.q.ring, op);
    if Marker in Held(w.q.ring) {
      AheadAppend(Held(w.q.ring), op);
    }
  }

  lemma {:induction false} LookTowardsMarker(w: Writer)
    requires Inv(w) && w.thread.Ready? && Pending(w)
    ensures var t := Step(w, Look); ValidRing(t.q.ring) && Pending(t) && StepsLeft(t) + 1 == StepsLeft(w)
  {
    TakeDrops(w.q.ring);
    assert Held(w.q.ring)[1..] == Held(Take(w.q.ring));
  }

  /** While a marker is pending every step of the thread brings its end one step
      nearer, and nothing producers do delays it. */
  lemma {:induction false} PendingStep(w: Writer, e: Event)
    requires Inv(w) && Enabled(w, e) && Pending(w) && !w.thread.Exited?
    ensures var t := Step(w, e);
      ValidRing(t.q.ring) && (t.thread.Exited? || Pending(t))
      && StepsLeft(t) + (if IsThreadStep(e) then 1 else 0) == StepsLeft(w)
  {
    if e.Save? && w.q.ring.count < IO_QUEUE_SIZE {
      PutKeepsPending(w, e.op);
    } else if e.Stop? && w.q.running && w.q.ring.count < IO_QUEUE_SIZE {
      PutKeepsPending(w, Marker);
    } else if e.Look? {
      LookTowardsMarker(w);
    }
  }

  /** With a marker pending the thread always has a step to take. */
  lemma {:induction false} PendingProceeds(w: Writer)
    requires Inv(w) && Pending(w) && !w.thread.Exited?
    ensures exists e :: IsThreadStep(e) && Enabled(w, e)
  {
    var e := if w.thread.Ready? then Look else if w.thread.Counting? then Account else CarryOut;
    assert IsThreadStep(e) && Enabled(w, e);
  }

  function ThreadSteps(es: seq<Event>): nat
  {
    if es == [] then 0 else ThreadSteps(es[..|es| - 1]) + (if IsThreadStep(es[|es| - 1]) then 1 else 0)
  }

  lemma {:induction false} ShorterRun(ws: seq<Writer>, es: seq<Event>)
    requires IsRun(ws, es) && es != []
    ensures IsRun(ws[..|es|], es[..|es| - 1]) && Follows(ws[|es| - 1], es[|es| - 1], ws[|es|])
  {
    var n := |es| - 1;
    forall i | 0 <= i < n ensures Follows(ws[..|es|][i], es[..n][i], ws[..|es|][i + 1]) {
      assert Follows(ws[i], es[i], ws[i + 1]);
    }
    assert Follows(ws[n], es[n], ws[n + 1]);
  }

  lemma {:induction false} ExitIsFinal(ws: seq<Writer>, es: seq<Event>)
    requires IsRun(ws, es) && ws[0].thread.Exited?
    ensures ws[|es|].thread.Exited? && ws[|es|].done == ws[0].done && ThreadSteps(es) == 0
  {
    if es != [] {
      ShorterRun(ws, es);
      ExitIsFinal(ws[..|es|], es[..|es| - 1]);
    }
  }

  /** A pending marker ends the thread after exactly StepsLeft steps of its own,
      whatever the producers do meanwhile. */
  lemma {:induction false} PendingMarkerEndsThread(ws: seq<Writer>, es: seq<Event>)
    requires IsRun(ws, es) && Inv(ws[0]) && !ws[0].thread.Exited? && Pending(ws[0])
    ensures Inv(ws[|es|]) && (ws[|es|].thread.Exited? || Pending(ws[|es|]))
    ensures ThreadSteps(es) + StepsLeft(ws[|es|]) == StepsLeft(ws[0])
    ensures ws[|es|].thread.Exited? <==> ThreadSteps(es) == StepsLeft(ws[0])
  {
    RunKeepsInv(ws, es, |es|);
    if es != [] {
      ShorterRun(ws, es);
      var n := |es| - 1;
      PendingMarkerEndsThread(ws[..|es|], es[..n]);
      if !ws[n].thread.Exited? {
        PendingStep(ws[n], es[n]);
      }
    }
  }

  /** Without a marker the thread never ends, unless lease_io_stop is called again. */
  lemma {:induction false} NoMarkerNoEnd(ws: seq<Writer>, es: seq<Event>)
    requires IsRun(ws, es) && Inv(ws[0]) && !ws[0].thread.Exited? && !Pending(ws[0])
    requires forall i :: 0 <= i < |es| ==> !es[i].Stop?
    ensures Inv(ws[|es|]) && !ws[|es|].thread.Exited? && !Pending(ws[|es|])
  {
    RunKeepsInv(ws, es, |es|);
    if es != [] {
      ShorterRun(ws, es);
      var n := |es| - 1;
      NoMarkerNoEnd(ws[..|es|], es[..n]);
      var w := ws[n];
      if es[n].Save? && w.q.ring.count < IO_QUEUE_SIZE {
        PutAppends(w.q.ring, es[n].op);
      } else if es[n].Look? && w.q.ring.count > 0 {
        TakeDrops(w.q.ring);
        assert Held(w.q.ring)[0] == w.q.ring.slots[w.q.ring.head];
      }
    }
  }

  /** lease_io_stop leaves a marker behind exactly when the ring has room for it or
      one was already on its way; by the two lemmas above this decides whether the
      join in lease_io_stop returns. */
  lemma {:induction false} StopLeavesMarker(w: Writer)
    requires Inv(w) && w.q.running
    ensures Inv(Step(w, Stop))
    ensures Pending(Step(w, Stop)) <==> w.q.ring.count < IO_QUEUE_SIZE || Pending(w)
  {
    StepKeepsInv(w, Stop);
    if w.q.ring.count < IO_QUEUE_SIZE {
      PutAppends(w.q.ring, Marker);
      assert Held(Put(w.q.ring, Marker))[w.q.ring.count] == Marker;
    }
  }

  lemma {:induction false} Filled(blank: Op, n: nat) returns (ws: seq<Writer>, es: seq<Event>)
    requires n <= IO_QUEUE_SIZE
    ensures IsRun(ws, es) && ws[0] == Started(blank) && Inv(ws[|es|])
    ensures var w := ws[|es|]; w.q.ring.count == n && w.thread.Ready? && !Pending(w)
  {
    if n == 0 {
      ws, es := [Started(blank)], [];
    } else {
      ws, es := Filled(blank, n - 1);
      var w := ws[|es|];
      StepKeepsInv(w, Save(SaveAll));
      PutAppends(w.q.ring, SaveAll);
      ws, es := ws + [Step(w, Save(SaveAll))], es + [Save(SaveAll)];
    }
  }

  /** So lease_io_stop can hang: 256 operations queued before the thread gets to run
      leave no room for the marker, and no later step but another stop ends the
      thread. */
  lemma {:induction false} StopCanHang(blank: Op) returns (w: Writer)
    ensures Reachable(blank, w) && Inv(w) && w.q.running
    ensures !Step(w, Stop).thread.Exited? && !Pending(Step(w, Stop))
  {
    var ws, es := Filled(blank, IO_QUEUE_SIZE);
    w := ws[|es|];
  }

  /* ---------- the queue object ---------- */

  class LeaseQueue {
    const slots: array<Op>
    var head: nat
    var tail: nat
    var count: nat
    var running: bool
    var processed: nat
    var dropped: nat

    ghost predicate Valid()
      reads this, slots
    {
      ValidQueue(View())
    }

    ghost function View(): Queue
      reads this, slots
    {
      Queue(Ring(slots[..], head, tail, count), running, processed, dropped)
    }

    /** lease_io_init followed by lease_io_start. */
    constructor ()
      ensures Valid() && fresh(slots) && Held(View().ring) == [] && running && processed == dropped == 0
    {
      slots := new Op[IO_QUEUE_SIZE];
      head, tail, count := 0, 0, 0;
      running, processed, dropped := true, 0, 0;
    }

    /** The common tail of the three producers, once there is room. */
    method Append(op: Op)
      requires Valid() && count < IO_QUEUE_SIZE
      modifies this, slots
      ensures Valid() && View() == old(View()).(ring := Put(old(View()).ring, op))
      ensures Held(View().ring) == old(Held(View().ring)) + [op]
    {
      PutAppends(View().ring, op);
      WrapIsModular(tail, slots.Length);
      ghost var was := slots[..];
      slots[tail] := op;
      assert slots[..] == was[tail := op];
      tail := (tail + 1) % IO_QUEUE_SIZE;
      count := count + 1;
    }

    /** lease_io_queue_save_lease and lease_io_queue_save_all. */
    method Save(op: Op) returns (err: int)
      requires Valid() && op != Marker
      modifies this, slots
      ensures Valid() && View() == Enqueued(old(View()), op)
      ensures err == 0 <==> old(count) < IO_QUEUE_SIZE
      ensures Held(View().ring) == old(Held(View().ring)) + if err == 0 then [op] else []
    {
      if count >= IO_QUEUE_SIZE {
        dropped := dropped + 1;
        return -1;
      }
      Append(op);
      return 0;
    }

    /** The locked part of lease_io_stop. */
    method RequestStop()
      requires Valid()
      modifies this, slots
      ensures Valid() && View() == Stopped(old(View()))
    {
      if running && count < IO_QUEUE_SIZE {
        Append(Marker);
      }
    }

    /** The dequeue in lease_io_thread_func, once the ring is not empty. */
    method TakeOp() returns (op: Op)
      requires Valid() && count > 0
      modifies this
      ensures Valid() && View() == old(View()).(ring := Take(old(View()).ring))
      ensures old(Held(View().ring)) == [op] + Held(View().ring)
    {
      TakeDrops(View().ring);
      WrapIsModular(head, slots.Length);
      op := slots[head];
      head := (head + 1) % IO_QUEUE_SIZE;
      count := count - 1;
    }
  }
}
