/** The worker pool of DHCP_Server/DHCPv4/utils/thread_pool.c. Every access to the
    shared fields happens inside one critical section of the pool's lock, so the
    concurrent program is a state machine over those sections. */
module ThreadPool {
  import opened Bytes
  import opened Rings

  const MAX_THREADS := 64
  const MAX_QUEUE := 65536

  datatype Task = Task(routine: int, argument: int)

  datatype Shutdown = Open | Graceful | Immediate

  /** The fields the lock protects. */
  datatype Queue = Queue(ring: Ring<Task>, shutdown: Shutdown)

  /* ---------- the critical sections ---------- */

  /** thread_pool_add; None when nothing is added. */
  function AddTask(q: Queue, task: Task): Option<Queue>
    requires q.ring.tail < |q.ring.slots|
  {
    if q.ring.count == |q.ring.slots| || q.shutdown != Open then None
    else Some(q.(ring := Put(q.ring, task)))
  }

  /** What one look at the queue makes a worker do. */
  datatype Turn = Sleep | Leave | Grab(task: Task)

  function TurnOf(q: Queue): Turn
    requires q.ring.head < |q.ring.slots|
  {
    if q.ring.count == 0 && q.shutdown == Open then Sleep
    else if q.ring.count == 0 || q.shutdown == Immediate then Leave
    else Grab(q.ring.slots[q.ring.head])
  }

  function AfterTurn(q: Queue): Queue
    requires q.ring.head < |q.ring.slots|
  {
    if TurnOf(q).Grab? then q.(ring := Take(q.ring)) else q
  }

  /** The locked part of thread_pool_destroy; None when a shutdown is already on. */
  function BeginDestroy(q: Queue, immediate: bool): Option<Queue>
  {
    if q.shutdown != Open then None
    else Some(q.(shutdown := if immediate then Immediate else Graceful))
  }

  /* ---------- the pool as a state machine ---------- */

  /** Where a worker is: about to take the lock, blocked on the condition variable,
      running a task outside the lock, or gone. */
  datatype Worker = Ready | Waiting | Running(task: Task) | Exited

  /** lockHeld: a second thread_pool_destroy returned without unlocking. The last
      three fields record history: what was accepted, handed out and finished. */
  datatype Pool = Pool(
    q: Queue, workers: seq<Worker>, lockHeld: bool,
    accepted: seq<Task>, taken: seq<Task>, done: seq<Task>)

  datatype Event =
    | Add(task: Task, woken: set<nat>)
    | Look(worker: nat)
    | Finish(worker: nat)
    | Spurious(worker: nat)
    | Destroy(immediate: bool)

  function Wake(ws: seq<Worker>, woken: set<nat>): (r: seq<Worker>)
    ensures |r| == |ws|
    ensures forall i :: 0 <= i < |ws| ==> r[i] == if i in woken && ws[i].Waiting? then Ready else ws[i]
  {
    if ws == [] then []
    else
      var n := |ws| - 1;
      Wake(ws[..n], woken) + [if n in woken && ws[n].Waiting? then Ready else ws[n]]
  }

  function Everyone(n: nat): (r: set<nat>)
    ensures forall i :: i in r <==> 0 <= i < n
  {
    if n == 0 then {} else Everyone(n - 1) + {n - 1}
  }

  ghost predicate Sleeping(ws: seq<Worker>)
  {
    exists i :: 0 <= i < |ws| && ws[i].Waiting?
  }

  ghost predicate AllExited(ws: seq<Worker>)
  {
    forall i :: 0 <= i < |ws| ==> ws[i].Exited?
  }

  /** Which steps can happen. A signal wakes at least one sleeper if there is one,
      possibly more; nothing that needs the lock happens once it is lost; and nobody may
      call in once the last worker has exited, because thread_pool_destroy then frees
      the pool. */
  ghost predicate Enabled(p: Pool, e: Event)
  {
    match e
    case Add(_, woken) =>
      && !p.lockHeld && !AllExited(p.workers)
      && (Sleeping(p.workers) ==> exists i :: i in woken && i < |p.workers| && p.workers[i].Waiting?)
    case Look(i) => !p.lockHeld && i < |p.workers| && p.workers[i].Ready?
    case Finish(i) => i < |p.workers| && p.workers[i].Running?
    case Spurious(i) => i < |p.workers| && p.workers[i].Waiting?
    case Destroy(_) => !p.lockHeld && !AllExited(p.workers)
  }

  function Step(p: Pool, e: Event): Pool
    requires Enabled(p, e) && p.q.ring.head < |p.q.ring.slots| && p.q.ring.tail < |p.q.ring.slots|
  {
    match e
    case Add(task, woken) =>
      var r := AddTask(p.q, task);
      if r.None? then p
      else p.(q := r.value, workers := Wake(p.workers, woken), accepted := p.accepted + [task])
    case Look(i) =>
      (match TurnOf(p.q)
       case Sleep => p.(workers := p.workers[i := Waiting])
       case Leave => p.(workers := p.workers[i := Exited])
       case Grab(task) =>
         p.(q := AfterTurn(p.q), workers := p.workers[i := Running(task)], taken := p.taken + [task]))
    case Finish(i) =>
      p.(workers := p.workers[i := Ready], done := p.done + [p.workers[i].task])
    case Spurious(i) => p.(workers := p.workers[i := Ready])
    case Destroy(immediate) =>
      var r := BeginDestroy(p.q, immediate);
      if r.None? then p.(lockHeld := true)
      else p.(q := r.value, workers := Wake(p.workers, Everyone(|p.workers|)))
  }

  /** thread_pool_create. */
  function Create(threads: int, size: int, blank: Task): Option<Pool>
  {
    if threads <= 0 || threads > MAX_THREADS || size <= 0 || size > MAX_QUEUE then None
    else
      var ring := Ring(seq(size, _ => blank), 0, 0, 0);
      Some(Pool(Queue(ring, Open), seq(threads, _ => Ready), false, [], [], []))
  }

  /* ---------- what every reachable state satisfies ---------- */

  function HoldsOne(w: Worker, t: Task): nat
  {
    if w == Running(t) then 1 else 0
  }

  /** How many workers are executing t right now. */
  function InHand(ws: seq<Worker>, t: Task): nat
  {
    if ws == [] then 0 else InHand(ws[..|ws| - 1], t) + HoldsOne(ws[|ws| - 1], t)
  }

  function AwakeOne(w: Worker): nat
  {
    if w.Ready? then 1 else 0
  }

  /** How many workers are on their way to look at the queue. */
  function Awake(ws: seq<Worker>): nat
  {
    if ws == [] then 0 else Awake(ws[..|ws| - 1]) + AwakeOne(ws[|ws| - 1])
  }

  lemma {:induction false} InHandUpdate(ws: seq<Worker>, i: nat, w: Worker, t: Task)
    requires i < |ws|
    ensures InHand(ws[i := w], t) + HoldsOne(ws[i], t) == InHand(ws, t) + HoldsOne(w, t)
  {
    var n := |ws| - 1;
    if i == n {
      assert ws[i := w][..n] == ws[..n];
    } else {
      InHandUpdate(ws[..n], i, w, t);
      assert ws[i := w][..n] == ws[..n][i := w];
    }
  }

  lemma {:induction false} AwakeUpdate(ws: seq<Worker>, i: nat, w: Worker)
    requires i < |ws|
    ensures Awake(ws[i := w]) + AwakeOne(ws[i]) == Awake(ws) + AwakeOne(w)
    ensures AwakeOne(ws[i]) <= Awake(ws)
  {
    var n := |ws| - 1;
    if i == n {
      assert ws[i := w][..n] == ws[..n];
    } else {
      AwakeUpdate(ws[..n], i, w);
      assert ws[i := w][..n] == ws[..n][i := w];
    }
  }

  lemma {:induction false} WakeTallies(ws: seq<Worker>, woken: set<nat>)
    ensures forall t :: InHand(Wake(ws, woken), t) == InHand(ws, t)
    ensures Awake(Wake(ws, woken)) >= Awake(ws)
    ensures (exists i :: i in woken && i < |ws| && ws[i].Waiting?) ==> Awake(Wake(ws, woken)) > Awake(ws)
  {
    if ws != [] {
      var n := |ws| - 1;
      WakeTallies(ws[..n], woken);
      assert Wake(ws, woken)[..n] == Wake(ws[..n], woken);
      if i :| i in woken && i < |ws| && ws[i].Waiting? {
        assert i < n ==> ws[..n][i].Waiting?;
      }
    }
  }

  /** How often t occurs in s. */
  function Times(s: seq<Task>, t: Task): nat
  {
    if s == [] then 0 else Times(s[..|s| - 1], t) + (if s[|s| - 1] == t then 1 else 0)
  }

  lemma {:induction false} TimesIsMultiset(s: seq<Task>, t: Task)
    ensures Times(s, t) == multiset(s)[t]
  {
    if s != [] {
      TimesIsMultiset(s[..|s| - 1], t);
      assert s == s[..|s| - 1] + [s[|s| - 1]];
    }
  }

  /** A task handed out is finished or being executed. */
  ghost predicate Balanced(p: Pool, t: Task)
  {
    Times(p.taken, t) == Times(p.done, t) + InHand(p.workers, t)
  }

  /** Tasks are neither lost nor duplicated, and leave the queue in the order they
      were accepted. */
  ghost predicate Conserved(p: Pool)
  {
    && ValidRing(p.q.ring)
    && p.accepted == p.taken + Held(p.q.ring)
    && (forall t :: Balanced(p, t))
  }

  /** A worker sleeps only while every queued task has a woken worker of its own. */
  ghost predicate NoLostWakeup(p: Pool)
  {
    Sleeping(p.workers) ==> p.q.ring.count <= Awake(p.workers)
  }

  /** Nobody leaves an open pool, nobody sleeps in a closing one, and from a pool
      closing gracefully nobody leaves work behind. */
  ghost predicate Orderly(p: Pool)
  {
    && (p.q.shutdown != Open ==> !Sleeping(p.workers))
    && (forall i :: 0 <= i < |p.workers| && p.workers[i].Exited? ==>
          p.q.shutdown == Immediate || (p.q.shutdown == Graceful && p.q.ring.count == 0))
    && (p.lockHeld ==> p.q.shutdown != Open)
  }

  ghost predicate Inv(p: Pool)
  {
    Conserved(p) && NoLostWakeup(p) && Orderly(p)
  }

  lemma {:induction false} WakeBalances(p: Pool, q: Pool, woken: set<nat>)
    requires forall t :: Balanced(p, t)
    requires q.taken == p.taken && q.done == p.done && q.workers == Wake(p.workers, woken)
    ensures forall t :: Balanced(q, t)
  {
    WakeTallies(p.workers, woken);
    forall t ensures Balanced(q, t) {
      assert Balanced(p, t);
    }
  }

  lemma {:induction false} AddConserves(p: Pool, task: Task, woken: set<nat>)
    requires Conserved(p) && Enabled(p, Add(task, woken))
    ensures Conserved(Step(p, Add(task, woken)))
  {
    if AddTask(p.q, task).Some? {
      PutAppends(p.q.ring, task);
      WakeBalances(p, Step(p, Add(task, woken)), woken);
      assert p.accepted + [task] == p.taken + (Held(p.q.ring) + [task]);
    }
  }

  lemma {:induction false} AddKeepsOrder(p: Pool, task: Task, woken: set<nat>)
    requires ValidRing(p.q.ring) && NoLostWakeup(p) && Orderly(p) && Enabled(p, Add(task, woken))
    ensures NoLostWakeup(Step(p, Add(task, woken))) && Orderly(Step(p, Add(task, woken)))
  {
    WakeTallies(p.workers, woken);
  }

  /** An idle worker goes to sleep or leaves. */
  lemma {:induction false} IdleBalances(p: Pool, i: nat, w: Worker, t: Task)
    requires Balanced(p, t) && i < |p.workers| && p.workers[i].Ready? && !w.Running?
    ensures Balanced(p.(workers := p.workers[i := w]), t)
  {
    InHandUpdate(p.workers, i, w, t);
  }

  /** Or it is handed a task. */
  lemma {:induction false} HandOutBalances(p: Pool, i: nat, task: Task, q: Queue, t: Task)
    requires Balanced(p, t) && i < |p.workers| && p.workers[i].Ready?
    ensures Balanced(p.(q := q, workers := p.workers[i := Running(task)], taken := p.taken + [task]), t)
  {
    InHandUpdate(p.workers, i, Running(task), t);
    assert (p.taken + [task])[..|p.taken|] == p.taken;
  }

  lemma {:induction false} LookBalances(p: Pool, i: nat, t: Task)
    requires ValidRing(p.q.ring) && Balanced(p, t) && Enabled(p, Look(i))
    ensures Balanced(Step(p, Look(i)), t)
  {
    match TurnOf(p.q)
    case Sleep => IdleBalances(p, i, Waiting, t);
    case Leave => IdleBalances(p, i, Exited, t);
    case Grab(task) => HandOutBalances(p, i, task, AfterTurn(p.q), t);
  }

  lemma {:induction false} LookConserves(p: Pool, i: nat)
    requires Conserved(p) && Enabled(p, Look(i))
    ensures Conserved(Step(p, Look(i)))
  {
    var q := Step(p, Look(i));
    forall t ensures Balanced(q, t) {
      LookBalances(p, i, t);
    }
    if TurnOf(p.q).Grab? {
      TakeDrops(p.q.ring);
      assert q.taken + Held(q.q.ring) == p.taken + ([p.q.ring.slots[p.q.ring.head]] + Held(q.q.ring));
    }
  }

  lemma {:induction false} LookKeepsOrder(p: Pool, i: nat)
    requires ValidRing(p.q.ring) && NoLostWakeup(p) && Orderly(p) && Enabled(p, Look(i))
    ensures NoLostWakeup(Step(p, Look(i))) && Orderly(Step(p, Look(i)))
  {
    AwakeUpdate(p.workers, i, Step(p, Look(i)).workers[i]);
  }

  lemma {:induction false} FinishBalances(p: Pool, i: nat, t: Task)
    requires Balanced(p, t) && i < |p.workers| && p.workers[i].Running?
    ensures Balanced(p.(workers := p.workers[i := Ready], done := p.done + [p.workers[i].task]), t)
  {
    InHandUpdate(p.workers, i, Ready, t);
  }

  lemma {:induction false} SpuriousBalances(p: Pool, i: nat, t: Task)
    requires Balanced(p, t) && i < |p.workers| && p.workers[i].Waiting?
    ensures Balanced(p.(workers := p.workers[i := Ready]), t)
  {
    InHandUpdate(p.workers, i, Ready, t);
  }

  lemma {:induction false} RejoinKeepsOrder(p: Pool, e: Event)
    requires ValidRing(p.q.ring) && NoLostWakeup(p) && Orderly(p) && Enabled(p, e) && (e.Finish? || e.Spurious?)
    ensures NoLostWakeup(Step(p, e)) && Orderly(Step(p, e))
  {
    AwakeUpdate(p.workers, e.worker, Ready);
  }

  lemma {:induction false} RejoinKeepsInv(p: Pool, e: Event)
    requires Inv(p) && Enabled(p, e) && (e.Finish? || e.Spurious?)
    ensures Inv(Step(p, e))
  {
    RejoinKeepsOrder(p, e);
    forall t ensures Balanced(Step(p, e), t) {
      if e.Finish? {
        FinishBalances(p, e.worker, t);
      } else {
        SpuriousBalances(p, e.worker, t);
      }
    }
  }

  lemma {:induction false} DestroyConserves(p: Pool, immediate: bool)
    requires Conserved(p) && Enabled(p, Destroy(immediate))
    ensures Conserved(Step(p, Destroy(immediate)))
  {
    if p.q.shutdown == Open {
      WakeBalances(p, Step(p, Destroy(immediate)), Everyone(|p.workers|));
    } else {
      assert forall t :: Balanced(p, t) ==> Balanced(Step(p, Destroy(immediate)), t);
    }
  }

  lemma {:induction false} StepKeepsInv(p: Pool, e: Event)
    requires Inv(p) && Enabled(p, e)
    ensures Inv(Step(p, e))
  {
    match e
    case Add(task, woken) =>
      AddConserves(p, task, woken);
      AddKeepsOrder(p, task, woken);
    case Look(i) =>
      LookConserves(p, i);
      LookKeepsOrder(p, i);
    case Finish(_) => RejoinKeepsInv(p, e);
    case Spurious(_) => RejoinKeepsInv(p, e);
    case Destroy(immediate) =>
      DestroyConserves(p, immediate);
  }

  /* ---------- whole runs ---------- */

  ghost predicate Follows(p: Pool, e: Event, t: Pool)
  {
    && Enabled(p, e) && p.q.ring.head < |p.q.ring.slots| && p.q.ring.tail < |p.q.ring.slots|
    && t == Step(p, e)
  }

  ghost predicate IsRun(ps: seq<Pool>, es: seq<Event>)
  {
    |ps| == |es| + 1 && forall i :: 0 <= i < |es| ==> Follows(ps[i], es[i], ps[i + 1])
  }

  /** p can be seen some time after thread_pool_create succeeded. */
  ghost predicate Reachable(threads: int, size: int, blank: Task, p: Pool)
  {
    exists ps, es :: IsRun(ps, es) && Create(threads, size, blank) == Some(ps[0]) && p == ps[|es|]
  }

  lemma {:induction false} CreateIsInv(threads: int, size: int, blank: Task)
    requires Create(threads, size, blank).Some?
    ensures Inv(Create(threads, size, blank).value)
    ensures Create(threads, size, blank).value.workers != []
  {
    var p := Create(threads, size, blank).value;
    forall t ensures InHand(p.workers, t) == 0 {
      NoneInHand(p.workers, t);
    }
  }

  /** A pool can be created exactly with 1 to MAX_THREADS workers and room for 1 to
      MAX_QUEUE tasks, and starts open and empty with all its workers about to look. */
  lemma {:induction false} CreateAnswers(threads: int, size: int, blank: Task)
    ensures var p := Create(threads, size, blank);
      && (p.Some? <==> 0 < threads <= MAX_THREADS && 0 < size <= MAX_QUEUE)
      && (p.Some? ==>
          && |p.value.workers| == threads && (forall i :: 0 <= i < threads ==> p.value.workers[i] == Ready)
          && |p.value.q.ring.slots| == size && p.value.q.ring.count == 0 && p.value.q.shutdown == Open
          && !p.value.lockHeld && p.value.accepted == p.value.taken == p.value.done == [])
  {
  }

  lemma {:induction false} NoneInHand(ws: seq<Worker>, t: Task)
    requires forall i :: 0 <= i < |ws| ==> !ws[i].Running?
    ensures InHand(ws, t) == 0
  {
    if ws != [] {
      NoneInHand(ws[..|ws| - 1], t);
    }
  }

  lemma {:induction false} RunKeepsInv(ps: seq<Pool>, es: seq<Event>, n: nat)
    requires IsRun(ps, es) && Inv(ps[0]) && n <= |es|
    ensures Inv(ps[n]) && |ps[n].workers| == |ps[0].workers|
  {
    if n > 0 {
      RunKeepsInv(ps, es, n - 1);
      assert Follows(ps[n - 1], es[n - 1], ps[n]);
      StepKeepsInv(ps[n - 1], es[n - 1]);
    }
  }

  lemma {:induction false} ReachableIsInv(threads: int, size: int, blank: Task, p: Pool)
    requires Reachable(threads, size, blank, p)
    ensures Inv(p) && p.workers != []
  {
    var ps, es :| IsRun(ps, es) && Create(threads, size, blank) == Some(ps[0]) && p == ps[|es|];
    CreateIsInv(threads, size, blank);
    RunKeepsInv(ps, es, |es|);
  }

  /** Every accepted task is exactly once somewhere: queued, being executed, or
      finished; and tasks are handed out in the order they were accepted. */
  lemma {:induction false} ExactlyOnceInOrder(threads: int, size: int, blank: Task, p: Pool, t: Task)
    requires Reachable(threads, size, blank, p)
    ensures ValidRing(p.q.ring) && p.accepted == p.taken + Held(p.q.ring)
    ensures multiset(p.accepted)[t] == multiset(Held(p.q.ring))[t] + InHand(p.workers, t) + multiset(p.done)[t]
  {
    ReachableIsInv(threads, size, blank, p);
    assert Balanced(p, t);
    TimesIsMultiset(p.taken, t);
    TimesIsMultiset(p.done, t);
  }

  lemma {:induction false} AwakeExists(ws: seq<Worker>)
    requires Awake(ws) > 0
    ensures exists i :: 0 <= i < |ws| && ws[i].Ready?
  {
    var n := |ws| - 1;
    if ws[n].Ready? {
    } else {
      AwakeExists(ws[..n]);
      var i :| 0 <= i < n && ws[..n][i].Ready?;
      assert ws[i].Ready?;
    }
  }

  /** No wakeup is lost: while there is queued work, some worker is about to look at
      the queue or busy, unless an immediate shutdown has sent every worker home; and
      nobody sleeps unless each queued task has a woken worker to itself. */
  lemma {:induction false} WorkIsNoticed(threads: int, size: int, blank: Task, p: Pool)
    requires Reachable(threads, size, blank, p) && p.q.ring.count > 0
    ensures (exists i :: 0 <= i < |p.workers| && (p.workers[i].Ready? || p.workers[i].Running?))
         || (p.q.shutdown == Immediate && AllExited(p.workers))
    ensures p.q.ring.count <= Awake(p.workers) || !Sleeping(p.workers)
  {
    ReachableIsInv(threads, size, blank, p);
    if Sleeping(p.workers) {
      AwakeExists(p.workers);
    } else if p.q.shutdown != Immediate {
      assert !p.workers[0].Exited? && !p.workers[0].Waiting?;
    } else if !AllExited(p.workers) {
      var i :| 0 <= i < |p.workers| && !p.workers[i].Exited?;
      assert !p.workers[i].Waiting?;
    }
  }

  /** When every worker has been joined: a graceful shutdown has finished every
      accepted task exactly once, an immediate one has finished exactly those that
      had left the queue. */
  lemma {:induction false} ShutdownOutcome(threads: int, size: int, blank: Task, p: Pool)
    requires Reachable(threads, size, blank, p) && AllExited(p.workers)
    ensures p.q.shutdown != Open && multiset(p.done) == multiset(p.taken)
    ensures p.q.shutdown == Graceful ==> multiset(p.done) == multiset(p.accepted)
  {
    ReachableIsInv(threads, size, blank, p);
    assert p.workers[0].Exited?;
    forall t ensures multiset(p.done)[t] == multiset(p.taken)[t] {
      NoneInHand(p.workers, t);
      assert Balanced(p, t);
      TimesIsMultiset(p.taken, t);
      TimesIsMultiset(p.done, t);
    }
    if p.q.shutdown == Graceful {
      assert p.accepted == p.taken;
    }
  }

  /* ---------- closing down ---------- */

  function Weight(w: Worker): nat
  {
    if w.Ready? then 1 else if w.Running? then 2 else 0
  }

  /** How many more steps the workers of a closing pool can take at most. */
  function Load(ws: seq<Worker>): nat
  {
    if ws == [] then 0 else Load(ws[..|ws| - 1]) + Weight(ws[|ws| - 1])
  }

  function Remaining(p: Pool): nat
  {
    3 * p.q.ring.count + Load(p.workers)
  }

  lemma {:induction false} LoadUpdate(ws: seq<Worker>, i: nat, w: Worker)
    requires i < |ws|
    ensures Load(ws[i := w]) + Weight(ws[i]) == Load(ws) + Weight(w)
  {
    var n := |ws| - 1;
    if i == n {
      assert ws[i := w][..n] == ws[..n];
    } else {
      LoadUpdate(ws[..n], i, w);
      assert ws[i := w][..n] == ws[..n][i := w];
    }
  }

  predicate IsWork(e: Event)
  {
    e.Look? || e.Finish?
  }

  lemma {:induction false} ClosingStep(p: Pool, e: Event)
    requires Inv(p) && p.q.shutdown != Open && Enabled(p, e)
    ensures var t := Step(p, e); t.q.shutdown == p.q.shutdown && t.accepted == p.accepted
    ensures Remaining(Step(p, e)) + (if IsWork(e) then 1 else 0) <= Remaining(p)
  {
    if IsWork(e) {
      LoadUpdate(p.workers, e.worker, Step(p, e).workers[e.worker]);
    }
  }

  function WorkSteps(es: seq<Event>): nat
  {
    if es == [] then 0 else WorkSteps(es[..|es| - 1]) + (if IsWork(es[|es| - 1]) then 1 else 0)
  }

  /** Once a shutdown has begun nothing more is accepted, and the workers take at
      most Remaining steps before none is left to take. */
  lemma {:induction false} ShutdownIsBounded(ps: seq<Pool>, es: seq<Event>)
    requires IsRun(ps, es) && Inv(ps[0]) && ps[0].q.shutdown != Open
    ensures ps[|es|].q.shutdown == ps[0].q.shutdown && ps[|es|].accepted == ps[0].accepted
    ensures WorkSteps(es) + Remaining(ps[|es|]) <= Remaining(ps[0])
  {
    if es != [] {
      var n := |es| - 1;
      var before, events := ps[..|es|], es[..n];
      forall i | 0 <= i < n ensures Follows(before[i], events[i], before[i + 1]) {
        assert Follows(ps[i], es[i], ps[i + 1]);
      }
      ShutdownIsBounded(before, events);
      RunKeepsInv(ps, es, n);
      assert Follows(ps[n], es[n], ps[n + 1]);
      ClosingStep(ps[n], es[n]);
    }
  }

  /** In a closing pool whose lock is free, some worker can move until all have
      exited; with ShutdownIsBounded, the joins in thread_pool_destroy return. */
  lemma {:induction false} ShutdownProceeds(p: Pool)
    requires Inv(p) && p.q.shutdown != Open && !p.lockHeld
    ensures AllExited(p.workers) <==> !exists e :: IsWork(e) && Enabled(p, e)
  {
    if !AllExited(p.workers) {
      var i :| 0 <= i < |p.workers| && !p.workers[i].Exited?;
      assert !p.workers[i].Waiting?;
      var e := if p.workers[i].Ready? then Look(i) else Finish(i);
      assert IsWork(e) && Enabled(p, e);
    }
  }

  /** A second thread_pool_destroy keeps the lock for good: from then on no worker
      that is still there ever exits, so the first call never returns. */
  lemma {:induction false} SecondDestroyHangs(ps: seq<Pool>, es: seq<Event>, i: nat)
    requires IsRun(ps, es) && ps[0].lockHeld && i < |ps[0].workers| && !ps[0].workers[i].Exited?
    ensures var t := ps[|es|]; t.lockHeld && i < |t.workers| && !t.workers[i].Exited?
  {
    if es != [] {
      var n := |es| - 1;
      var before, events := ps[..|es|], es[..n];
      forall j | 0 <= j < n ensures Follows(before[j], events[j], before[j + 1]) {
        assert Follows(ps[j], es[j], ps[j + 1]);
      }
      SecondDestroyHangs(before, events, i);
      assert Follows(ps[n], es[n], ps[n + 1]);
    }
  }

  function Destroys(es: seq<Event>): nat
  {
    if es == [] then 0 else Destroys(es[..|es| - 1]) + (if es[|es| - 1].Destroy? then 1 else 0)
  }

  /** Over whole runs the lock is lost exactly when thread_pool_destroy is called a
      second time, and a third call can never get through. */
  lemma {:induction false} LockIsLostWhen(threads: int, size: int, blank: Task, ps: seq<Pool>, es: seq<Event>)
    requires IsRun(ps, es) && Create(threads, size, blank) == Some(ps[0])
    ensures ps[|es|].lockHeld <==> Destroys(es) == 2
    ensures ps[|es|].q.shutdown == Open <==> Destroys(es) == 0
    ensures Destroys(es) <= 2
  {
    if es != [] {
      var n := |es| - 1;
      var before, events := ps[..|es|], es[..n];
      forall i | 0 <= i < n ensures Follows(before[i], events[i], before[i + 1]) {
        assert Follows(ps[i], es[i], ps[i + 1]);
      }
      LockIsLostWhen(threads, size, blank, before, events);
      assert Follows(ps[n], es[n], ps[n + 1]);
    }
  }

  /** The first call of thread_pool_destroy decides how the pool closes, for good. */
  lemma {:induction false} FirstDestroyDecides(
    threads: int, size: int, blank: Task, ps: seq<Pool>, es: seq<Event>, i: nat)
    requires IsRun(ps, es) && Create(threads, size, blank) == Some(ps[0])
    requires i < |es| && es[i].Destroy? && forall j :: 0 <= j < i ==> !es[j].Destroy?
    ensures ps[|es|].q.shutdown == if es[i].immediate then Immediate else Graceful
  {
    var n := |es| - 1;
    var before, events := ps[..|es|], es[..n];
    forall j | 0 <= j < n ensures Follows(before[j], events[j], before[j + 1]) {
      assert Follows(ps[j], es[j], ps[j + 1]);
    }
    assert Follows(ps[n], es[n], ps[n + 1]);
    LockIsLostWhen(threads, size, blank, before, events);
    if i < n {
      FirstDestroyDecides(threads, size, blank, before, events, i);
    } else {
      NoDestroys(events);
    }
  }

  lemma {:induction false} NoDestroys(es: seq<Event>)
    requires forall j :: 0 <= j < |es| ==> !es[j].Destroy?
    ensures Destroys(es) == 0
  {
    if es != [] {
      NoDestroys(es[..|es| - 1]);
    }
  }

  /** After an immediate shutdown no queued task is handed out any more. */
  lemma {:induction false} ImmediateStops(ps: seq<Pool>, es: seq<Event>)
    requires IsRun(ps, es) && ps[0].q.shutdown == Immediate
    ensures ps[|es|].q.shutdown == Immediate && ps[|es|].taken == ps[0].taken && ps[|es|].accepted == ps[0].accepted
  {
    if es != [] {
      var n := |es| - 1;
      var before, events := ps[..|es|], es[..n];
      forall j | 0 <= j < n ensures Follows(before[j], events[j], before[j + 1]) {
        assert Follows(ps[j], es[j], ps[j + 1]);
      }
      ImmediateStops(before, events);
      assert Follows(ps[n], es[n], ps[n + 1]);
    }
  }

  /** Some run from p ends with every worker gone. */
  ghost predicate CanFinish(p: Pool)
  {
    exists ps: seq<Pool>, es :: IsRun(ps, es) && ps[0] == p && AllExited(ps[|es|].workers)
  }

  lemma {:induction false} CanFinishBefore(p: Pool, e: Event)
    requires p.q.ring.head < |p.q.ring.slots| && p.q.ring.tail < |p.q.ring.slots|
    requires Enabled(p, e) && CanFinish(Step(p, e))
    ensures CanFinish(p)
  {
    var ps: seq<Pool>, es :| IsRun(ps, es) && ps[0] == Step(p, e) && AllExited(ps[|es|].workers);
    var qs, fs := [p] + ps, [e] + es;
    forall i | 0 <= i < |fs| ensures Follows(qs[i], fs[i], qs[i + 1]) {
      assert i > 0 ==> Follows(ps[i - 1], es[i - 1], ps[i]);
    }
    assert IsRun(qs, fs) && qs[|fs|] == ps[|es|];
  }

  lemma {:induction false} ClosingCanFinish(p: Pool)
    requires Inv(p) && p.q.shutdown != Open && !p.lockHeld
    ensures CanFinish(p)
    decreases Remaining(p)
  {
    ShutdownProceeds(p);
    if AllExited(p.workers) {
      assert IsRun([p], []) && [p][0] == p;
    } else {
      var e :| IsWork(e) && Enabled(p, e);
      ClosingStep(p, e);
      StepKeepsInv(p, e);
      ClosingCanFinish(Step(p, e));
      CanFinishBefore(p, e);
    }
  }

  /** A pool that still has workers can be brought to an end exactly as long as the
      lock has not been lost. */
  lemma {:induction false} FinishesUnlessLockLost(threads: int, size: int, blank: Task, p: Pool)
    requires Reachable(threads, size, blank, p) && !AllExited(p.workers)
    ensures CanFinish(p) <==> !p.lockHeld
  {
    ReachableIsInv(threads, size, blank, p);
    if p.lockHeld {
      var i :| 0 <= i < |p.workers| && !p.workers[i].Exited?;
      forall ps: seq<Pool>, es | IsRun(ps, es) && ps[0] == p ensures !AllExited(ps[|es|].workers) {
        SecondDestroyHangs(ps, es, i);
      }
    } else if p.q.shutdown == Open {
      StepKeepsInv(p, Destroy(false));
      ClosingCanFinish(Step(p, Destroy(false)));
      CanFinishBefore(p, Destroy(false));
    } else {
      ClosingCanFinish(p);
    }
  }

  /** Two calls of thread_pool_destroy right after thread_pool_create leave every pool
      in that state: workers that never exit, and a first call that never returns. */
  lemma {:induction false} DestroyedTwice(threads: int, size: int, blank: Task) returns (p: Pool)
    requires Create(threads, size, blank).Some?
    ensures Reachable(threads, size, blank, p) && p.lockHeld && !AllExited(p.workers) && !CanFinish(p)
  {
    CreateIsInv(threads, size, blank);
    var first := Create(threads, size, blank).value;
    assert !first.workers[0].Exited?;
    var second := Step(first, Destroy(false));
    assert !second.workers[0].Exited?;
    p := Step(second, Destroy(false));
    assert !p.workers[0].Exited?;
    assert Follows(first, Destroy(false), second) && Follows(second, Destroy(false), p);
    assert IsRun([first, second, p], [Destroy(false), Destroy(false)]);
    assert Reachable(threads, size, blank, p);
    FinishesUnlessLockLost(threads, size, blank, p);
  }

  /* ---------- the pool object ---------- */

  class TaskPool {
    const queue: array<Task>
    var head: nat
    var tail: nat
    var count: nat
    var shutdown: Shutdown

    ghost predicate Valid()
      reads this, queue
    {
      ValidRing(View().ring)
    }

    ghost function View(): Queue
      reads this, queue
    {
      Queue(Ring(queue[..], head, tail, count), shutdown)
    }

    /** The initialisation in thread_pool_create. */
    constructor (size: nat)
      requires 0 < size <= MAX_QUEUE
      ensures Valid() && fresh(queue) && queue.Length == size && View().shutdown == Open && Held(View().ring) == []
    {
      queue := new Task[size];
      head, tail, count, shutdown := 0, 0, 0, Open;
    }

    /** thread_pool_add, between locking and unlocking. */
    method Submit(task: Task) returns (err: int)
      requires Valid()
      modifies this, queue
      ensures Valid()
      ensures err == 0 || err == -1
      ensures err == 0 <==> old(count) < queue.Length && old(shutdown) == Open
      ensures AddTask(old(View()), task) == if err == 0 then Some(View()) else None
      ensures err == 0 ==> Held(View().ring) == old(Held(View().ring)) + [task]
      ensures err != 0 ==> View() == old(View())
    {
      var next := (tail + 1) % queue.Length;
      WrapIsModular(tail, queue.Length);
      if count == queue.Length || shutdown != Open {
        return -1;
      }
      PutAppends(View().ring, task);
      ghost var was := queue[..];
      queue[tail] := task;
      assert queue[..] == was[tail := task];
      tail := next;
      count := count + 1;
      return 0;
    }

    /** One pass of thread_pool_worker's loop, from locking to unlocking. */
    method Look() returns (turn: Turn)
      requires Valid()
      modifies this
      ensures Valid()
      ensures turn == TurnOf(old(View())) && View() == AfterTurn(old(View()))
      ensures turn.Grab? ==> old(Held(View().ring)) == [turn.task] + Held(View().ring)
      ensures !turn.Grab? ==> View() == old(View())
    {
      if count == 0 && shutdown == Open {
        return Sleep;
      }
      if (shutdown == Graceful && count == 0) || shutdown == Immediate {
        return Leave;
      }
      TakeDrops(View().ring);
      WrapIsModular(head, queue.Length);
      turn := Grab(queue[head]);
      head := (head + 1) % queue.Length;
      count := count - 1;
    }

    /** The locked part of thread_pool_destroy. */
    method Close(flags: nat) returns (err: int)
      requires Valid()
      modifies this`shutdown
      ensures Valid()
      ensures BeginDestroy(old(View()), flags % 2 == 1) == if err == 0 then Some(View()) else None
      ensures err == 0 <==> old(shutdown) == Open
      ensures err == 0 ==> shutdown == if flags % 2 == 1 then Immediate else Graceful
      ensures err != 0 ==> View() == old(View())
    {
      if shutdown != Open {
        return -1;
      }
      shutdown := if flags % 2 == 1 then Immediate else Graceful;
      return 0;
    }
  }
}
