/** Mutexes and the ready queue of kernel/process.c as steps on queues, for any threads and mutexes. */
module MutexProtocol {
  import opened Lists

  datatype RunState = Ready | Running | Blocked

  // waiters is the wait queue from its head on; count is lock_count.
  datatype MutexState<T> = MutexState(owner: Option<T>, count: nat, waiters: seq<T>)

  datatype Kernel<T, M> = Kernel(
    current: T, ready: seq<T>, state: map<T, RunState>, mutexes: map<M, MutexState<T>>)

  // Number of values of a uint32_t, the type of lock_count.
  const UINT32: nat := 0x1_0000_0000

  // lock_count++ and lock_count--.
  function Up(n: nat): nat { (n + 1) % UINT32 }

  function Down(n: nat): nat { (n - 1) % UINT32 }

  // ----- The ready queue -----

  // scheduler_remove_thread. A thread that is not queued has null links, and the code then sets the
  // head of the queue to the thread's null next pointer.
  function Unqueue<T(==)>(q: seq<T>, t: T): seq<T> {
    if t in q then Remove(q, t) else []
  }

  // rest is the queue without t; of a queue that t is not on nothing is left.
  ghost predicate OffQueue<T>(q: seq<T>, t: T, rest: seq<T>) {
    && (t !in q ==> rest == [])
    && forall i {:trigger q[i]} :: 0 <= i < |q| && q[i] == t ==> rest == q[..i] + q[i + 1..]
  }

  lemma OffQueueIs<T>(q: seq<T>, t: T)
    requires NoDup(q)
    ensures OffQueue(q, t, Unqueue(q, t))
  {
    forall i | 0 <= i < |q| && q[i] == t ensures Unqueue(q, t) == q[..i] + q[i + 1..] {
      RemoveAt(q, i);
    }
  }

  // scheduler_schedule: with nobody ready it returns to its caller.
  function Schedule<T, M>(k: Kernel<T, M>): Kernel<T, M> {
    if k.ready == [] then k
    else k.(current := k.ready[0], ready := k.ready[1..], state := k.state[k.ready[0] := Running])
  }

  // ----- The mutex operations, performed by the current thread -----

  function Lock<T(==), M(==)>(k: Kernel<T, M>, m: M): Kernel<T, M>
    requires m in k.mutexes
  {
    var mu := k.mutexes[m];
    if mu.owner == None then
      k.(mutexes := k.mutexes[m := mu.(owner := Some(k.current), count := 1)])
    else if mu.owner == Some(k.current) then
      k.(mutexes := k.mutexes[m := mu.(count := Up(mu.count))])
    else
      Schedule(k.(ready := Unqueue(k.ready, k.current),
                  state := k.state[k.current := Blocked],
                  mutexes := k.mutexes[m := mu.(waiters := [k.current] + mu.waiters)]))
  }

  // true when the call returns 0.
  function Unlock<T(==), M(==)>(k: Kernel<T, M>, m: M): (Kernel<T, M>, bool)
    requires m in k.mutexes
  {
    var mu := k.mutexes[m];
    if mu.owner != Some(k.current) then (k, false)
    else
      var count := Down(mu.count);
      if count != 0 then (k.(mutexes := k.mutexes[m := mu.(count := count)]), true)
      else if mu.waiters == [] then (k.(mutexes := k.mutexes[m := mu.(owner := None, count := 0)]), true)
      else
        var next := mu.waiters[0];
        (k.(ready := [next] + k.ready,
            state := k.state[next := Ready],
            mutexes := k.mutexes[m := MutexState(Some(next), 1, mu.waiters[1..])]), true)
  }

  function Trylock<T(==), M(==)>(k: Kernel<T, M>, m: M): (Kernel<T, M>, bool)
    requires m in k.mutexes
  {
    var mu := k.mutexes[m];
    if mu.owner == None then (k.(mutexes := k.mutexes[m := mu.(owner := Some(k.current), count := 1)]), true)
    else (k, false)
  }

  // ----- Runs -----

  // Enqueue is scheduler_add_thread on the current thread; SwitchTo lets any other thread continue.
  datatype Step<T, M> = SwitchTo(to: T) | Enqueue | DoLock(m: M) | DoUnlock(m: M) | DoTrylock(m: M)

  // The assumption the code relies on: a blocked thread takes no step until it is unblocked. A recursive
  // lock must not overflow the 32-bit counter.
  predicate Allowed<T(==), M(==)>(k: Kernel<T, M>, step: Step<T, M>) {
    match step
    case SwitchTo(to) => to in k.state && k.state[to] != Blocked
    case Enqueue => Acts(k) && k.current !in k.ready
    case DoLock(m) => Acts(k) && m in k.mutexes && !Overflows(k, m)
    case DoUnlock(m) => Acts(k) && m in k.mutexes
    case DoTrylock(m) => Acts(k) && m in k.mutexes
  }

  predicate Acts<T(==), M>(k: Kernel<T, M>) { k.current in k.state && k.state[k.current] != Blocked }

  predicate Overflows<T(==), M(==)>(k: Kernel<T, M>, m: M)
    requires m in k.mutexes
  {
    k.mutexes[m].owner == Some(k.current) && k.mutexes[m].count == UINT32 - 1
  }

  function After<T(==), M(==)>(k: Kernel<T, M>, step: Step<T, M>): Kernel<T, M>
    requires Allowed(k, step)
  {
    match step
    case SwitchTo(to) => k.(current := to, ready := Remove(k.ready, to), state := k.state[to := Running])
    case Enqueue => k.(ready := [k.current] + k.ready)
    case DoLock(m) => Lock(k, m)
    case DoUnlock(m) => Unlock(k, m).0
    case DoTrylock(m) => Trylock(k, m).0
  }

  // How many lock and trylock calls of thread t on mutex m returned (or will return) 0, less the
  // unlock calls that did.
  type Calls<!T, !M> = (T, M) -> nat

  ghost function Count<T, M>(calls: Calls<T, M>, t: T, m: M): nat { calls(t, m) }

  ghost function Set<T, M>(calls: Calls<T, M>, t: T, m: M, n: nat): Calls<T, M> {
    (u, p) => if u == t && p == m then n else calls(u, p)
  }

  ghost function Called<T, M>(k: Kernel<T, M>, step: Step<T, M>, calls: Calls<T, M>): Calls<T, M>
    requires Allowed(k, step)
  {
    match step
    case DoLock(m) => Set(calls, k.current, m, Count(calls, k.current, m) + 1)
    case DoTrylock(m) => if Trylock(k, m).1 then Set(calls, k.current, m, Count(calls, k.current, m) + 1) else calls
    case DoUnlock(m) =>
      if Unlock(k, m).1 && Count(calls, k.current, m) > 0
      then Set(calls, k.current, m, Count(calls, k.current, m) - 1) else calls
    case _ => calls
  }

  // ----- The invariant -----

  // One mutex's wait queue: distinct blocked threads, the owner not among them, and nobody waits for a
  // free mutex.
  ghost predicate WaitersOk<T>(state: map<T, RunState>, mu: MutexState<T>) {
    && NoDup(mu.waiters)
    && (mu.owner == None ==> mu.waiters == [])
    && (forall t :: t in mu.waiters ==> mu.owner != Some(t) && t in state && state[t] == Blocked)
  }

  // The queues: no thread is queued twice, ready threads are not blocked, waiting ones are.
  ghost predicate Shape<T, M>(k: Kernel<T, M>) {
    && k.current in k.state
    && NoDup(k.ready)
    && (forall t :: t in k.ready ==> t in k.state && k.state[t] != Blocked)
    && (forall m :: m in k.mutexes ==> WaitersOk(k.state, k.mutexes[m]))
    && (forall m, n, t :: m in k.mutexes && n in k.mutexes && m != n && t in k.mutexes[m].waiters ==>
          t !in k.mutexes[n].waiters)
  }

  ghost predicate CountOk<T>(mu: MutexState<T>) {
    (mu.owner == None <==> mu.count == 0) && mu.count < UINT32
  }

  // What thread t still has to its credit on this mutex: the owner its lock count, a waiter the one call
  // that is blocked.
  function Credit<T(==)>(mu: MutexState<T>, t: T): nat {
    (if mu.owner == Some(t) then mu.count else 0) + (if t in mu.waiters then 1 else 0)
  }

  ghost predicate Inv<T(!new), M(!new)>(k: Kernel<T, M>, calls: Calls<T, M>) {
    && Shape(k)
    && (forall m :: m in k.mutexes ==> CountOk(k.mutexes[m]))
    && (forall m, t :: m in k.mutexes ==> Count(calls, t, m) == Credit(k.mutexes[m], t))
  }

  // ----- Every step keeps the queues in shape -----

  lemma UnqueueIs<T>(q: seq<T>, t: T, r: seq<T>)
    requires NoDup(q) && r == Unqueue(q, t)
    ensures NoDup(r) && forall u :: u in r ==> u in q && u != t
  {
    if t in q { RemoveIs(q, t, r); }
  }

  // Changing who is ready, and letting threads that do not wait change state, disturbs no mutex.
  lemma QueueStep<T, M>(k: Kernel<T, M>, k': Kernel<T, M>)
    requires Shape(k) && k'.mutexes == k.mutexes && k'.current in k'.state && NoDup(k'.ready)
    requires forall t :: t in k'.ready ==> t in k'.state && k'.state[t] != Blocked
    requires forall t :: t in k.state && k.state[t] == Blocked ==> t in k'.state && k'.state[t] == Blocked
    ensures Shape(k')
  {
  }

  // One mutex changes; queues and states change so that the waiters of the others do not notice.
  lemma MutexStep<T, M>(k: Kernel<T, M>, k': Kernel<T, M>, m: M, mu: MutexState<T>)
    requires Shape(k) && m in k.mutexes && k'.mutexes == k.mutexes[m := mu]
    requires k'.current in k'.state && NoDup(k'.ready)
    requires forall t :: t in k'.ready ==> t in k'.state && k'.state[t] != Blocked
    requires forall p, t :: p in k.mutexes && p != m && t in k.mutexes[p].waiters ==>
      t in k'.state && k'.state[t] == Blocked && t !in mu.waiters
    requires WaitersOk(k'.state, mu)
    ensures Shape(k')
  {
  }

  lemma ScheduleShape<T, M>(k: Kernel<T, M>)
    requires Shape(k)
    ensures Shape(Schedule(k))
  {
  }

  // The state a contended lock call reaches before it looks for another thread.
  ghost function Waiting<T, M>(k: Kernel<T, M>, m: M): Kernel<T, M>
    requires m in k.mutexes
  {
    k.(ready := Unqueue(k.ready, k.current),
       state := k.state[k.current := Blocked],
       mutexes := k.mutexes[m := k.mutexes[m].(waiters := [k.current] + k.mutexes[m].waiters)])
  }

  lemma WaitingShape<T, M>(k: Kernel<T, M>, m: M)
    requires Shape(k) && Acts(k) && m in k.mutexes
    requires k.mutexes[m].owner != None && k.mutexes[m].owner != Some(k.current)
    ensures Shape(Waiting(k, m))
  {
    assert WaitersOk(k.state, k.mutexes[m]);
    var mu := k.mutexes[m].(waiters := [k.current] + k.mutexes[m].waiters);
    ConsNoDup(k.current, k.mutexes[m].waiters);
    UnqueueIs(k.ready, k.current, Unqueue(k.ready, k.current));
    forall p, t | p in k.mutexes && p != m && t in k.mutexes[p].waiters
      ensures t in Waiting(k, m).state && Waiting(k, m).state[t] == Blocked && t !in mu.waiters
    {
      assert WaitersOk(k.state, k.mutexes[p]);
    }
    MutexStep(k, Waiting(k, m), m, mu);
  }

  lemma LockShape<T, M>(k: Kernel<T, M>, m: M)
    requires Shape(k) && Acts(k) && m in k.mutexes
    ensures Shape(Lock(k, m))
  {
    var mu := k.mutexes[m];
    assert WaitersOk(k.state, mu);
    if mu.owner == None {
      MutexStep(k, Lock(k, m), m, mu.(owner := Some(k.current), count := 1));
    } else if mu.owner == Some(k.current) {
      MutexStep(k, Lock(k, m), m, mu.(count := Up(mu.count)));
    } else {
      WaitingShape(k, m);
      ScheduleShape(Waiting(k, m));
    }
  }

  lemma TrylockShape<T, M>(k: Kernel<T, M>, m: M)
    requires Shape(k) && m in k.mutexes
    ensures Shape(Trylock(k, m).0)
  {
  }

  lemma UnlockShape<T, M>(k: Kernel<T, M>, m: M)
    requires Shape(k) && m in k.mutexes
    ensures Shape(Unlock(k, m).0)
  {
    var mu, k' := k.mutexes[m], Unlock(k, m).0;
    assert WaitersOk(k.state, mu);
    if mu.owner == Some(k.current) {
      if Down(mu.count) != 0 {
        MutexStep(k, k', m, mu.(count := Down(mu.count)));
      } else if mu.waiters == [] {
        MutexStep(k, k', m, mu.(owner := None, count := 0));
      } else {
        TailNoDup(mu.waiters);
        ConsNoDup(mu.waiters[0], k.ready);
        MutexStep(k, k', m, MutexState(Some(mu.waiters[0]), 1, mu.waiters[1..]));
      }
    }
  }

  // ----- Every step keeps the counts right -----

  // The current thread's credit on one mutex changes to n, along with its call count.
  lemma CreditStep<T(!new), M(!new)>(k: Kernel<T, M>, calls: Calls<T, M>, k': Kernel<T, M>, m: M,
                     mu: MutexState<T>, n: nat)
    requires Inv(k, calls) && Shape(k') && m in k.mutexes && k'.mutexes == k.mutexes[m := mu]
    requires CountOk(mu) && Credit(mu, k.current) == n
    requires forall t :: t != k.current ==> Credit(mu, t) == Credit(k.mutexes[m], t)
    ensures Inv(k', Set(calls, k.current, m, n))
  {
  }

  lemma LockKeeps<T(!new), M(!new)>(k: Kernel<T, M>, calls: Calls<T, M>, m: M)
    requires Inv(k, calls) && Allowed(k, DoLock(m))
    ensures Inv(Lock(k, m), Called(k, DoLock(m), calls))
  {
    var mu, n := k.mutexes[m], Count(calls, k.current, m) + 1;
    assert WaitersOk(k.state, mu) && CountOk(mu) && Count(calls, k.current, m) == Credit(mu, k.current);
    LockShape(k, m);
    if mu.owner == None {
      CreditStep(k, calls, Lock(k, m), m, mu.(owner := Some(k.current), count := 1), n);
    } else if mu.owner == Some(k.current) {
      CreditStep(k, calls, Lock(k, m), m, mu.(count := mu.count + 1), n);
    } else {
      WaitCredit(k, calls, m, mu);
      CreditStep(k, calls, Lock(k, m), m, mu.(waiters := [k.current] + mu.waiters), n);
    }
  }

  lemma WaitCredit<T(!new), M(!new)>(k: Kernel<T, M>, calls: Calls<T, M>, m: M, mu: MutexState<T>)
    requires Inv(k, calls) && Acts(k) && m in k.mutexes && mu == k.mutexes[m]
    requires mu.owner != None && mu.owner != Some(k.current)
    ensures Credit(mu.(waiters := [k.current] + mu.waiters), k.current) == Credit(mu, k.current) + 1
    ensures forall t :: t != k.current ==> Credit(mu.(waiters := [k.current] + mu.waiters), t) == Credit(mu, t)
  {
  }

  lemma TrylockKeeps<T(!new), M(!new)>(k: Kernel<T, M>, calls: Calls<T, M>, m: M)
    requires Inv(k, calls) && Allowed(k, DoTrylock(m))
    ensures Inv(Trylock(k, m).0, Called(k, DoTrylock(m), calls))
  {
    var mu := k.mutexes[m];
    assert WaitersOk(k.state, mu) && CountOk(mu) && Count(calls, k.current, m) == Credit(mu, k.current);
    TrylockShape(k, m);
    if mu.owner == None {
      CreditStep(k, calls, Trylock(k, m).0, m, mu.(owner := Some(k.current), count := 1), Count(calls, k.current, m) + 1);
    }
  }

  lemma UnlockKeeps<T(!new), M(!new)>(k: Kernel<T, M>, calls: Calls<T, M>, m: M)
    requires Inv(k, calls) && Allowed(k, DoUnlock(m))
    ensures Inv(Unlock(k, m).0, Called(k, DoUnlock(m), calls))
  {
    var mu := k.mutexes[m];
    assert WaitersOk(k.state, mu) && CountOk(mu) && Count(calls, k.current, m) == Credit(mu, k.current);
    UnlockShape(k, m);
    if mu.owner == Some(k.current) {
      if mu.count > 1 {
        CreditStep(k, calls, Unlock(k, m).0, m, mu.(count := mu.count - 1), mu.count - 1);
      } else if mu.waiters == [] {
        CreditStep(k, calls, Unlock(k, m).0, m, mu.(owner := None, count := 0), 0);
      } else {
        TailNoDup(mu.waiters);
        assert Credit(mu, k.current) == 1;
        CreditStep(k, calls, Unlock(k, m).0, m, MutexState(Some(mu.waiters[0]), 1, mu.waiters[1..]), 0);
      }
    }
  }

  lemma StepKeeps<T(!new), M(!new)>(k: Kernel<T, M>, calls: Calls<T, M>, step: Step<T, M>)
    requires Inv(k, calls) && Allowed(k, step)
    ensures Inv(After(k, step), Called(k, step, calls))
  {
    match step {
      case SwitchTo(to) => RemoveIs(k.ready, to, Remove(k.ready, to)); QueueStep(k, After(k, step));
      case Enqueue => ConsNoDup(k.current, k.ready); QueueStep(k, After(k, step));
      case DoLock(m) => LockKeeps(k, calls, m);
      case DoUnlock(m) => UnlockKeeps(k, calls, m);
      case DoTrylock(m) => TrylockKeeps(k, calls, m);
    }
  }

  // ----- Whole runs -----

  ghost predicate Legal<T, M>(k: Kernel<T, M>, steps: seq<Step<T, M>>)
    decreases |steps|
  {
    steps == [] || (Allowed(k, steps[0]) && Legal(After(k, steps[0]), steps[1..]))
  }

  ghost function Run<T, M>(k: Kernel<T, M>, calls: Calls<T, M>, steps: seq<Step<T, M>>): (Kernel<T, M>, Calls<T, M>)
    requires Legal(k, steps)
    decreases |steps|
  {
    if steps == [] then (k, calls)
    else Run(After(k, steps[0]), Called(k, steps[0], calls), steps[1..])
  }

  // No mutex is held, nobody waits, nobody has called anything.
  ghost predicate Initial<T(!new), M(!new)>(k: Kernel<T, M>, calls: Calls<T, M>) {
    && k.current in k.state && NoDup(k.ready)
    && (forall t :: t in k.ready ==> t in k.state && k.state[t] != Blocked)
    && (forall m :: m in k.mutexes ==> k.mutexes[m] == MutexState(None, 0, []))
    && (forall t, m :: Count(calls, t, m) == 0)
  }

  lemma {:induction false} RunKeeps<T(!new), M(!new)>(k: Kernel<T, M>, calls: Calls<T, M>, steps: seq<Step<T, M>>)
    requires Inv(k, calls) && Legal(k, steps)
    ensures Inv(Run(k, calls, steps).0, Run(k, calls, steps).1)
    decreases |steps|
  {
    if steps != [] {
      StepKeeps(k, calls, steps[0]);
      RunKeeps(After(k, steps[0]), Called(k, steps[0], calls), steps[1..]);
    }
  }

  // Thread t is running or ready and has successful lock calls on m that it has not undone.
  ghost predicate Inside<T, M>(k: Kernel<T, M>, calls: Calls<T, M>, t: T, m: M) {
    t in k.state && k.state[t] != Blocked && Count(calls, t, m) > 0
  }

  // The protocol theorem. In every state of every run: a mutex has an owner exactly when its count is
  // positive; a thread that is not blocked and has more successful lock than unlock calls owns the mutex,
  // and the count is exactly that surplus; so two such threads are one thread; and a waiter does not own
  // what it waits for, waits for nothing else, and is not ready.
  lemma ProtocolHolds<T(!new), M(!new)>(k0: Kernel<T, M>, calls0: Calls<T, M>, steps: seq<Step<T, M>>, m: M, n: M,
                        t: T, u: T)
    requires Initial(k0, calls0) && Legal(k0, steps) && m in Run(k0, calls0, steps).0.mutexes
    ensures var k, calls := Run(k0, calls0, steps).0, Run(k0, calls0, steps).1; var mu := k.mutexes[m];
      && (mu.owner == None <==> mu.count == 0)
      && NoDup(mu.waiters) && NoDup(k.ready)
      && (Inside(k, calls, t, m) ==> mu.owner == Some(t) && mu.count == Count(calls, t, m))
      && (Inside(k, calls, t, m) && Inside(k, calls, u, m) ==> t == u)
      && (t in mu.waiters ==> mu.owner != None && mu.owner != Some(t) && t !in k.ready)
      && (t in mu.waiters && n in k.mutexes && t in k.mutexes[n].waiters ==> n == m)
  {
    RunKeeps(k0, calls0, steps);
    var k, calls := Run(k0, calls0, steps).0, Run(k0, calls0, steps).1;
    assert WaitersOk(k.state, k.mutexes[m]) && CountOk(k.mutexes[m]);
    assert Count(calls, t, m) == Credit(k.mutexes[m], t);
    assert Count(calls, u, m) == Credit(k.mutexes[m], u);
  }

  // ----- What each call does, case by case -----

  // A free mutex is taken; the owner's hold counts up; otherwise the caller goes to the head of the wait queue,
  // blocked, and nothing else of any mutex changes.
  lemma LockIs<T(!new), M(!new)>(k: Kernel<T, M>, calls: Calls<T, M>, m: M)
    requires Inv(k, calls) && Acts(k) && m in k.mutexes
    ensures var mu, k' := k.mutexes[m], Lock(k, m);
      && (mu.owner == None ==> k' == k.(mutexes := k.mutexes[m := MutexState(Some(k.current), 1, mu.waiters)]))
      && (mu.owner == Some(k.current) && mu.count < 0xFFFF_FFFF ==>
            k' == k.(mutexes := k.mutexes[m := mu.(count := mu.count + 1)]))
      && (mu.owner != None && mu.owner != Some(k.current) ==>
            && k'.mutexes == k.mutexes[m := mu.(waiters := [k.current] + mu.waiters)]
            && k'.state[k.current] == Blocked)
  {
    if k.mutexes[m].owner != None && k.mutexes[m].owner != Some(k.current) {
      var rest := Unqueue(k.ready, k.current);
      RemoveIs(k.ready, k.current, Remove(k.ready, k.current));
      if rest != [] { assert rest[0] in rest && rest[0] != k.current; }
    }
  }

  // Who runs after a call on a mutex that another thread holds: the first of the ready queue, which has lost the
  // caller; the blocked caller goes on if nobody is left there.
  lemma ContendedIs<T(!new), M(!new)>(k: Kernel<T, M>, calls: Calls<T, M>, m: M, rest: seq<T>)
    requires Inv(k, calls) && Acts(k) && m in k.mutexes && OffQueue(k.ready, k.current, rest)
    requires k.mutexes[m].owner != None && k.mutexes[m].owner != Some(k.current)
    ensures var k' := Lock(k, m);
      && (rest == [] ==> k'.current == k.current && k'.ready == [] && k'.state == k.state[k.current := Blocked])
      && (rest != [] ==>
            && k'.current == rest[0] && k'.ready == rest[1..]
            && k'.state == k.state[k.current := Blocked][rest[0] := Running])
  {
    OffQueueIs(k.ready, k.current);
    OneRest(k.ready, k.current, rest, Unqueue(k.ready, k.current));
  }

  lemma OneRest<T>(q: seq<T>, t: T, r: seq<T>, s: seq<T>)
    requires OffQueue(q, t, r) && OffQueue(q, t, s)
    ensures r == s
  {
    if t in q {
      var i :| 0 <= i < |q| && q[i] == t;
    }
  }

  // A free mutex is taken; from anyone, the owner included, a held one is refused and nothing changes.
  lemma TrylockIs<T, M>(k: Kernel<T, M>, m: M)
    requires m in k.mutexes
    ensures var mu := k.mutexes[m];
      Trylock(k, m) == if mu.owner == None
        then (k.(mutexes := k.mutexes[m := MutexState(Some(k.current), 1, mu.waiters)]), true) else (k, false)
  {
  }

  // Anyone but the owner is refused and nothing changes. The owner's call succeeds: a hold of more than one counts
  // down; the last one frees the mutex if nobody waits.
  lemma UnlockIs<T(!new), M(!new)>(k: Kernel<T, M>, calls: Calls<T, M>, m: M)
    requires Inv(k, calls) && m in k.mutexes
    ensures var mu := k.mutexes[m];
      && (mu.owner != Some(k.current) ==> Unlock(k, m) == (k, false))
      && (mu.owner == Some(k.current) ==> Unlock(k, m).1 && mu.count >= 1)
      && (mu.owner == Some(k.current) && mu.count > 1 ==>
            Unlock(k, m).0 == k.(mutexes := k.mutexes[m := mu.(count := mu.count - 1)]))
      && (mu.owner == Some(k.current) && mu.count == 1 && mu.waiters == [] ==>
            Unlock(k, m).0 == k.(mutexes := k.mutexes[m := MutexState(None, 0, [])]))
  {
    assert CountOk(k.mutexes[m]);
  }

  // Releasing the last hold passes the mutex straight to the head of its wait queue, which becomes ready.
  lemma HandOff<T(!new), M(!new)>(k: Kernel<T, M>, calls: Calls<T, M>, m: M)
    requires Inv(k, calls) && Acts(k) && m in k.mutexes && Count(calls, k.current, m) == 1 && k.mutexes[m].waiters != []
    ensures var k' := Unlock(k, m).0; var next := k.mutexes[m].waiters[0];
      && Unlock(k, m).1 && k'.mutexes[m].owner == Some(next) && k'.mutexes[m].count == 1
      && next !in k'.mutexes[m].waiters && k'.ready == [next] + k.ready && k'.state[next] == Ready
  {
  }

  // ----- Where the code falls short of what it relies on -----

  // A lock call by an owner keeps the mutex well-formed exactly while the 32-bit counter has room.
  lemma RelockOverflow<T(!new), M(!new)>(k: Kernel<T, M>, calls: Calls<T, M>, m: M)
    requires Inv(k, calls) && m in k.mutexes && k.mutexes[m].owner == Some(k.current)
    ensures CountOk(Lock(k, m).mutexes[m]) <==> !Overflows(k, m)
  {
  }

  // mutex_lock comes back to its caller without the mutex exactly when the mutex is held by another thread
  // and the caller was not queued, or was the only one queued: then no thread is found to switch to.
  lemma LockReturnsUnowned<T(!new), M(!new)>(k: Kernel<T, M>, calls: Calls<T, M>, m: M)
    requires Inv(k, calls) && Acts(k) && m in k.mutexes
    ensures Lock(k, m).current == k.current && Lock(k, m).mutexes[m].owner != Some(k.current) <==>
      && k.mutexes[m].owner != None && k.mutexes[m].owner != Some(k.current)
      && (k.current !in k.ready || |k.ready| == 1)
  {
  }

  // A contended lock keeps the other ready threads queued exactly when the caller itself was queued or
  // nobody was.
  lemma LockKeepsReady<T(!new), M(!new)>(k: Kernel<T, M>, calls: Calls<T, M>, m: M)
    requires Inv(k, calls) && Acts(k) && m in k.mutexes
    requires k.mutexes[m].owner != None && k.mutexes[m].owner != Some(k.current)
    ensures (forall t :: t in k.ready && t != k.current ==> t in Lock(k, m).ready || t == Lock(k, m).current) <==>
      k.current in k.ready || k.ready == []
  {
    RemoveIs(k.ready, k.current, Remove(k.ready, k.current));
    if k.current in k.ready {
      var rest := Unqueue(k.ready, k.current);
      assert forall t :: t in rest ==> t == rest[0] || t in rest[1..];
    } else if k.ready != [] {
      assert k.ready[0] in k.ready;
    }
  }

  // Thread 1 takes the mutex, thread 2 is scheduled and calls mutex_lock: the call returns to it at once, with
  // thread 1 still the owner, and thread 3, which was ready, is on no queue any more.
  lemma TwoThreadsInside()
    ensures var free := Kernel(1, [2, 3], map[1 := Running, 2 := Ready, 3 := Ready], map[0 := MutexState(None, 0, [])]);
      && Allowed(free, DoLock(0)) && Allowed(After(free, DoLock(0)), SwitchTo(2))
      && var before := After(After(free, DoLock(0)), SwitchTo(2));
      && before == Schedule(After(free, DoLock(0))) && before.current == 2 && before.ready == [3]
      && Allowed(before, DoLock(0))
      && var after := After(before, DoLock(0));
      after.current == 2 && after.mutexes[0].owner == Some(1) && after.ready == []
  {
    var held := After(Kernel(1, [2, 3], map[1 := Running, 2 := Ready, 3 := Ready],
                             map[0 := MutexState(None, 0, [])]), DoLock(0));
    assert Remove([2, 3], 2) == [3] && [2, 3][1..] == [3];
    assert After(held, Step<int, int>.SwitchTo(2)) == Schedule(held);
  }
}
