/** The mutexes and the scheduler of kernel/process.c over linked threads: every queue is threaded through
    the one next field, and each operation does to the queues what the protocol says. */
module Scheduler {
  import opened Lists
  import opened MutexProtocol

  // The fields of thread_t that matter here. A thread is named by its tid; 0 is the null pointer.
  datatype Thread = Thread(state: RunState, next: nat, prev: nat)
  type Threads = map<nat, Thread>

  datatype Mutex = Mutex(owner: nat, lockCount: nat, waitQueue: nat, initialized: bool)

  // ----- Chains through the link fields -----

  // The next fields lead from head through exactly the threads of q.
  ghost predicate Chain(th: Threads, head: nat, q: seq<nat>) {
    head == At(q, 0) && forall i :: 0 <= i < |q| ==> q[i] in th && q[i] != 0 && th[q[i]].next == At(q, i + 1)
  }

  ghost predicate BackChain(th: Threads, q: seq<nat>) {
    forall i :: 0 <= i < |q| ==> q[i] in th && th[q[i]].prev == At(q, i - 1)
  }

  ghost predicate ReadyOk(th: Threads, head: nat, q: seq<nat>) {
    NoDup(q) && Chain(th, head, q) && BackChain(th, q)
  }

  // Links of threads outside q may change freely.
  lemma ChainFrame(th: Threads, th': Threads, head: nat, q: seq<nat>)
    requires Chain(th, head, q) && forall t :: t in q ==> t in th' && th'[t].next == th[t].next
    ensures Chain(th', head, q)
  {
  }

  lemma ChainTail(th: Threads, head: nat, q: seq<nat>)
    requires Chain(th, head, q) && q != []
    ensures head == q[0] && head in th && Chain(th, th[head].next, q[1..])
  {
  }

  // ----- scheduler_add_thread -----

  function Linked(th: Threads, head: nat, t: nat): Threads
    requires t in th
  {
    var th1 := th[t := th[t].(next := head, prev := 0)];
    if head in th1 then th1[head := th1[head].(prev := t)] else th1
  }

  lemma LinkedIsCons(th: Threads, head: nat, q: seq<nat>, t: nat)
    requires ReadyOk(th, head, q) && t in th && t != 0 && t !in q && 0 !in th
    ensures ReadyOk(Linked(th, head, t), t, [t] + q)
    ensures forall u :: u in th && u !in [t] + q ==> Linked(th, head, t)[u] == th[u]
  {
  }

  // ----- scheduler_remove_thread -----

  function Bypassed(th: Threads, t: nat): Threads
    requires t in th
  {
    var th1 := if th[t].prev in th then th[th[t].prev := th[th[t].prev].(next := th[t].next)] else th;
    if th[t].next in th1 then th1[th[t].next := th1[th[t].next].(prev := th[t].prev)] else th1
  }

  function Unlinked(th: Threads, t: nat): Threads
    requires t in th
  {
    var th2 := Bypassed(th, t);
    th2[t := th2[t].(next := 0, prev := 0)]
  }

  function HeadAfter(th: Threads, head: nat, t: nat): nat
    requires t in th
  {
    if th[t].prev != 0 then head else th[t].next
  }

  lemma UnlinkedAt(th: Threads, head: nat, q: seq<nat>, i: nat, j: nat)
    requires ReadyOk(th, head, q) && i < |q| && j < |q| && j != i && 0 !in th
    ensures q[j] in Unlinked(th, q[i])
    ensures Unlinked(th, q[i])[q[j]].next == if j == i - 1 then At(q, i + 1) else At(q, j + 1)
    ensures Unlinked(th, q[i])[q[j]].prev == if j == i + 1 then At(q, i - 1) else At(q, j - 1)
  {
  }

  lemma ChainsWithout(th: Threads, head: nat, q: seq<nat>, i: nat, r: seq<nat>, k: nat)
    requires ReadyOk(th, head, q) && i < |q| && r == q[..i] + q[i + 1..] && k < |r| && 0 !in th
    ensures r[k] in Unlinked(th, q[i]) && r[k] in q
    ensures Unlinked(th, q[i])[r[k]].next == At(r, k + 1) && Unlinked(th, q[i])[r[k]].prev == At(r, k - 1)
  {
    var j := if k < i then k else k + 1;
    NeighboursWithout(q, i, r, k, j);
    UnlinkedAt(th, head, q, i, j);
  }

  // On a queued thread it takes exactly that thread out.
  lemma UnlinkedIsRemove(th: Threads, head: nat, q: seq<nat>, i: nat, t: nat, r: seq<nat>)
    requires ReadyOk(th, head, q) && i < |q| && t == q[i] && 0 !in th && r == Unqueue(q, t)
    ensures ReadyOk(Unlinked(th, t), HeadAfter(th, head, t), r)
  {
    RemoveAt(q, i);
    UnqueueIs(q, t, r);
    forall k | 0 <= k < |r|
      ensures r[k] in Unlinked(th, t) && r[k] in q
      ensures Unlinked(th, t)[r[k]].next == At(r, k + 1) && Unlinked(th, t)[r[k]].prev == At(r, k - 1)
    {
      ChainsWithout(th, head, q, i, r, k);
    }
    assert HeadAfter(th, head, t) == At(r, 0);
  }

  lemma UnlinkedElsewhere(th: Threads, head: nat, q: seq<nat>, t: nat, u: nat)
    requires ReadyOk(th, head, q) && t in q && u in th && u !in q && 0 !in th
    ensures Unlinked(th, t)[u] == th[u]
  {
  }

  // On a thread with null links, which is on no queue, it drops the whole queue.
  lemma UnlinkedDropsQueue(th: Threads, head: nat, q: seq<nat>, t: nat)
    requires t in th && t !in q && 0 !in th && th[t].next == 0 && th[t].prev == 0
    ensures Unlinked(th, t) == th && HeadAfter(th, head, t) == 0 && Unqueue(q, t) == []
  {
  }

  // ----- All queues together -----

  datatype Memory = Memory(readyQueue: nat, threads: Threads, mutexes: map<nat, Mutex>)

  // The record of a mutex is what the protocol says: mu.
  ghost predicate MutexIs(th: Threads, m: Mutex, mu: MutexState<nat>) {
    && Chain(th, m.waitQueue, mu.waiters)
    && (forall t :: t in mu.waiters ==> t in th && th[t].prev == 0)
    && m.owner == (if mu.owner == None then 0 else mu.owner.value) && mu.owner != Some(0)
    && m.lockCount == mu.count
  }

  ghost predicate QueuesOk(mem: Memory, ready: seq<nat>, mus: map<nat, MutexState<nat>>) {
    && 0 !in mem.threads && ReadyOk(mem.threads, mem.readyQueue, ready)
    && mus.Keys == mem.mutexes.Keys
    && (forall m :: m in mus ==> MutexIs(mem.threads, mem.mutexes[m], mus[m]))
    && (forall m, t :: m in mus && t in mus[m].waiters ==> t !in ready)
  }

  ghost predicate Waits(mus: map<nat, MutexState<nat>>, t: nat) {
    exists m :: m in mus && t in mus[m].waiters
  }

  // Threads that wait may not have their links touched; then every wait queue stays what it was.
  lemma WaitersFrame(mem: Memory, ready: seq<nat>, mus: map<nat, MutexState<nat>>, th': Threads)
    requires QueuesOk(mem, ready, mus)
    requires forall t :: t in mem.threads && Waits(mus, t) ==>
      t in th' && th'[t].next == mem.threads[t].next && th'[t].prev == mem.threads[t].prev
    ensures forall m :: m in mus ==> MutexIs(th', mem.mutexes[m], mus[m])
  {
  }

  lemma AddQueues(mem: Memory, ready: seq<nat>, mus: map<nat, MutexState<nat>>, t: nat)
    requires QueuesOk(mem, ready, mus) && t in mem.threads && t !in ready && !Waits(mus, t)
    ensures QueuesOk(mem.(threads := Linked(mem.threads, mem.readyQueue, t), readyQueue := t), [t] + ready, mus)
  {
    LinkedIsCons(mem.threads, mem.readyQueue, ready, t);
    ConsNoDup(t, ready);
    WaitersFrame(mem, ready, mus, Linked(mem.threads, mem.readyQueue, t));
  }

  lemma AddEffect(mem: Memory, ready: seq<nat>, mus: map<nat, MutexState<nat>>, t: nat, th: Threads)
    requires QueuesOk(mem, ready, mus) && t in mem.threads && t !in ready && !Waits(mus, t)
    requires th == Linked(mem.threads, mem.readyQueue, t)
    ensures QueuesOk(Memory(t, th, mem.mutexes), [t] + ready, mus) && StateMap(th) == StateMap(mem.threads)
    ensures mem.readyQueue != 0 ==> mem.readyQueue in mem.threads
    ensures forall u :: u in mem.threads && u != t && u !in ready ==> u in th && th[u] == mem.threads[u]
  {
    AddQueues(mem, ready, mus, t);
    LinkedIsCons(mem.threads, mem.readyQueue, ready, t);
    LinksKeepStates(mem.threads, mem.readyQueue, t);
  }

  lemma RemoveQueues(mem: Memory, ready: seq<nat>, mus: map<nat, MutexState<nat>>, t: nat, r: seq<nat>)
    requires QueuesOk(mem, ready, mus) && t in mem.threads && !Waits(mus, t) && r == Unqueue(ready, t)
    requires t !in ready ==> mem.threads[t].next == 0 && mem.threads[t].prev == 0
    ensures QueuesOk(mem.(threads := Unlinked(mem.threads, t), readyQueue := HeadAfter(mem.threads, mem.readyQueue, t)), r, mus)
  {
    UnqueueIs(ready, t, r);
    if t in ready {
      var i :| 0 <= i < |ready| && ready[i] == t;
      UnlinkedIsRemove(mem.threads, mem.readyQueue, ready, i, t, r);
      forall u | u in mem.threads && Waits(mus, u) ensures Unlinked(mem.threads, t)[u] == mem.threads[u] {
        UnlinkedElsewhere(mem.threads, mem.readyQueue, ready, t, u);
      }
    } else {
      UnlinkedDropsQueue(mem.threads, mem.readyQueue, ready, t);
    }
    WaitersFrame(mem, ready, mus, Unlinked(mem.threads, t));
  }

  // Run states are not links.
  lemma StateQueues(mem: Memory, ready: seq<nat>, mus: map<nat, MutexState<nat>>, t: nat, s: RunState)
    requires QueuesOk(mem, ready, mus) && t in mem.threads
    ensures QueuesOk(mem.(threads := mem.threads[t := mem.threads[t].(state := s)]), ready, mus)
  {
    var th' := mem.threads[t := mem.threads[t].(state := s)];
    WaitersFrame(mem, ready, mus, th');
    ChainFrame(mem.threads, th', mem.readyQueue, ready);
  }

  // The next field of an idle thread may be set.
  lemma NextQueues(mem: Memory, ready: seq<nat>, mus: map<nat, MutexState<nat>>, t: nat, n: nat)
    requires QueuesOk(mem, ready, mus) && t in mem.threads && t !in ready && !Waits(mus, t)
    ensures QueuesOk(mem.(threads := mem.threads[t := mem.threads[t].(next := n)]), ready, mus)
  {
  }

  // A thread that points at the head of a wait queue becomes its new head.
  lemma PushIs(th: Threads, rec: Mutex, mu: MutexState<nat>, t: nat)
    requires MutexIs(th, rec, mu) && t in th && t != 0 && th[t].prev == 0 && th[t].next == rec.waitQueue
    ensures MutexIs(th, rec.(waitQueue := t), mu.(waiters := [t] + mu.waiters))
    ensures forall u :: u in [t] + mu.waiters <==> u == t || u in mu.waiters
  {
  }

  lemma PushQueues(mem: Memory, ready: seq<nat>, mus: map<nat, MutexState<nat>>, m: nat, t: nat,
                   mu: MutexState<nat>, rec: Mutex)
    requires QueuesOk(mem, ready, mus) && m in mus && t in mem.threads && t !in ready
    requires mem.threads[t].prev == 0 && mem.threads[t].next == mem.mutexes[m].waitQueue
    requires mu == mus[m].(waiters := [t] + mus[m].waiters) && rec == mem.mutexes[m].(waitQueue := t)
    ensures QueuesOk(mem.(mutexes := mem.mutexes[m := rec]), ready, mus[m := mu])
  {
    PushIs(mem.threads, mem.mutexes[m], mus[m], t);
    assert mus[m := mu].Keys == mem.mutexes[m := rec].Keys;
    assert forall n :: n in mus && n != m ==> MutexIs(mem.threads, mem.mutexes[n], mus[n]);
  }

  // An idle thread becomes the head of a wait queue.
  lemma WaitQueues(mem: Memory, ready: seq<nat>, mus: map<nat, MutexState<nat>>, m: nat, t: nat, mu: MutexState<nat>)
    requires QueuesOk(mem, ready, mus) && m in mus && t in mem.threads && t !in ready && !Waits(mus, t)
    requires mem.threads[t].prev == 0 && mu == mus[m].(waiters := [t] + mus[m].waiters)
    ensures m in mem.mutexes
    ensures var th' := mem.threads[t := mem.threads[t].(next := mem.mutexes[m].waitQueue)];
      && QueuesOk(mem.(threads := th', mutexes := mem.mutexes[m := mem.mutexes[m].(waitQueue := t)]), ready, mus[m := mu])
      && StateMap(th') == StateMap(mem.threads)
  {
    var th' := mem.threads[t := mem.threads[t].(next := mem.mutexes[m].waitQueue)];
    NextQueues(mem, ready, mus, t, mem.mutexes[m].waitQueue);
    PushQueues(mem.(threads := th'), ready, mus, m, t, mu, mem.mutexes[m].(waitQueue := t));
  }

  // Taking the head off a wait queue and making it the owner.
  lemma PopQueues(mem: Memory, ready: seq<nat>, mus: map<nat, MutexState<nat>>, m: nat, t: nat, mu: MutexState<nat>)
    requires QueuesOk(mem, ready, mus) && m in mus && mus[m].waiters != [] && NoDup(mus[m].waiters)
    requires t == mem.mutexes[m].waitQueue && mu == MutexState(Some(t), 1, mus[m].waiters[1..])
    requires forall n :: n in mus && n != m ==> t !in mus[n].waiters
    ensures t == mus[m].waiters[0] && t in mem.threads && t !in ready && !Waits(mus[m := mu], t)
    ensures QueuesOk(mem.(mutexes := mem.mutexes[m := mem.mutexes[m].(waitQueue := mem.threads[t].next, owner := t, lockCount := 1)]),
                     ready, mus[m := mu])
  {
    assert MutexIs(mem.threads, mem.mutexes[m], mus[m]);
    ChainTail(mem.threads, t, mus[m].waiters);
    assert t in mus[m].waiters;
    TailNoDup(mus[m].waiters);
  }

  // Any other change to one mutex record.
  lemma RecordQueues(mem: Memory, ready: seq<nat>, mus: map<nat, MutexState<nat>>, m: nat, rec: Mutex,
                     mu: MutexState<nat>)
    requires QueuesOk(mem, ready, mus) && m in mus && rec.waitQueue == mem.mutexes[m].waitQueue
    requires mu.waiters == mus[m].waiters
    requires rec.owner == (if mu.owner == None then 0 else mu.owner.value) && mu.owner != Some(0)
    requires rec.lockCount == mu.count
    ensures QueuesOk(mem.(mutexes := mem.mutexes[m := rec]), ready, mus[m := mu])
  {
  }

  // ----- The kernel -----

  ghost function StateMap(th: Threads): map<nat, RunState> { map t | t in th :: th[t].state }

  class Kernel {
    var readyQueue: nat
    var current: nat
    var threads: Threads
    var mutexes: map<nat, Mutex>
    // The queues as the protocol sees them.
    ghost var k: MutexProtocol.Kernel<nat, nat>

    ghost function Mem(): Memory
      reads this
    {
      Memory(readyQueue, threads, mutexes)
    }

    ghost predicate Valid()
      reads this
    {
      && Shape(k) && QueuesOk(Mem(), k.ready, k.mutexes)
      && current == k.current && k.state == StateMap(threads)
      && (current !in k.ready && threads[current].state != Blocked ==> threads[current].next == 0 && threads[current].prev == 0)
    }

    // scheduler_init, with the thread that runs first and mutexes fresh from mutex_init.
    constructor (current: nat, threads: Threads, mutexes: map<nat, Mutex>)
      requires current in threads && 0 !in threads && threads[current].state != Blocked
      requires threads[current].next == 0 && threads[current].prev == 0
      requires forall m :: m in mutexes ==> mutexes[m] == Mutex(0, 0, 0, true)
      ensures Valid() && this.mutexes == mutexes && this.threads == threads
      ensures k == MutexProtocol.Kernel(current, [], StateMap(threads), map m | m in mutexes :: MutexState(None, 0, []))
    {
      this.readyQueue, this.current, this.threads, this.mutexes := 0, current, threads, mutexes;
      k := MutexProtocol.Kernel(current, [], StateMap(threads), map m | m in mutexes :: MutexState(None, 0, []));
    }

    // The pointer statements of scheduler_add_thread.
    method LinkFront(t: nat)
      requires t in threads && (readyQueue != 0 ==> readyQueue in threads) && 0 !in threads
      modifies this`readyQueue, this`threads
      ensures threads == Linked(old(threads), old(readyQueue), t) && readyQueue == t
    {
      threads := threads[t := threads[t].(next := readyQueue, prev := 0)];
      if readyQueue != 0 {
        threads := threads[readyQueue := threads[readyQueue].(prev := t)];
      }
      readyQueue := t;
    }

    // scheduler_add_thread on a thread
    method Enqueue(t: nat)
      requires QueuesOk(Mem(), k.ready, k.mutexes) && t in threads && t !in k.ready && !Waits(k.mutexes, t)
      modifies this`readyQueue, this`threads, this`k
      ensures QueuesOk(Mem(), k.ready, k.mutexes) && k == old(k).(ready := [t] + old(k).ready)
      ensures StateMap(threads) == StateMap(old(threads))
      ensures forall u :: u in old(threads) && u != t && u !in old(k).ready ==> u in threads && threads[u] == old(threads)[u]
    {
      AddEffect(Mem(), k.ready, k.mutexes, t, Linked(threads, readyQueue, t));
      LinkFront(t);
      k := k.(ready := [t] + k.ready);
    }

    // The pointer statements of scheduler_remove_thread.
    method Unlink(t: nat)
      requires t in threads && 0 !in threads
      requires threads[t].next != 0 ==> threads[t].next in threads && threads[t].next != t
      requires threads[t].prev != 0 ==> threads[t].prev in threads && threads[t].prev != t
      modifies this`readyQueue, this`threads
      ensures threads == Unlinked(old(threads), t) && readyQueue == HeadAfter(old(threads), old(readyQueue), t)
    {
      if threads[t].prev != 0 {
        threads := threads[threads[t].prev := threads[threads[t].prev].(next := threads[t].next)];
      } else {
        readyQueue := threads[t].next;
      }
      if threads[t].next != 0 {
        threads := threads[threads[t].next := threads[threads[t].next].(prev := threads[t].prev)];
      }
      threads := threads[t := threads[t].(next := 0, prev := 0)];
    }

    // scheduler_remove_thread on a thread. Called for one that is not queued and has null links it empties the queue.
    method Dequeue(t: nat)
      requires QueuesOk(Mem(), k.ready, k.mutexes) && t in threads && !Waits(k.mutexes, t)
      requires t !in k.ready ==> threads[t].next == 0 && threads[t].prev == 0
      modifies this`readyQueue, this`threads, this`k
      ensures QueuesOk(Mem(), k.ready, k.mutexes) && k == old(k).(ready := Unqueue(old(k).ready, t))
      ensures StateMap(threads) == StateMap(old(threads))
      ensures t in threads && threads[t].next == 0 && threads[t].prev == 0
    {
      RemoveQueues(Mem(), k.ready, k.mutexes, t, Unqueue(k.ready, t));
      LinksInside(Mem(), k.ready, k.mutexes, t);
      LinksKeepStates(threads, readyQueue, t);
      Unlink(t);
      k := k.(ready := Unqueue(k.ready, t));
    }

    // The head of the ready queue leaves it to run.
    method TakeNext() returns (next: nat)
      requires Valid() && readyQueue != 0
      modifies this`readyQueue, this`threads, this`k
      ensures QueuesOk(Mem(), k.ready, k.mutexes) && k.state == StateMap(threads)
      ensures old(k).ready != [] && next == old(k).ready[0]
      ensures k == old(k).(ready := old(k).ready[1..], state := old(k).state[next := Running])
      ensures next in threads && threads[next].next == 0 && threads[next].prev == 0
    {
      next := readyQueue;
      NotWaiting(k, next);
      Dequeue(next);
      SetState(next, Running);
    }

    // scheduler_schedule
    method Reschedule()
      requires Valid()
      modifies this
      ensures Valid() && k == Schedule(old(k)) && mutexes == old(mutexes)
      ensures old(readyQueue) == 0 ==> k == old(k) && threads == old(threads)
      ensures old(readyQueue) != 0 ==> current == old(readyQueue) && current in threads && threads[current].state == Running
    {
      ScheduleShape(k);
      if readyQueue == 0 {
        return;
      }
      var next := TakeNext();
      current := next;
      k := k.(current := next);
    }

    // The assignment of a run state.
    method SetState(t: nat, s: RunState)
      requires QueuesOk(Mem(), k.ready, k.mutexes) && k.state == StateMap(threads) && t in threads
      modifies this`threads, this`k
      ensures QueuesOk(Mem(), k.ready, k.mutexes) && k == old(k).(state := old(k).state[t := s])
      ensures k.state == StateMap(threads) && threads == old(threads)[t := old(threads)[t].(state := s)]
    {
      StateQueues(Mem(), k.ready, k.mutexes, t, s);
      threads := threads[t := threads[t].(state := s)];
      k := k.(state := k.state[t := s]);
    }

    // thread_block on a thread
    method Sleep(t: nat)
      requires Valid() && t in threads && !Waits(k.mutexes, t)
      requires t !in k.ready ==> threads[t].next == 0 && threads[t].prev == 0
      modifies this`readyQueue, this`threads, this`k
      ensures QueuesOk(Mem(), k.ready, k.mutexes) && k.state == StateMap(threads)
      ensures k == old(k).(ready := Unqueue(old(k).ready, t), state := old(k).state[t := Blocked])
      ensures t in threads && threads[t].next == 0 && threads[t].prev == 0
    {
      SetState(t, Blocked);
      Dequeue(t);
    }

    // thread_unblock on a thread
    method Wake(t: nat)
      requires QueuesOk(Mem(), k.ready, k.mutexes) && k.state == StateMap(threads) && t in threads
      requires t !in k.ready && !Waits(k.mutexes, t)
      modifies this`readyQueue, this`threads, this`k
      ensures QueuesOk(Mem(), k.ready, k.mutexes) && k.state == StateMap(threads)
      ensures k == old(k).(ready := [t] + old(k).ready, state := old(k).state[t := Ready])
      ensures forall u :: u in old(threads) && u != t && u !in old(k).ready ==> u in threads && threads[u] == old(threads)[u]
    {
      SetState(t, Ready);
      Enqueue(t);
    }

    // The current thread, just blocked, becomes the head of the wait queue.
    method PushWaiter(m: nat)
      requires QueuesOk(Mem(), k.ready, k.mutexes) && m in mutexes && current in threads
      requires current !in k.ready && !Waits(k.mutexes, current) && threads[current].prev == 0
      modifies this`threads, this`mutexes, this`k
      ensures QueuesOk(Mem(), k.ready, k.mutexes) && StateMap(threads) == StateMap(old(threads))
      ensures m in old(k).mutexes && k == old(k).(mutexes := old(k).mutexes[m :=
        old(k).mutexes[m].(waiters := [current] + old(k).mutexes[m].waiters)])
    {
      ghost var mu := k.mutexes[m].(waiters := [current] + k.mutexes[m].waiters);
      WaitQueues(Mem(), k.ready, k.mutexes, m, current, mu);
      threads := threads[current := threads[current].(next := mutexes[m].waitQueue)];
      mutexes := mutexes[m := mutexes[m].(waitQueue := current)];
      k := k.(mutexes := k.mutexes[m := mu]);
    }

    // Owner and count of a mutex change, its wait queue does not; k1 is the protocol state that results.
    method SetRecord(m: nat, owner: nat, count: nat, ghost mu: MutexState<nat>, ghost k1: MutexProtocol.Kernel<nat,
                     nat>)
      requires Valid() && m in mutexes && k1 == k.(mutexes := k.mutexes[m := mu]) && Shape(k1)
      requires mu.waiters == k.mutexes[m].waiters && mu.count == count
      requires owner == (if mu.owner == None then 0 else mu.owner.value) && mu.owner != Some(0)
      modifies this`mutexes, this`k
      ensures Valid() && k == k1
      ensures mutexes == old(mutexes)[m := old(mutexes)[m].(owner := owner, lockCount := count)]
    {
      RecordQueues(Mem(), k.ready, k.mutexes, m, mutexes[m].(owner := owner, lockCount := count), mu);
      mutexes := mutexes[m := mutexes[m].(owner := owner, lockCount := count)];
      k := k1;
    }

    // The current thread waits for a mutex that another thread holds.
    method Wait(m: nat)
      requires Valid() && Acts(k) && m in mutexes && k.mutexes[m].owner != None && k.mutexes[m].owner != Some(current)
      modifies this`readyQueue, this`threads, this`mutexes, this`k
      ensures Valid() && m in old(k).mutexes && k == Waiting(old(k), m)
    {
      WaitingShape(k, m);
      NotWaiting(k, current);
      UnqueueIs(k.ready, current, Unqueue(k.ready, current));
      Sleep(current);
      PushWaiter(m);
    }

    // mutex_lock on a mutex. Called by a running thread; on a contended mutex the call takes effect up to the point where
    // another thread continues, or where the caller continues because there is none.
    method LockAt(m: nat) returns (r: int)
      requires Valid() && Acts(k) && m in mutexes
      modifies this
      ensures Valid() && m in old(k).mutexes
      ensures r == (if old(mutexes)[m].initialized then 0 else -1)
      ensures k == if old(mutexes)[m].initialized then Lock(old(k), m) else old(k)
    {
      if !mutexes[m].initialized {
        return -1;
      }
      r := 0;
      ghost var mu := k.mutexes[m];
      OwnerIs(Mem(), k, m, current);
      LockShape(k, m);
      if mutexes[m].owner == 0 {
        SetRecord(m, current, 1, mu.(owner := Some(current), count := 1), Lock(k, m));
      } else if mutexes[m].owner == current {
        var count := Up(mutexes[m].lockCount);
        SetRecord(m, current, count, mu.(count := count), Lock(k, m));
      } else {
        LockWaits(k, m);
        Wait(m);
        Reschedule();
      }
    }

    // mutex_trylock on a mutex
    method TrylockAt(m: nat) returns (r: int)
      requires Valid() && Acts(k) && m in mutexes
      modifies this
      ensures Valid() && m in old(k).mutexes
      ensures r == (if old(mutexes)[m].initialized && Trylock(old(k), m).1 then 0 else -1)
      ensures k == if old(mutexes)[m].initialized then Trylock(old(k), m).0 else old(k)
    {
      if !mutexes[m].initialized {
        return -1;
      }
      OwnerIs(Mem(), k, m, current);
      TrylockShape(k, m);
      if mutexes[m].owner == 0 {
        SetRecord(m, current, 1, k.mutexes[m].(owner := Some(current), count := 1), Trylock(k, m).0);
        return 0;
      }
      return -1;
    }

    // The head of a wait queue leaves it as the new owner.
    method PopWaiter(m: nat) returns (next: nat)
      requires Valid() && m in mutexes && mutexes[m].waitQueue != 0
      modifies this`mutexes, this`k
      ensures m in old(k).mutexes && old(k).mutexes[m].waiters != [] && next == old(k).mutexes[m].waiters[0]
      ensures k == old(k).(mutexes := old(k).mutexes[m := MutexState(Some(next), 1, old(k).mutexes[m].waiters[1..])])
      ensures QueuesOk(Mem(), k.ready, k.mutexes) && next in threads && next !in k.ready && !Waits(k.mutexes, next)
    {
      HeadWaiter(Mem(), k, m);
      next := mutexes[m].waitQueue;
      ghost var mu := MutexState(Some(next), 1, k.mutexes[m].waiters[1..]);
      PopQueues(Mem(), k.ready, k.mutexes, m, next, mu);
      mutexes := mutexes[m := mutexes[m].(waitQueue := threads[next].next, owner := next, lockCount := 1)];
      k := k.(mutexes := k.mutexes[m := mu]);
    }

    // The head waiter of a released mutex becomes its owner and ready to run.
    method HandOver(m: nat)
      requires Valid() && Acts(k) && m in mutexes && mutexes[m].waitQueue != 0 && k.mutexes[m].waiters != []
      requires Shape(HandedOver(k, m))
      modifies this`readyQueue, this`threads, this`mutexes, this`k
      ensures Valid() && m in old(k).mutexes && old(k).mutexes[m].waiters != [] && k == HandedOver(old(k), m)
    {
      NotWaiting(k, current);
      ghost var self := threads[current];
      var next := PopWaiter(m);
      assert current != next && (current !in k.ready ==> threads[current] == self);
      Wake(next);
      assert current !in k.ready ==> threads[current] == self;
    }

    // mutex_unlock on a mutex
    method UnlockAt(m: nat) returns (r: int)
      requires Valid() && Acts(k) && m in mutexes
      modifies this
      ensures Valid() && m in old(k).mutexes
      ensures r == (if old(mutexes)[m].initialized && Unlock(old(k), m).1 then 0 else -1)
      ensures k == if old(mutexes)[m].initialized then Unlock(old(k), m).0 else old(k)
    {
      if !mutexes[m].initialized {
        return -1;
      }
      OwnerIs(Mem(), k, m, current);
      if mutexes[m].owner != current {
        return -1;
      }
      r := 0;
      UnlockShape(k, m);
      ghost var mu := k.mutexes[m];
      var count := Down(mutexes[m].lockCount);
      if count != 0 {
        SetRecord(m, current, count, mu.(count := count), Unlock(k, m).0);
      } else if mutexes[m].waitQueue == 0 {
        SetRecord(m, 0, 0, mu.(owner := None, count := 0), Unlock(k, m).0);
      } else {
        UnlockHandsOver(k, m);
        HandOver(m);
      }
    }

    // ----- The calls themselves, which do nothing for a null pointer -----

    // scheduler_add_thread
    method AddThread(t: nat)
      requires QueuesOk(Mem(), k.ready, k.mutexes) && (t != 0 ==> t in threads && t !in k.ready && !Waits(k.mutexes, t))
      modifies this`readyQueue, this`threads, this`k
      ensures QueuesOk(Mem(), k.ready, k.mutexes) && StateMap(threads) == StateMap(old(threads))
      ensures k == if t == 0 then old(k) else old(k).(ready := [t] + old(k).ready)
    {
      if t != 0 {
        Enqueue(t);
      }
    }

    // scheduler_remove_thread
    method RemoveThread(t: nat)
      requires QueuesOk(Mem(), k.ready, k.mutexes) && (t != 0 ==> t in threads && !Waits(k.mutexes, t))
      requires t != 0 && t !in k.ready ==> threads[t].next == 0 && threads[t].prev == 0
      modifies this`readyQueue, this`threads, this`k
      ensures QueuesOk(Mem(), k.ready, k.mutexes) && StateMap(threads) == StateMap(old(threads))
      ensures if t == 0 then k == old(k) else k == old(k).(ready := k.ready) && OffQueue(old(k).ready, t, k.ready)
      ensures t != 0 ==> t in threads && threads[t].next == 0 && threads[t].prev == 0
    {
      if t != 0 {
        OffQueueIs(k.ready, t);
        Dequeue(t);
      }
    }

    // thread_block
    method BlockThread(t: nat)
      requires Valid() && (t != 0 ==> t in threads && !Waits(k.mutexes, t))
      requires t != 0 && t !in k.ready ==> threads[t].next == 0 && threads[t].prev == 0
      modifies this`readyQueue, this`threads, this`k
      ensures QueuesOk(Mem(), k.ready, k.mutexes) && k.state == StateMap(threads)
      ensures t == 0 ==> k == old(k)
      ensures t != 0 ==>
        k == old(k).(ready := k.ready, state := old(k).state[t := Blocked]) && OffQueue(old(k).ready, t, k.ready)
    {
      if t != 0 {
        OffQueueIs(k.ready, t);
        Sleep(t);
      }
    }

    // thread_unblock
    method UnblockThread(t: nat)
      requires QueuesOk(Mem(), k.ready, k.mutexes) && k.state == StateMap(threads)
      requires t != 0 ==> t in threads && t !in k.ready && !Waits(k.mutexes, t)
      modifies this`readyQueue, this`threads, this`k
      ensures QueuesOk(Mem(), k.ready, k.mutexes) && k.state == StateMap(threads)
      ensures k == if t == 0 then old(k) else old(k).(ready := [t] + old(k).ready, state := old(k).state[t := Ready])
    {
      if t != 0 {
        Wake(t);
      }
    }

    lemma Record(m: nat)
      requires Valid() && m in mutexes
      ensures m in k.mutexes && Records(mutexes[m], k.mutexes[m]) && k.current == current && current != 0
    {
      RecordIs(Mem(), k, m);
    }

    method LockChecked(m: nat) returns (r: int)
      requires Valid() && Acts(k) && m in mutexes
      modifies this
      ensures Valid() && m in old(k).mutexes && m in mutexes
      ensures r == if old(mutexes)[m].initialized then 0 else -1
      ensures k == if r == 0 then Lock(old(k), m) else old(k)
      ensures r == 0 ==> LockedRecord(old(mutexes)[m], mutexes[m], old(current))
    {
      Record(m);
      ghost var k0, mu, t := k, mutexes[m], current;
      SameKeys(k, m);
      r := LockAt(m);
      HasRecord(m);
      if r == 0 {
        Record(m);
        LockRecord(k0, m, mu, mutexes[m], k);
      }
    }

    lemma HasRecord(m: nat)
      requires Valid() && m in k.mutexes
      ensures m in mutexes
    {
    }

    // mutex_lock: 0 exactly on an initialised mutex. A free one is taken, the owner counts up, anyone else becomes
    // the head of the wait queue.
    method MutexLock(m: nat) returns (r: int)
      requires Valid() && Acts(k) && (m != 0 ==> m in mutexes)
      modifies this
      ensures Valid() && (m != 0 ==> m in old(k).mutexes && m in mutexes)
      ensures r == if m != 0 && old(mutexes)[m].initialized then 0 else -1
      ensures k == if r == 0 then Lock(old(k), m) else old(k)
      ensures r == 0 ==> LockedRecord(old(mutexes)[m], mutexes[m], old(current))
    {
      if m == 0 {
        r := -1;
      } else {
        r := LockChecked(m);
      }
    }

    // mutex_trylock: 0 exactly on an initialised mutex that nobody owns, which is then the caller's.
    method MutexTrylock(m: nat) returns (r: int)
      requires Valid() && Acts(k) && (m != 0 ==> m in mutexes)
      modifies this
      ensures Valid() && (m != 0 ==> m in old(k).mutexes && m in mutexes)
      ensures r == if m != 0 && old(mutexes)[m].initialized && old(mutexes)[m].owner == 0 then 0 else -1
      ensures k == if r == 0 then Trylock(old(k), m).0 else old(k)
      ensures r == 0 ==> mutexes[m].owner == old(current) && mutexes[m].lockCount == 1
    {
      if m == 0 {
        r := -1;
      } else {
        Record(m);
        r := TrylockAt(m);
        Record(m);
      }
    }

    // mutex_unlock: 0 exactly on an initialised mutex that the caller owns. A hold of more than one counts down; the
    // last one passes the mutex to the head of the wait queue, or frees it when there is none.
    method MutexUnlock(m: nat) returns (r: int)
      requires Valid() && Acts(k) && (m != 0 ==> m in mutexes)
      modifies this
      ensures Valid() && (m != 0 ==> m in old(k).mutexes && m in mutexes)
      ensures r == if m != 0 && old(mutexes)[m].initialized && old(mutexes)[m].owner == old(current) then 0 else -1
      ensures k == if r == 0 then Unlock(old(k), m).0 else old(k)
      ensures r == 0 ==> UnlockedRecord(old(mutexes)[m], mutexes[m])
    {
      if m == 0 {
        r := -1;
      } else {
        Record(m);
        r := UnlockAt(m);
        Record(m);
        OwnerCheck(old(k), m, old(mutexes)[m]);
        if r == 0 { UnlockRecord(old(k), m, old(mutexes)[m], mutexes[m], k); }
      }
    }
  }

  // The record of a mutex before and after a call of mutex_lock by thread t.
  predicate LockedRecord(mu: Mutex, mu': Mutex, t: nat) {
    && (mu.owner == 0 ==> mu'.owner == t && mu'.lockCount == 1 && mu'.waitQueue == mu.waitQueue)
    && (mu.owner == t && mu.lockCount < 0xFFFF_FFFF ==>
          mu'.owner == t && mu'.lockCount == mu.lockCount + 1 && mu'.waitQueue == mu.waitQueue)
    && (mu.owner != 0 && mu.owner != t ==> mu'.owner == mu.owner && mu'.lockCount == mu.lockCount && mu'.waitQueue == t)
  }

  // The same of mutex_unlock by the owner.
  predicate UnlockedRecord(mu: Mutex, mu': Mutex) {
    && (1 < mu.lockCount <= 0xFFFF_FFFF ==>
          mu'.owner == mu.owner && mu'.lockCount == mu.lockCount - 1 && mu'.waitQueue == mu.waitQueue)
    && (mu.lockCount == 1 ==> mu'.owner == mu.waitQueue && mu'.lockCount == if mu.waitQueue == 0 then 0 else 1)
  }

  // What the record of a mutex says.
  ghost predicate Records(mu: Mutex, st: MutexState<nat>) {
    && mu.owner == (if st.owner == None then 0 else st.owner.value) && st.owner != Some(0)
    && mu.lockCount == st.count && mu.waitQueue == At(st.waiters, 0) && (st.waiters != [] ==> mu.waitQueue != 0)
  }

  lemma RecordIs(mem: Memory, k: MutexProtocol.Kernel<nat, nat>, m: nat)
    requires QueuesOk(mem, k.ready, k.mutexes) && m in k.mutexes
    ensures m in mem.mutexes && Records(mem.mutexes[m], k.mutexes[m])
  {
    assert MutexIs(mem.threads, mem.mutexes[m], k.mutexes[m]);
  }

  lemma LockRecord(k: MutexProtocol.Kernel<nat, nat>, m: nat, mu: Mutex, mu': Mutex, k': MutexProtocol.Kernel<nat, nat>)
    requires m in k.mutexes && k' == Lock(k, m) && m in k'.mutexes && k.current != 0
    requires Records(mu, k.mutexes[m]) && Records(mu', k'.mutexes[m])
    ensures LockedRecord(mu, mu', k.current)
  {
  }

  lemma SameKeys(k: MutexProtocol.Kernel<nat, nat>, m: nat)
    requires m in k.mutexes
    ensures m in Lock(k, m).mutexes
  {
  }

  lemma OwnerCheck(k: MutexProtocol.Kernel<nat, nat>, m: nat, mu: Mutex)
    requires m in k.mutexes && Records(mu, k.mutexes[m]) && k.current != 0
    ensures Unlock(k, m).1 <==> mu.owner == k.current
  {
  }

  lemma UnlockRecord(k: MutexProtocol.Kernel<nat, nat>, m: nat, mu: Mutex, mu': Mutex,
                     k': MutexProtocol.Kernel<nat, nat>)
    requires m in k.mutexes && k' == Unlock(k, m).0 && m in k'.mutexes && k.mutexes[m].owner == Some(k.current)
    requires Records(mu, k.mutexes[m]) && Records(mu', k'.mutexes[m])
    ensures UnlockedRecord(mu, mu')
  {
  }

  // A thread that is not blocked is on no wait queue.
  lemma NotWaiting(k: MutexProtocol.Kernel<nat, nat>, t: nat)
    requires Shape(k) && t in k.state && k.state[t] != Blocked
    ensures !Waits(k.mutexes, t)
  {
  }

  // What a mutex record says about owner and waiters.
  lemma OwnerIs(mem: Memory, k: MutexProtocol.Kernel<nat, nat>, m: nat, t: nat)
    requires QueuesOk(mem, k.ready, k.mutexes) && m in k.mutexes && t in mem.threads
    ensures m in mem.mutexes && t != 0 && mem.mutexes[m].lockCount == k.mutexes[m].count
    ensures mem.mutexes[m].owner == 0 <==> k.mutexes[m].owner == None
    ensures mem.mutexes[m].owner == t <==> k.mutexes[m].owner == Some(t)
    ensures mem.mutexes[m].waitQueue == 0 <==> k.mutexes[m].waiters == []
  {
  }

  lemma LockWaits(k: MutexProtocol.Kernel<nat, nat>, m: nat)
    requires m in k.mutexes && k.mutexes[m].owner != None && k.mutexes[m].owner != Some(k.current)
    ensures Lock(k, m) == Schedule(Waiting(k, m))
  {
  }

  ghost function HandedOver(k: MutexProtocol.Kernel<nat, nat>, m: nat): MutexProtocol.Kernel<nat, nat>
    requires m in k.mutexes && k.mutexes[m].waiters != []
  {
    var next := k.mutexes[m].waiters[0];
    k.(ready := [next] + k.ready, state := k.state[next := Ready],
       mutexes := k.mutexes[m := MutexState(Some(next), 1, k.mutexes[m].waiters[1..])])
  }

  lemma UnlockHandsOver(k: MutexProtocol.Kernel<nat, nat>, m: nat)
    requires m in k.mutexes && k.mutexes[m].owner == Some(k.current) && k.mutexes[m].waiters != []
    requires Down(k.mutexes[m].count) == 0
    ensures Unlock(k, m).0 == HandedOver(k, m) && Unlock(k, m).1
  {
  }

  lemma HeadWaiter(mem: Memory, k: MutexProtocol.Kernel<nat, nat>, m: nat)
    requires Shape(k) && QueuesOk(mem, k.ready, k.mutexes) && m in k.mutexes && mem.mutexes[m].waitQueue != 0
    ensures k.mutexes[m].waiters != [] && mem.mutexes[m].waitQueue == k.mutexes[m].waiters[0]
    ensures NoDup(k.mutexes[m].waiters)
    ensures forall n :: n in k.mutexes && n != m ==> k.mutexes[m].waiters[0] !in k.mutexes[n].waiters
  {
    assert MutexIs(mem.threads, mem.mutexes[m], k.mutexes[m]) && WaitersOk(k.state, k.mutexes[m]);
    var t := k.mutexes[m].waiters[0];
    forall n | n in k.mutexes && n != m ensures t !in k.mutexes[n].waiters {
      assert t in k.mutexes[m].waiters;
    }
  }

  lemma LinksKeepStates(th: Threads, head: nat, t: nat)
    requires t in th
    ensures StateMap(Linked(th, head, t)) == StateMap(th)
    ensures StateMap(Unlinked(th, t)) == StateMap(th)
  {
  }

  // The links of a ready thread, or null ones, never lead outside the threads or back to the thread itself.
  lemma LinksInside(mem: Memory, ready: seq<nat>, mus: map<nat, MutexState<nat>>, t: nat)
    requires QueuesOk(mem, ready, mus) && t in mem.threads
    requires t !in ready ==> mem.threads[t].next == 0 && mem.threads[t].prev == 0
    ensures mem.threads[t].next != 0 ==> mem.threads[t].next in mem.threads && mem.threads[t].next != t
    ensures mem.threads[t].prev != 0 ==> mem.threads[t].prev in mem.threads && mem.threads[t].prev != t
  {
  }
}
