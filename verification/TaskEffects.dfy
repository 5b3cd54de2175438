/** What each kernel call does to the tasks: who can run afterwards, and the state of the task it is about. */
module TaskEffects {
  import opened DeltaList
  import opened Links
  import DeltaClock
  import opened TaskModel
  import opened TaskTurns

  /** The tasks whose delay is over. */
  function DueTasks(k: K): set<int> { Members(Ids(k.delay)[..DueNow(k.delay, 0)]) }

  function Members(q: seq<int>): set<int> { set x | x in q }

  /** Those among them that an unlock at the given depth releases. */
  function Disposed(k: K, lock: int): set<int> { if lock == 1 && k.timeReq then DueTasks(k) else {} }

  lemma InsertRunnable(k: K, x: int)
    requires Sized(k) && 0 <= x < |k.st| && x !in k.ready && k.st[x] != RUNNING
    ensures Runnable(RdyInsert(k, x)) == Runnable(k) + {x}
  {
    var pos := RdyPos(k.prio, k.ready, k.prio[x]);
    Inserted(k.ready, pos, x);
  }

  lemma Inserted(q: seq<int>, pos: nat, x: int)
    requires pos <= |q|
    ensures forall y :: y in InsertAt(q, pos, x) <==> y in q || y == x
  {
    var r := InsertAt(q, pos, x);
    assert r[pos] == x;
    assert q == q[..pos] + q[pos..];
  }

  lemma {:induction false} ReleaseRunnable(k: K)
    requires Inv(k)
    ensures Runnable(Release(k)) == Runnable(k) + DueTasks(k)
    decreases |k.delay|
  {
    if k.delay != [] && k.delay[0].delta == 0 {
      var d := HeadRunnable(k);
      ReleaseRunnable(d);
    } else {
      assert Ids(k.delay)[..0] == [];
    }
  }

  lemma HeadRunnable(k: K) returns (d: K)
    requires Inv(k) && k.delay != [] && k.delay[0].delta == 0
    ensures Inv(d) && Release(k) == Release(d) && |d.delay| < |k.delay|
    ensures Runnable(d) + DueTasks(d) == Runnable(k) + DueTasks(k)
  {
    var x := Ids(k.delay)[0];
    assert x in Ids(k.delay);
    var c := DropHead(k);
    InsertSafe(c, x);
    InsertRunnable(c, x);
    d := RdyInsert(c, x);
    assert Runnable(c) == Runnable(k);
    DueTail(k, d);
  }

  lemma DueTail(k: K, d: K)
    requires k.delay != [] && k.delay[0].delta == 0 && d.delay == k.delay[1..]
    ensures DueTasks(k) == {Ids(k.delay)[0]} + DueTasks(d)
  {
    DueIds(k.delay);
    DueSplit(Ids(k.delay)[..DueNow(k.delay, 0)], Ids(k.delay)[0], Ids(d.delay)[..DueNow(d.delay, 0)]);
  }

  lemma DueSplit(q: seq<int>, x: int, r: seq<int>)
    requires q == [x] + r
    ensures Members(q) == {x} + Members(r)
  {
  }

  /** An unlock conserves the tasks that can run, but for those it releases. */
  lemma UnlockRunnable(k: K)
    requires Inv(k) && k.lock >= 1
    ensures Runnable(Unlock(k)) == Runnable(k) + Disposed(k, k.lock)
  {
    if k.lock == 1 {
      var k1 := RespondInv(k);
      if k.timeReq {
        ReleaseRunnable(k);
        assert Runnable(k1) == Runnable(Release(k));
      }
      ReschedRunnable(k1, 1);
      assert Runnable(Unlock(k)) == Runnable(Resched(k1, 1));
    }
  }

  lemma ReschedRunnable(k: K, lock: int)
    requires Inv(k)
    ensures Runnable(Resched(k, lock)) == Runnable(k)
  {
    if k.req && k.running >= 0 && !Refused(k, lock) { ScheduleFacts(k, lock); }
  }

  lemma BracketRunnable(k: K)
    requires Inv(k)
    ensures Runnable(Bracket(k)) == Runnable(k) + Disposed(k, k.lock + 1)
  {
    LockInv(k);
    UnlockRunnable(k.(lock := k.lock + 1));
  }

  // ----- a task that is not to run -----

  /** The task neither sleeps nor can run. */
  predicate Down(k: K, id: int) { OffLists(k.(free := []), id) && k.st[id] != READY && k.st[id] != RUNNING }

  lemma {:induction false} ReleaseDown(k: K, id: int)
    requires Sized(k) && Down(k, id)
    ensures Down(Release(k), id) && Release(k).st[id] == k.st[id]
    decreases |k.delay|
  {
    if k.delay != [] && k.delay[0].delta == 0 {
      var x := Ids(k.delay)[0];
      var c := k.(delay := k.delay[1..]);
      assert x in Ids(k.delay) && Ids(c.delay) == Ids(k.delay)[1..];
      Inserted(c.ready, RdyPos(c.prio, c.ready, c.prio[x]), x);
      ReleaseDown(RdyInsert(c, x), id);
    }
  }

  lemma TakeOverDown(k: K, id: int)
    requires Inv(k) && Down(k, id) && k.ready != []
    ensures var r := TakeOver(k, k.ready[0]); Down(r, id) && r.st[id] == k.st[id]
  {
    assert k.ready[0] in k.ready;
    var r := HeadLists(k);
  }

  lemma ReschedDown(k: K, lock: int, id: int)
    requires Inv(k) && Down(k, id)
    ensures Down(Resched(k, lock), id) && Resched(k, lock).st[id] == k.st[id]
  {
    if k.req && k.running >= 0 && !Refused(k, lock) {
      if k.st[k.running] != RUNNING {
        TakeOverDown(k, id);
      } else if TurnEnds(k) {
        PreemptDown(k, id);
      }
    }
  }

  lemma PreemptDown(k: K, id: int)
    requires Inv(k) && Down(k, id) && k.running == k.next >= 0 && k.ready != [] && k.st[k.running] == RUNNING
    requires k.prio[k.ready[0]] <= k.prio[k.running]
    ensures var r := Preempt(k, k.ready[0]); Down(r, id) && r.st[id] == k.st[id]
  {
    var k1 := SwapInsert(k);
    assert k.ready[0] in k.ready && IndexOf(k1.ready, k.ready[0]) == 0;
    RemoveDistinct(k1.ready, 0);
  }

  lemma UnlockDown(k: K, id: int)
    requires Inv(k) && k.lock >= 1 && Down(k, id)
    ensures Down(Unlock(k), id) && Unlock(k).st[id] == k.st[id]
  {
    if k.lock == 1 {
      var k1 := RespondInv(k);
      if k.timeReq { ReleaseDown(k, id); }
      ReschedDown(k1, 1, id);
    }
  }

  lemma BracketDown(k: K, id: int)
    requires Inv(k) && Down(k, id)
    ensures Down(Bracket(k), id) && Bracket(k).st[id] == k.st[id]
  {
    LockInv(k);
    UnlockDown(k.(lock := k.lock + 1), id);
  }

  // ----- the calls -----

  /** A task that is created has its priority and its slice, and it is WAITING on no list, or it can run. */
  lemma CreatedFacts(k: K, id: int, p: int, slice: int, waiting: bool)
    requires Inv(k) && Enabled(k, Init(id, p, slice, waiting))
    ensures var d := Do(k, Init(id, p, slice, waiting));
            && d.prio == k.prio[id := p] && d.slice == k.slice[id := slice]
            && (waiting ==> d.st == k.st[id := WAITING] && d.ready == k.ready && d.delay == k.delay && d.next == k.next)
            && (!waiting ==> Runnable(d) == Runnable(k) + {id} + Disposed(k, k.lock + 1))
  {
    if !waiting {
      var k1 := PrioInv(k, id, p, slice);
      assert Runnable(k1) == Runnable(k);
      MadeReady(k1, id);
    }
  }

  lemma MadeReady(k: K, id: int)
    requires Inv(k) && OffLists(k, id) && k.st[id] != RUNNING
    ensures var r := Bracket(RdyInsert(k, id));
            && Runnable(r) == Runnable(k) + {id} + Disposed(k, k.lock + 1)
            && r.prio == k.prio && r.slice == k.slice && r.free == k.free && r.lock == k.lock
  {
    InsertSafe(k, id);
    InsertRunnable(k, id);
    BracketRunnable(RdyInsert(k, id));
    BracketKeeps(RdyInsert(k, id));
  }

  lemma BracketKeeps(k: K)
    requires Sized(k)
    ensures Bracket(k).prio == k.prio && Bracket(k).slice == k.slice
    ensures Bracket(k).free == k.free && Bracket(k).lock == k.lock
  {
    var k1 := k.(lock := k.lock + 1);
    if k.lock == 0 {
      RespondTables(k1);
      var k3 := LastUnlock(k1, Respond(k1));
    }
  }

  lemma LastUnlock(k: K, k1: K) returns (r: K)
    requires Sized(k) && Sized(k1) && k.lock == 1 && k1 == Respond(k)
    ensures r == Unlock(k) && r.lock == 0 && r.prio == k1.prio && r.slice == k1.slice && r.free == k1.free
  {
    ReschedTables(k1, 1);
    r := Resched(k1, 1).(lock := 0);
  }

  lemma RespondTables(k: K)
    requires Sized(k)
    ensures var r := Respond(k); r.prio == k.prio && r.slice == k.slice && r.free == k.free && r.lock == k.lock
  {
    ReleaseSlice(k);
  }

  lemma {:induction false} ReleaseSlice(k: K)
    requires Sized(k)
    ensures Release(k).slice == k.slice
    decreases |k.delay|
  {
    if k.delay != [] && k.delay[0].delta == 0 {
      ReleaseSlice(RdyInsert(k.(delay := k.delay[1..]), Ids(k.delay)[0]));
    }
  }

  lemma ReschedTables(k: K, lock: int)
    requires Sized(k)
    ensures var r := Resched(k, lock); r.prio == k.prio && r.slice == k.slice && r.free == k.free && r.lock == k.lock
  {
    ReschedKeeps(k, lock);
  }

  /** A task that is deleted is DORMANT, at the head of the free list and on no other, and the others go on. */
  lemma DeletedFacts(k: K, id: int)
    requires Inv(k) && Enabled(k, Del(id)) && Deletable(k, id)
    ensures var d := Do(k, Del(id));
            && Down(d, id) && d.st[id] == DORMANT && d.free == [id] + k.free
            && Runnable(d) == Runnable(k) - {id} + (Disposed(k, k.lock + 1) - {id})
  {
    var k1 := Deleted(k, id);
    DeleteInv(k, id);
    DeletedDown(k, id);
    BracketDown(k1, id);
    BracketRunnable(k1);
    BracketKeeps(k1);
  }

  lemma DeletedDown(k: K, id: int)
    requires Inv(k) && Deletable(k, id) && DelHarmless(k, id)
    ensures var d := Deleted(k, id);
            && Down(d, id) && d.st[id] == DORMANT && d.free == [id] + k.free
            && Runnable(d) == Runnable(k) - {id} && Disposed(d, d.lock + 1) == Disposed(k, k.lock + 1) - {id}
  {
    DeletedRunnable(k, id);
    DeletedDue(k, id);
  }

  /** d is k with id off the ready list and in state s. */
  lemma RunnableWithout(k: K, d: K, id: int, s: TaskState)
    requires 0 <= id < |k.st| && d.st == k.st[id := s] && s != READY && s != RUNNING && d.next == k.next
    requires forall x :: x in d.ready <==> x in k.ready && x != id
    ensures Runnable(d) == Runnable(k) - {id}
  {
  }

  lemma DeletedReady(k: K, id: int)
    requires Inv(k) && Deletable(k, id) && DelHarmless(k, id)
    ensures forall x :: x in Deleted(k, id).ready <==> x in k.ready && x != id
  {
    if k.st[id] == READY && id in k.ready { RemoveDistinct(k.ready, IndexOf(k.ready, id)); }
  }

  lemma DeletedRunnable(k: K, id: int)
    requires Inv(k) && Deletable(k, id) && DelHarmless(k, id)
    ensures var d := Deleted(k, id);
            && Down(d, id) && d.st == k.st[id := DORMANT] && d.free == [id] + k.free
            && Runnable(d) == Runnable(k) - {id} && d.lock == k.lock && d.timeReq == k.timeReq
  {
    var k2 := DeletedLists(k, id);
    DeletedReady(k, id);
    RunnableWithout(k, Deleted(k, id), id, DORMANT);
  }

  lemma DeletedDue(k: K, id: int)
    requires Inv(k) && Deletable(k, id)
    ensures DueTasks(Deleted(k, id)) == DueTasks(k) - {id}
  {
    var i := IndexOf(Ids(k.delay), id);
    if i < |k.delay| {
      assert k.st[Ids(k.delay)[i]] == WAITING by { assert Ids(k.delay)[i] in Ids(k.delay); }
      DueRemoved(k.delay, i);
      RemovedIds(k.delay, i);
      FrontWithout(Ids(k.delay), Ids(Remove(k.delay, i)), i, DueNow(k.delay, 0), DueNow(Remove(k.delay, i), 0));
    } else {
      assert id !in Ids(k.delay)[..DueNow(k.delay, 0)];
    }
  }

  lemma DueRemoved(l: seq<Entry>, i: nat)
    requires i < |l| && Total(l) < S32_LIMIT
    ensures var n := DueNow(l, 0); DueNow(Remove(l, i), 0) == if i < n then n - 1 else n
  {
    var n := DueNow(l, 0);
    var z := if i < n then n - 1 else n;
    DeltaClock.RemoveIds(l, i);
    forall j | 0 <= j < z
      ensures Due(Remove(l, i), j) == 0
    {
      DueThere(l, i, j);
      ZeroPrefix(l, n, if j < i then j else j + 1);
    }
    if z < |l| - 1 {
      DueThere(l, i, z);
      DueMonotone(l, n, if z < i then z else z + 1);
    }
    DeltaClock.DueNowIs(Remove(l, i), z);
  }

  lemma DueThere(l: seq<Entry>, i: nat, j: nat)
    requires i < |l| && j < |l| - 1 && Total(l) < S32_LIMIT
    ensures j < |Remove(l, i)| && Due(Remove(l, i), j) == Due(l, if j < i then j else j + 1)
  {
    DeltaClock.RemoveIds(l, i);
    if j < i { RemovePrefix(l, i, j); } else { RemoveSuffix(l, i, j + 1); }
  }

  lemma FrontWithout(q: seq<int>, r: seq<int>, i: nat, n: nat, n': nat)
    requires i < |q| && n <= |q| && Distinct(q) && r == RemoveAt(q, i) && n' == if i < n then n - 1 else n
    ensures n' <= |r| && Members(r[..n']) == Members(q[..n]) - {q[i]}
  {
    if i < n { PartWithout(q, i, n); } else { PartBefore(q, i, n); }
  }

  lemma RemovedIds(l: seq<Entry>, i: nat)
    requires i < |l|
    ensures Ids(Remove(l, i)) == RemoveAt(Ids(l), i)
  {
    DeltaClock.RemoveIds(l, i);
    IdsOfRemoved(l, Remove(l, i), i);
  }

  lemma PartWithout(q: seq<int>, i: nat, n: nat)
    requires i < n <= |q| && Distinct(q)
    ensures Members(RemoveAt(q, i)[..n - 1]) == Members(q[..n]) - {q[i]}
  {
    assert RemoveAt(q, i)[..n - 1] == RemoveAt(q[..n], i);
    RemoveDistinct(q[..n], i);
  }

  lemma PartBefore(q: seq<int>, i: nat, n: nat)
    requires n <= i < |q| && Distinct(q)
    ensures Members(RemoveAt(q, i)[..n]) == Members(q[..n]) - {q[i]}
  {
    assert RemoveAt(q, i)[..n] == q[..n];
  }

  /** A task that is suspended is WAITING on no list, and the others go on. */
  lemma SuspendedFacts(k: K, id: int)
    requires Inv(k) && Enabled(k, Suspend(id)) && Suspendable(k, id)
    ensures var d := Do(k, Suspend(id));
            && Down(d, id) && d.st[id] == WAITING && Runnable(d) == Runnable(k) - {id} + Disposed(k, 1)
  {
    var k1 := Suspended(k, id);
    SuspendInv(k, id);
    SuspendedDown(k, id);
    BracketDown(k1, id);
    BracketRunnable(k1);
  }

  lemma SuspendedDown(k: K, id: int)
    requires Inv(k) && Suspendable(k, id) && SuspendHarmless(k, id)
    ensures var d := Suspended(k, id);
            Down(d, id) && d.st[id] == WAITING && Runnable(d) == Runnable(k) - {id} && d.delay == k.delay
  {
    if id in k.ready && id != k.running { RemoveDistinct(k.ready, IndexOf(k.ready, id)); }
  }

  /** A task that is awakened can run, and the others go on. */
  lemma AwokenFacts(k: K, id: int)
    requires Inv(k) && Awakable(k, id)
    ensures Runnable(Do(k, Awake(id))) == Runnable(k) + {id} + Disposed(k, k.lock + 1)
  {
    MadeReady(k, id);
  }
}
