/** A run after which suspending, or deleting, a task that was never created does harm. */
module TaskHarm {
  import opened Links
  import opened TaskModel

  /** A table of three tasks, of which the idle task 0 has priority 64 and task 1 priority p once it is created. */
  function Three(p: int, st: seq<TaskState>, free: seq<int>, ready: seq<int>, running: int, next: int, lock: int,
                 req: bool): K {
    K([64, p, 0], [10, if p == 0 then 0 else 10, 0], st, free, ready, [], running, next, lock, 0, req, false, 0, 0)
  }

  lemma UnlockRefused(k: K)
    requires Sized(k) && k.lock >= 1 && !k.timeReq && (k.lock > 1 || k.running < 0 || k.ready == [])
    ensures Unlock(k) == k.(lock := k.lock - 1)
  {
  }

  lemma FirstReady(k: K, id: int)
    requires Sized(k) && k.ready == [] && 0 <= id < |k.prio|
    ensures RdyInsert(k, id) == k.(st := k.st[id := READY], ready := [id], req := true, check := Robin(k, id))
  {
    assert InsertAt(k.ready, 0, id) == [id];
  }

  lemma LastReady(k: K, id: int)
    requires k.ready == [id]
    ensures RdyRemove(k, id) == k.(ready := [])
  {
    assert IndexOf([id], id) == 0 && RemoveAt([id], 0) == [];
  }

  lemma Take(k: K, k1: K)
    requires Sized(k) && k.free != [] && !k.timeReq && k.lock <= 1 && 0 <= k.lock && k.ready == []
    requires k1 == k.(free := k.free[1..])
    ensures Enabled(k, Assign) && Do(k, Assign) == k1
  {
    UnlockRefused(k1.(lock := k1.lock + 1));
  }

  lemma BootThree() returns (b: K)
    ensures b == Boot(3) && Sized(b)
    ensures b == K([0, 0, 0], [0, 0, 0], [DORMANT, DORMANT, READY], [0, 1, 2], [], [], NULL, NULL,
                   1, 0, false, false, 0, 0)
  {
    b := Boot(3);
    assert b.prio == [0, 0, 0] && b.slice == [0, 0, 0] && b.st == [DORMANT, DORMANT, READY] && b.free == [0, 1, 2];
  }

  /** The creation of the idle task. */
  lemma CreateIdle() returns (b: K, k: K)
    ensures b == Boot(3)
    ensures k == Three(0, [READY, DORMANT, READY], [1, 2], [0], NULL, NULL, 1, true)
    ensures Enabled(b, Assign) && Enabled(Do(b, Assign), Init(0, 64, 10, false))
    ensures Do(Do(b, Assign), Init(0, 64, 10, false)) == k
  {
    b := BootThree();
    var k1 := b.(free := b.free[1..]);
    assert k1.free == [1, 2];
    Take(b, k1);
    var k2 := k1.(prio := k1.prio[0 := 64], slice := k1.slice[0 := 10]);
    FirstReady(k2, 0);
    k := RdyInsert(k2, 0);
    UnlockRefused(k.(lock := 2));
    assert k.prio == [64, 0, 0] && k.slice == [10, 0, 0] && k.st == [READY, DORMANT, READY];
  }

  lemma StartIdle(k: K, r: K)
    requires k == Three(0, [READY, DORMANT, READY], [1, 2], [0], NULL, NULL, 1, true)
    requires r == Three(0, [RUNNING, DORMANT, READY], [1, 2], [], 0, 0, 0, true)
    ensures Enabled(k, StartOS) && Do(k, StartOS) == r
  {
    var k1 := k.(running := 0, next := 0, st := k.st[0 := RUNNING]);
    LastReady(k1, 0);
    assert k1.st == [RUNNING, DORMANT, READY];
    UnlockRefused(k1.(ready := []));
  }

  /** The idle task is created and started. */
  lemma IdleStarted() returns (k: K)
    ensures k == Three(0, [RUNNING, DORMANT, READY], [1, 2], [], 0, 0, 0, true)
    ensures var ops := [Assign, Init(0, 64, 10, false), StartOS]; CanRun(Boot(3), ops) && Run(Boot(3), ops) == k
  {
    var b, k2 := CreateIdle();
    k := Three(0, [RUNNING, DORMANT, READY], [1, 2], [], 0, 0, 0, true);
    StartIdle(k2, k);
    ThreeSteps(b, Assign, Do(b, Assign), Init(0, 64, 10, false), k2, StartOS, k);
  }

  lemma ThreeSteps(k: K, a: Op, k1: K, b: Op, k2: K, c: Op, k3: K)
    requires Enabled(k, a) && Do(k, a) == k1 && Enabled(k1, b) && Do(k1, b) == k2 && Enabled(k2, c) && Do(k2, c) == k3
    ensures CanRun(k, [a, b, c]) && Run(k, [a, b, c]) == k3
  {
    assert [a, b, c][1..] == [b, c] && [b, c][1..] == [c] && [c][1..] == [];
    assert CanRun(k3, []) && CanRun(k2, [c]) && Run(k2, [c]) == k3;
    assert CanRun(k1, [b, c]) && Run(k1, [b, c]) == k3;
  }

  lemma SecondReady(k: K, a: int, id: int)
    requires Sized(k) && k.ready == [a] && 0 <= a < |k.prio| && 0 <= id < |k.prio| && k.prio[a] <= k.prio[id]
    ensures RdyInsert(k, id) == k.(st := k.st[id := READY], ready := [a, id], check := Robin(k, id))
  {
    assert RdyPos(k.prio, k.ready, k.prio[id]) == 1;
    assert InsertAt([a], 1, id) == [a, id];
  }

  lemma FrontLeaves(k: K, a: int, b: int)
    requires k.ready == [a, b]
    ensures RdyRemove(k, a) == k.(ready := [b])
  {
    assert IndexOf([a, b], a) == 0 && RemoveAt([a, b], 0) == [b];
  }

  lemma Preempted(r: K, k: K)
    requires r == Three(5, [RUNNING, READY, READY], [2], [1], 0, 0, 1, true)
    requires k == Three(5, [READY, RUNNING, READY], [2], [0], 0, 1, 1, false)
    ensures Preempt(r, 1) == k
  {
    var k1 := r.(req := false, next := 1);
    SecondReady(k1, 1, 0);
    var k2 := RdyInsert(k1, 0);
    FrontLeaves(k2, 1, 0);
    assert k.st == k2.st[1 := RUNNING];
  }

  lemma Scheduled(r: K, k: K)
    requires r == Three(5, [RUNNING, READY, READY], [2], [1], 0, 0, 1, true)
    requires k == Three(5, [READY, RUNNING, READY], [2], [0], 0, 1, 0, false)
    ensures Unlock(r) == k
  {
    var p := k.(lock := 1);
    Preempted(r, p);
    assert Slice(p) == p;
    assert Schedule(r, 1) == p;
  }

  lemma CreateFirst(k: K, r: K)
    requires k == Three(0, [RUNNING, DORMANT, READY], [2], [], 0, 0, 0, true)
    requires r == Three(5, [READY, RUNNING, READY], [2], [0], 0, 1, 0, false)
    ensures Enabled(k, Init(1, 5, 10, false)) && Do(k, Init(1, 5, 10, false)) == r
  {
    var k1 := k.(prio := k.prio[1 := 5], slice := k.slice[1 := 10]);
    assert k1.prio == [64, 5, 0] && k1.slice == [10, 10, 0];
    FirstReady(k1, 1);
    var k2 := RdyInsert(k1, 1).(lock := 1);
    assert k2.st == [RUNNING, READY, READY];
    Scheduled(k2, r);
  }

  /** Task 1 is created and is to take over from the idle task. */
  lemma FirstTask() returns (ops: seq<Op>, k: K)
    ensures CanRun(Boot(3), ops) && k == Run(Boot(3), ops) && Inv(k)
    ensures k == Three(5, [READY, RUNNING, READY], [2], [0], 0, 1, 0, false)
  {
    var k0 := IdleStarted();
    var k1 := k0.(free := k0.free[1..]);
    assert k1.free == [2];
    Take(k0, k1);
    k := Three(5, [READY, RUNNING, READY], [2], [0], 0, 1, 0, false);
    CreateFirst(k1, k);
    var a, b := [Assign, Init(0, 64, 10, false), StartOS], [Assign, Init(1, 5, 10, false)];
    assert b[1..] == [Init(1, 5, 10, false)] && b[1..][1..] == [];
    assert CanRun(k, []) && CanRun(k1, b[1..]) && Run(k1, b[1..]) == k;
    ops := a + b;
    RunJoin(Boot(3), a, b);
    BootInv(3);
    RunSafe(Boot(3), ops);
  }

  /** Before the switch takes place, suspending task 1, say from an interrupt, takes the idle task off the ready list:
      task 1 has no links and is not the current task. */
  lemma PendingHarms() returns (ops: seq<Op>, k: K)
    ensures CanRun(Boot(3), ops) && k == Run(Boot(3), ops) && Inv(k)
    ensures k.ready == [0] && k.running == 0 && k.next == 1 && k.st == [READY, RUNNING, READY]
    ensures Suspendable(k, 1) && Suspended(k, 1).ready == [] && !Inv(Suspended(k, 1))
  {
    ops, k := FirstTask();
    var r := Suspended(k, 1);
    assert r.st[0] == READY && 0 !in r.ready;
  }

  lemma ThenSwitch(b: K, before: seq<Op>, k1: K, k: K)
    requires CanRun(b, before) && Run(b, before) == k1 && Inv(k1) && k == k1.(running := k1.next)
    ensures CanRun(b, before + [Switch]) && Run(b, before + [Switch]) == k && Inv(k)
  {
    SwitchInv(k1);
    assert [Switch][1..] == [] && CanRun(k, []) && CanRun(k1, [Switch]) && Run(k1, [Switch]) == k;
    RunJoin(b, before, [Switch]);
  }

  lemma DeletedTwice(k: K)
    requires k == Three(5, [READY, RUNNING, READY], [2], [0], 1, 1, 0, false)
    ensures Sized(k) && Deleted(k, 2).ready == [] && Deleted(k, 2).free == [2, 2] && !Inv(Deleted(k, 2))
  {
    var r := Deleted(k, 2);
    assert r.free == [2, 2] && r.free[0] == r.free[1];
  }

  lemma SuspendedFree(k: K)
    requires k == Three(5, [READY, RUNNING, READY], [2], [0], 1, 1, 0, false)
    ensures Sized(k) && Suspended(k, 2).ready == [] && !Inv(Suspended(k, 2))
  {
    var r := Suspended(k, 2);
    assert r.st[2] == WAITING && 2 in r.free;
  }

  /** When task 1 runs and the idle task is ready, suspending task 2, which was never created, takes the idle task off
      the ready list; deleting it also puts it on the free list a second time. */
  lemma UncreatedHarms() returns (ops: seq<Op>, k: K)
    ensures CanRun(Boot(3), ops) && k == Run(Boot(3), ops) && Inv(k)
    ensures k.ready == [0] && k.free == [2] && k.running == 1 == k.next && k.st == [READY, RUNNING, READY]
    ensures Suspendable(k, 2) && Suspended(k, 2).ready == [] && !Inv(Suspended(k, 2))
    ensures Deletable(k, 2) && Deleted(k, 2).ready == [] && Deleted(k, 2).free == [2, 2] && !Inv(Deleted(k, 2))
  {
    var before, k1 := FirstTask();
    k := k1.(running := 1);
    ops := before + [Switch];
    ThenSwitch(Boot(3), before, k1, k);
    DeletedTwice(k);
    SuspendedFree(k);
  }
}
