/** What becomes of a task that slept: as long as nobody suspends, deletes or creates it, it is on the delay list, or it
    is ready, or it runs. */
module TaskWakes {
  import opened DeltaList
  import opened Links
  import DeltaClock
  import opened TaskModel
  import opened TaskDelays

  predicate Up(st: seq<TaskState>, ids: seq<int>, id: int) {
    0 <= id < |st| && (id in ids || st[id] == READY || st[id] == RUNNING)
  }

  ghost predicate Wakes(k: K, id: int) { forall st, ids :: st == k.st && ids == Ids(k.delay) ==> Up(st, ids, id) }

  lemma Woke(k: K, id: int)
    requires Wakes(k, id)
    ensures Up(k.st, Ids(k.delay), id)
  {
  }

  /** Only the states of tasks that become ready or run change, and the delay list does not. */
  ghost predicate OnlyUp(k: K, r: K) {
    && r.delay == k.delay && |r.st| == |k.st|
    && forall x :: 0 <= x < |k.st| ==> r.st[x] == k.st[x] || r.st[x] == READY || r.st[x] == RUNNING
  }

  lemma UpKept(k: K, r: K, id: int)
    requires Wakes(k, id) && OnlyUp(k, r)
    ensures Wakes(r, id)
  {
    Woke(k, id);
  }

  lemma InsertUp(k: K, x: int)
    requires Sized(k) && 0 <= x < |k.prio|
    ensures OnlyUp(k, RdyInsert(k, x))
  {
  }

  lemma ScheduleUp(k: K, lock: int)
    requires Sized(k)
    ensures OnlyUp(k, Resched(k, lock))
  {
    if k.req && k.running >= 0 && !Refused(k, lock) {
      var cur, rdy := k.running, k.ready[0];
      if k.st[cur] == RUNNING { PreemptUp(k, rdy); }
    }
  }

  lemma PreemptUp(k: K, rdy: int)
    requires Sized(k) && 0 <= rdy < |k.prio| && k.running >= 0
    ensures OnlyUp(k, Preempt(k, rdy))
  {
    InsertUp(k.(req := false, next := rdy), k.running);
  }

  lemma {:induction false} ReleaseUp(k: K, id: int)
    requires Sized(k) && Wakes(k, id)
    ensures Wakes(Release(k), id)
    decreases |k.delay|
  {
    if k.delay != [] && k.delay[0].delta == 0 {
      var k1 := HeadUp(k, id);
      ReleaseUp(k1, id);
    }
  }

  lemma HeadUp(k: K, id: int) returns (r: K)
    requires Sized(k) && Wakes(k, id) && k.delay != [] && k.delay[0].delta == 0
    ensures Sized(k.(delay := k.delay[1..])) && 0 <= Ids(k.delay)[0] < |k.prio|
    ensures r == RdyInsert(k.(delay := k.delay[1..]), Ids(k.delay)[0]) && Wakes(r, id) && |r.delay| < |k.delay|
    ensures Release(k) == Release(r)
  {
    var x := Ids(k.delay)[0];
    assert Ids(k.delay[1..]) == Ids(k.delay)[1..];
    r := RdyInsert(k.(delay := k.delay[1..]), x);
    Woke(k, id);
    if id in Ids(k.delay) && id != x {
      var i := IndexOf(Ids(k.delay), id);
      assert Ids(k.delay)[1..][i - 1] == id;
    }
  }

  lemma UnlockUp(k: K, id: int)
    requires Sized(k) && Wakes(k, id)
    ensures Wakes(Unlock(k), id)
  {
    if k.lock == 1 {
      if k.timeReq { ReleaseUp(k, id); }
      var r := Respond(k);
      Woke(r, id) by { assert Wakes(r, id); }
      ScheduleUp(r, 1);
      UpKept(r, Resched(r, 1), id);
    }
  }

  lemma BracketUp(k: K, id: int)
    requires Sized(k) && Wakes(k, id)
    ensures Wakes(Bracket(k), id)
  {
    UnlockUp(k.(lock := k.lock + 1), id);
  }

  /** Another task leaves the delay list. */
  lemma RemoveUp(k: K, other: int, id: int)
    requires Sized(k) && Wakes(k, id) && other != id
    ensures Wakes(DlyRemove(k, other), id)
  {
    var i := IndexOf(Ids(k.delay), other);
    Woke(k, id);
    if i < |k.delay| && id in Ids(k.delay) { OthersListed(k.delay, i, id); }
  }

  lemma OthersListed(l: seq<Entry>, i: nat, id: int)
    requires i < |l| && l[i].id != id && id in Ids(l)
    ensures id in Ids(Remove(l, i))
  {
    DeltaClock.RemoveIds(l, i);
    var j := IndexOf(Ids(l), id);
    assert Ids(Remove(l, i))[if j < i then j else j - 1] == id;
  }

  lemma DeletedUp(k: K, x: int, id: int)
    requires Sized(k) && 0 <= x < |k.st| && Wakes(k, id) && x != id
    ensures Wakes(Deleted(k, x), id)
  {
    DlyRemoveSized(k, x);
    Woke(k, id);
    if k.st[x] == WAITING {
      RemoveUp(k, x, id);
      Woke(DlyRemove(k, x), id);
    }
  }

  lemma SuspendedUp(k: K, x: int, id: int)
    requires Sized(k) && 0 <= x < |k.st| && Wakes(k, id) && x != id
    ensures Wakes(Suspended(k, x), id)
  {
    Woke(k, id);
  }

  /** Another task goes to sleep. */
  lemma DelayUp(k: K, x: int, ticks: U32, id: int)
    requires Inv(k) && 0 <= x < |k.st| && ticks < S32_LIMIT && Wakes(k, id) && x != id
    ensures Wakes(DlyInsert(k, x, ticks), id)
  {
    if ticks > 0 {
      var m, i := InsertDelayIds(k.delay, x, ticks);
      Woke(k, id);
      if id in Ids(k.delay) { StaysListed(Ids(k.delay), i, x, id); }
    }
  }

  lemma StaysListed(q: seq<int>, i: nat, x: int, id: int)
    requires i <= |q| && id in q
    ensures id in InsertAt(q, i, x)
  {
    var j := IndexOf(q, id);
    assert InsertAt(q, i, x)[if j < i then j else j + 1] == id;
  }

  lemma CountUp(k: K, id: int)
    requires Sized(k) && Wakes(k, id)
    ensures Wakes(Count(k), id)
  {
    if k.delay != [] {
      var k1 := k.(delay := Tick(k.delay));
      assert Ids(k1.delay) == Ids(k.delay);
      Woke(k, id);
      assert Wakes(k1, id);
      if k1.delay[0].delta == 0 { ReleaseUp(k1, id); }
    }
  }

  lemma TickUp(k: K, id: int)
    requires Sized(k) && Wakes(k, id)
    ensures Wakes(Ticked(k), id)
  {
    var k1 := k.(lock := k.lock + 1, tick := k.tick + 1);
    Woke(k, id);
    CountUp(k1, id);
    Woke(Counted(k), id);
    UnlockUp(Counted(k).(req := true), id);
  }

  // ----- steps and runs -----

  /** The step does not suspend, delete or create task id, and is no delay that id itself asks for. */
  predicate Unharmed(k: K, op: Op, id: int) {
    Undisturbed(k, op, id) && (op.Suspend? ==> op.id != id) && (op.Init? ==> op.id != id)
  }

  lemma InitUp(k: K, x: int, p: int, slice: int, waiting: bool, id: int)
    requires Sized(k) && 0 <= x < |k.st| && Wakes(k, id) && x != id
    ensures Wakes(Inited(k, x, p, slice, waiting), id)
  {
    var k1 := k.(prio := k.prio[x := p], slice := k.slice[x := slice]);
    Woke(k, id);
    if !waiting {
      InsertUp(k1, x);
      UpKept(k1, RdyInsert(k1, x), id);
      BracketUp(RdyInsert(k1, x), id);
    }
  }

  lemma AssignUp(k: K, id: int)
    requires Sized(k) && Wakes(k, id)
    ensures Wakes(Assigned(k), id)
  {
    var k1 := if k.free == [] then k else k.(free := k.free[1..]);
    Woke(k, id);
    BracketUp(k1, id);
  }

  lemma StartUp(k: K, id: int)
    requires Sized(k) && |k.st| > 0 && Wakes(k, id)
    ensures Wakes(Started(k), id)
  {
    UpKept(k, Idling(k), id);
    UnlockUp(Idling(k), id);
  }

  lemma TaskOpUp(k: K, op: Op, id: int)
    requires Inv(k) && Enabled(k, op) && Unharmed(k, op, id) && Wakes(k, id)
    requires op.Del? || op.Suspend? || op.Awake? || op.Delay? || op.Init?
    ensures Wakes(Do(k, op), id)
  {
    match op {
      case Init(x, p, slice, waiting) => InitUp(k, x, p, slice, waiting, id);
      case Del(x) => if Deletable(k, x) { DeletedUp(k, x, id); BracketUp(Deleted(k, x), id); }
      case Suspend(x) => if Suspendable(k, x) { SuspendedUp(k, x, id); BracketUp(Suspended(k, x), id); }
      case Awake(x) =>
        if Awakable(k, x) { InsertUp(k, x); UpKept(k, RdyInsert(k, x), id); BracketUp(RdyInsert(k, x), id); }
      case Delay(ticks) =>
        DlyInsertSized(k, k.running, ticks);
        DelayUp(k, k.running, ticks, id);
        BracketUp(DlyInsert(k, k.running, ticks), id);
    }
  }

  lemma StepWakes(k: K, op: Op, id: int)
    requires Inv(k) && Enabled(k, op) && Unharmed(k, op, id) && Wakes(k, id)
    ensures Wakes(Do(k, op), id)
  {
    match op {
      case Assign => AssignUp(k, id);
      case SysTick => TickUp(k, id);
      case ExitISR => ExitUp(k, id);
      case UnlockOp => UnlockUp(k, id);
      case StartOS => StartUp(k, id);
      case Switch => UpKept(k, Do(k, op), id);
      case EnterISR => UpKept(k, Do(k, op), id);
      case Lock => UpKept(k, Do(k, op), id);
      case _ => TaskOpUp(k, op, id);
    }
  }

  lemma ExitUp(k: K, id: int)
    requires Sized(k) && Wakes(k, id)
    ensures Wakes(Exited(k), id)
  {
    ScheduleUp(k.(nesting := k.nesting - 1), k.lock + 1);
    UpKept(k, Exited(k), id);
  }

  ghost predicate AllUnharmed(k: K, ops: seq<Op>, id: int)
    requires CanRun(k, ops)
    decreases |ops|
  {
    ops == [] || (Unharmed(k, ops[0], id) && AllUnharmed(Do(k, ops[0]), ops[1..], id))
  }

  lemma {:induction false} RunWakes(k: K, ops: seq<Op>, id: int)
    requires Inv(k) && CanRun(k, ops) && AllUnharmed(k, ops, id) && Wakes(k, id)
    ensures Wakes(Run(k, ops), id)
    decreases |ops|
  {
    if ops != [] {
      StepInv(k, ops[0]);
      StepWakes(k, ops[0], id);
      RunWakes(Do(k, ops[0]), ops[1..], id);
    }
  }

  lemma {:induction false} UnharmedUndisturbed(k: K, ops: seq<Op>, id: int)
    requires CanRun(k, ops) && AllUnharmed(k, ops, id)
    ensures AllUndisturbed(k, ops, id)
    decreases |ops|
  {
    if ops != [] { UnharmedUndisturbed(Do(k, ops[0]), ops[1..], id); }
  }

  /** A task that asks for a delay of n ticks at tick t sleeps until tick t + n, counting the ticks lost while a
      disposal was deferred, and not longer: from then on, once no disposal is deferred, it is ready or it runs. */
  lemma ReleasedIsReady(k: K, ticks: U32, ops: seq<Op>) returns (r: K, target: int)
    requires Inv(k) && Attended(k) && Enabled(k, Delay(ticks)) && ticks > 0 && k.lock == 0 && k.nesting == 0
    requires CanRun(Do(k, Delay(ticks)), ops) && AllUnharmed(Do(k, Delay(ticks)), ops, k.running)
    ensures r == Run(Do(k, Delay(ticks)), ops) && target == k.tick + ticks + LostTicks(Do(k, Delay(ticks)), ops)
    ensures 0 <= k.running < |r.st|
    ensures k.running in Ids(r.delay) ==> r.tick <= target && r.st[k.running] == WAITING
    ensures k.running !in Ids(r.delay) ==> r.tick >= target && (r.st[k.running] == READY || r.st[k.running] == RUNNING)
    ensures !r.timeReq ==> (r.tick < target <==> k.running in Ids(r.delay))
  {
    var k1 := Do(k, Delay(ticks));
    DelayedWakes(k, ticks);
    StepInv(k, Delay(ticks));
    UnharmedUndisturbed(k1, ops, k.running);
    ReleasedOnTime(k, ticks, ops);
    RunWakes(k1, ops, k.running);
    RunSafe(k1, ops);
    r := Run(k1, ops);
    target := k.tick + ticks + LostTicks(k1, ops);
    Woke(r, k.running);
  }

  lemma DelayedWakes(k: K, ticks: U32)
    requires Inv(k) && Enabled(k, Delay(ticks)) && ticks > 0 && k.lock == 0 && k.nesting == 0
    ensures Wakes(Do(k, Delay(ticks)), k.running)
  {
    var m, i := InsertDelayIds(k.delay, k.running, ticks);
    assert Ids(m)[i] == k.running;
    DlyInsertSized(k, k.running, ticks);
    BracketUp(DlyInsert(k, k.running, ticks), k.running);
  }
}
