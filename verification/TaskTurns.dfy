/** Who runs after a scheduling point: the results of Schedule and of the operations that end in it, in terms of the
    tasks, their states and the ready list alone. */
module TaskTurns {
  import opened DeltaList
  import opened Links
  import DeltaClock
  import opened TaskModel

  /** The task that runs next is RUNNING, no ready task has a higher priority, and no schedule is asked for. */
  ghost predicate Settled(r: K)
    requires Sized(r)
  {
    0 <= r.next && !r.req && r.st[r.next] == RUNNING && forall x :: x in r.ready ==> r.prio[r.next] <= r.prio[x]
  }

  /** No switch is pending and no interrupt is being handled. */
  predicate AtRest(k: K) { 0 <= k.running == k.next && k.nesting == 0 }

  // ----- Schedule -----

  /** With a ready task, no switch pending, no lock but the caller's and outside interrupts, a schedule takes place:
      a task that has stopped gives way to the head of the ready list, and so does one that the head outranks or that
      has used up its time slice beside an equal; else it goes on.  The deadline moves for a task that takes over and
      leaves an equal waiting.  In every other case nothing changes. */
  lemma ScheduleTakesPlace(k: K, lock: int)
    requires Inv(k) && k.running >= 0
    ensures var r := Schedule(k, lock);
            if k.running == k.next && k.ready != [] && lock <= 1 && k.nesting == 0
            then && Inv(r) && Settled(r) && r.running == k.running && r.lock == k.lock && r.nesting == 0
                 && r.next == NextTask(k)
                 && r.check == if TurnEnds(k) && SharesPrio(r) then k.tick + k.slice[r.next] else k.check
            else r == k
  {
    if k.running == k.next && k.ready != [] && lock <= 1 && k.nesting == 0 {
      ScheduleFacts(k, lock);
      NextIs(k, lock);
    }
  }

  predicate SharesPrio(r: K)
    requires Sized(r) && r.next >= 0
  {
    r.ready != [] && r.prio[r.next] == r.prio[r.ready[0]]
  }

  /** The current task has stopped, or the head of the ready list outranks it, or is its equal at the end of its
      time slice. */
  predicate TurnEnds(k: K)
    requires Sized(k) && 0 <= k.running < |k.st| && k.ready != []
  {
    var cur, head := k.running, k.ready[0];
    || k.st[cur] != RUNNING || k.prio[head] < k.prio[cur]
    || (k.prio[head] == k.prio[cur] && k.check == k.tick)
  }

  function NextTask(k: K): int
    requires Sized(k) && 0 <= k.running < |k.st| && k.ready != []
  {
    if TurnEnds(k) then k.ready[0] else k.running
  }

  lemma SlicedAt(r: K)
    requires Sized(r) && r.next >= 0
    ensures var d := Slice(r);
            && d.next == r.next && d.lock == r.lock && d.nesting == r.nesting
            && SharesPrio(d) == SharesPrio(r)
            && d.check == if SharesPrio(r) then r.tick + r.slice[r.next] else r.check
  {
  }

  lemma StoppedNext(k: K) returns (r: K)
    requires Inv(k) && k.running == k.next >= 0 && k.ready != [] && k.st[k.running] != RUNNING
    ensures r == Slice(TakeOver(k, k.ready[0])) && Sized(r) && r.next == k.ready[0] && r.lock == k.lock
    ensures r.nesting == k.nesting && r.check == if SharesPrio(r) then k.tick + k.slice[r.next] else k.check
  {
    var r1 := TakeHead(k);
    SlicedAt(r1);
    r := Slice(r1);
  }

  lemma PreemptedNext(k: K) returns (r: K)
    requires Inv(k) && k.running == k.next >= 0 && k.ready != [] && k.st[k.running] == RUNNING
    requires k.prio[k.ready[0]] <= k.prio[k.running]
    ensures r == Slice(Preempt(k, k.ready[0])) && Sized(r) && r.next == k.ready[0] && r.lock == k.lock
    ensures r.nesting == k.nesting && r.check == if SharesPrio(r) then k.tick + k.slice[r.next] else k.check
  {
    var r1 := SwapHead(k);
    SlicedAt(r1);
    r := Slice(r1);
  }

  lemma NextIs(k: K, lock: int)
    requires Inv(k) && k.running == k.next >= 0 && k.ready != [] && lock <= 1 && k.nesting == 0
    ensures var r := Schedule(k, lock);
            && r.next == NextTask(k) && r.lock == k.lock && r.nesting == 0
            && r.check == if TurnEnds(k) && SharesPrio(r) then k.tick + k.slice[r.next] else k.check
  {
    if k.st[k.running] != RUNNING {
      var r := StoppedNext(k);
    } else if TurnEnds(k) {
      var r := PreemptedNext(k);
    }
  }

  lemma ReschedSettles(k: K, lock: int)
    requires Inv(k) && AtRest(k) && k.ready != [] && lock <= 1
    ensures var r := Resched(k, lock);
            Inv(r) && Settled(r) && r.running == k.running && r.lock == k.lock && r.nesting == 0
  {
    if k.req { ScheduleTakesPlace(k, lock); } else { HeadIsLeast(k); }
  }

  lemma ReschedIdle(k: K, lock: int)
    requires k.ready == []
    ensures Sized(k) ==> Resched(k, lock) == k
  {
  }

  // ----- the disposal of sleepers -----

  /** Somebody is ready, or is due. */
  predicate SomeoneComes(k: K) { k.ready != [] || (k.delay != [] && k.delay[0].delta == 0) }

  lemma {:induction false} ReleaseReady(k: K)
    requires Sized(k)
    ensures SomeoneComes(k) ==> Release(k).ready != []
    decreases |k.delay|
  {
    if k.delay != [] && k.delay[0].delta == 0 {
      ReleaseReady(RdyInsert(k.(delay := k.delay[1..]), Ids(k.delay)[0]));
    }
  }

  lemma RespondReady(k: K)
    requires Sized(k)
    ensures k.ready != [] || (k.timeReq && SomeoneComes(k)) ==> Respond(k).ready != []
  {
    ReleaseReady(k);
  }

  lemma ReleasedHead(k: K) returns (d: K)
    requires Inv(k) && k.delay != [] && k.delay[0].delta == 0
    ensures Inv(d) && d.delay == k.delay[1..] && d.prio == k.prio && Release(k) == Release(d)
    ensures d.ready == InsertAt(k.ready, RdyPos(k.prio, k.ready, k.prio[Ids(k.delay)[0]]), Ids(k.delay)[0])
  {
    var c := DropHead(k);
    InsertSafe(c, Ids(k.delay)[0]);
    d := RdyInsert(c, Ids(k.delay)[0]);
  }

  lemma DueIds(l: seq<Entry>)
    requires l != [] && l[0].delta == 0
    ensures DueNow(l[1..], 0) == DueNow(l, 0) - 1
    ensures Ids(l)[..DueNow(l, 0)] == [Ids(l)[0]] + Ids(l[1..])[..DueNow(l, 0) - 1]
  {
    DeltaClock.RemoveHeadZeros(l);
    assert Ids(l)[1..] == Ids(l[1..]);
    FrontPart(Ids(l), DueNow(l, 0));
  }

  lemma FrontPart(q: seq<int>, n: nat)
    requires 0 < n <= |q|
    ensures q[..n] == [q[0]] + q[1..][..n - 1]
  {
  }

  lemma InTablePart(q: seq<int>, n: int, k: nat)
    requires InTable(q, n) && k <= |q|
    ensures InTable(q[..k], n)
  {
  }

  /** Tasks that are due together become ready in the order in which they were put to sleep for that tick: of each
      priority, they come in list order behind those that were ready already. */
  lemma {:induction false} ReleaseInOrder(k: K, p: int)
    requires Inv(k)
    ensures var due := Ids(k.delay)[..DueNow(k.delay, 0)];
            && InTable(due, |k.prio|) && Release(k).prio == k.prio
            && OfPrio(k.prio, Release(k).ready, p) == OfPrio(k.prio, k.ready, p) + OfPrio(k.prio, due, p)
    decreases |k.delay|
  {
    InTablePart(Ids(k.delay), |k.prio|, DueNow(k.delay, 0));
    if DueNow(k.delay, 0) == 0 {
      assert Ids(k.delay)[..0] == [];
    } else {
      var d := FirstInOrder(k, p);
      ReleaseInOrder(d, p);
    }
  }

  /** The first released task comes behind those that are ready and before the others that are released. */
  lemma FirstInOrder(k: K, p: int) returns (d: K)
    requires Inv(k) && k.delay != [] && k.delay[0].delta == 0
    ensures Inv(d) && d.prio == k.prio && Release(k) == Release(d) && |d.delay| < |k.delay|
    ensures var due, rest := Ids(k.delay)[..DueNow(k.delay, 0)], Ids(d.delay)[..DueNow(d.delay, 0)];
            && InTable(due, |k.prio|) && InTable(rest, |k.prio|)
            && OfPrio(k.prio, d.ready, p) + OfPrio(k.prio, rest, p)
               == OfPrio(k.prio, k.ready, p) + OfPrio(k.prio, due, p)
  {
    d := ReleasedHead(k);
    DueIds(k.delay);
    var x := Ids(k.delay)[0];
    InTablePart(Ids(d.delay), |k.prio|, DueNow(d.delay, 0));
    InsertIsFifo(k.prio, k.ready, x, p);
    OneMore(k.prio, k.ready, d.ready, x, Ids(d.delay)[..DueNow(d.delay, 0)], p);
  }

  lemma OneMore(prio: seq<int>, q: seq<int>, r: seq<int>, x: int, rest: seq<int>, p: int)
    requires InTable(q, |prio|) && InTable(r, |prio|) && InTable(rest, |prio|) && 0 <= x < |prio|
    requires OfPrio(prio, r, p) == OfPrio(prio, q, p) + if prio[x] == p then [x] else []
    ensures InTable([x] + rest, |prio|)
    ensures OfPrio(prio, r, p) + OfPrio(prio, rest, p) == OfPrio(prio, q, p) + OfPrio(prio, [x] + rest, p)
  {
    assert ([x] + rest)[1..] == rest;
  }

  // ----- unlocking -----

  /** An unlock that ends the lock does the deferred disposal and schedules after it. */
  lemma UnlockSettles(k: K)
    requires Inv(k) && AtRest(k) && k.lock == 1
    ensures var r := Unlock(k);
            && Inv(r) && r.lock == 0 && !r.timeReq && r.nesting == 0 && r.running == k.running
            && (k.timeReq && r.delay != [] ==> r.delay[0].delta != 0)
            && (k.ready != [] || (k.timeReq && SomeoneComes(k)) || r.ready != [] ==> Settled(r))
  {
    var k1 := RespondInv(k);
    RespondReady(k);
    if k.timeReq { ReleaseInv(k); }
    ReschedKeeps(k1, 1);
    if k1.ready != [] { ReschedSettles(k1, 1); } else { ReschedIdle(k1, 1); }
    UnlockInv(k);
  }

  /** What no schedule changes. */
  predicate Kin(k: K, r: K) {
    && r.delay == k.delay && r.timeReq == k.timeReq && r.tick == k.tick && r.running == k.running
    && r.lock == k.lock && r.nesting == k.nesting && r.prio == k.prio && r.slice == k.slice && r.free == k.free
  }

  lemma PreemptKin(k: K, rdy: int)
    requires Sized(k) && 0 <= rdy < |k.prio| && k.running >= 0
    ensures Kin(k, Preempt(k, rdy))
  {
    var k1 := RdyInsert(k.(req := false, next := rdy), k.running);
    assert Kin(k, k1);
  }

  lemma TakeOverKin(k: K, rdy: int)
    requires Sized(k) && 0 <= rdy < |k.prio|
    ensures Kin(k, TakeOver(k, rdy))
  {
  }

  lemma SliceKin(k: K)
    requires Sized(k) && k.next >= 0
    ensures Kin(k, Slice(k))
  {
  }

  lemma ScheduleKin(k: K, lock: int)
    requires Sized(k) && k.running >= 0
    ensures Kin(k, Schedule(k, lock))
  {
    if !Refused(k, lock) {
      var rdy := k.ready[0];
      if k.st[k.running] != RUNNING {
        TakeOverKin(k, rdy);
        SliceKin(TakeOver(k, rdy));
      } else {
        PreemptKin(k, rdy);
        SliceKin(Preempt(k, rdy));
      }
    }
  }

  lemma ReschedKeeps(k: K, lock: int)
    requires Sized(k)
    ensures Kin(k, Resched(k, lock))
  {
    if k.req && k.running >= 0 { ScheduleKin(k, lock); }
  }

  lemma BracketSettles(k: K)
    requires Inv(k) && AtRest(k) && k.lock == 0
    ensures var r := Bracket(k);
            && Inv(r) && r.lock == 0 && !r.timeReq && r.nesting == 0 && r.running == k.running
            && (k.ready != [] || (k.timeReq && SomeoneComes(k)) || r.ready != [] ==> Settled(r))
  {
    LockInv(k);
    UnlockSettles(k.(lock := k.lock + 1));
  }

  /** A current task that has stopped gives way to the head of the ready list. */
  lemma StoppedGivesWay(k: K)
    requires Inv(k) && AtRest(k) && k.lock == 0 && k.req && !k.timeReq && k.st[k.running] != RUNNING && k.ready != []
    ensures var r := Bracket(k); r.next == k.ready[0] && r.running == k.running
  {
    var k1 := k.(lock := 1);
    LockInv(k);
    ScheduleTakesPlace(k1, 1);
  }

  // ----- scheduling points -----

  /** The step ends in a schedule that is not refused because of a lock, an interrupt or a pending switch. */
  predicate SchedulingPoint(k: K, op: Op)
    requires Sized(k)
  {
    && 0 <= k.running == k.next
    && match op
       case ExitISR => k.nesting == 1 && k.lock == 0
       case UnlockOp => k.nesting == 0 && k.lock == 1
       case SysTick => k.nesting == 0 && k.lock == 0
       case Delay(ticks) => k.nesting == 0 && k.lock == 0 && ticks > 0
       case Del(id) => k.nesting == 0 && k.lock == 0 && Deletable(k, id)
       case Suspend(id) => k.nesting == 0 && Suspendable(k, id)
       case Awake(id) => k.nesting == 0 && k.lock == 0 && Awakable(k, id)
       case Init(_, _, _, waiting) => k.nesting == 0 && k.lock == 0 && !waiting
       case _ => false
  }

  /** Nobody is left waiting who should run. */
  ghost predicate Served(k: K, d: K)
    requires Sized(d)
  {
    d.lock == 0 && d.nesting == 0 && d.running == k.running && (d.ready != [] ==> Settled(d))
  }

  /** The outermost exit from an interrupt schedules. */
  lemma ExitSettles(k: K)
    requires Inv(k) && SchedulingPoint(k, ExitISR)
    ensures Served(k, Do(k, ExitISR)) && (k.ready != [] ==> Settled(Do(k, ExitISR)))
  {
    var k1 := NestingInv(k, 0);
    ReschedKeeps(k1, 1);
    if k.ready != [] { ReschedSettles(k1, 1); } else { ReschedIdle(k1, 1); }
  }

  lemma CountedKeeps(k: K)
    requires Inv(k)
    ensures var r := Counted(k);
            && r.running == k.running && r.next == k.next && r.nesting == k.nesting && r.lock == k.lock + 1
            && (k.ready != [] ==> r.ready != [])
  {
    var k1 := k.(lock := k.lock + 1, tick := k.tick + 1);
    if k1.delay != [] {
      assert Ids(Tick(k1.delay)) == Ids(k1.delay);
      ReleaseReady(k1.(delay := Tick(k1.delay)));
    }
  }

  /** A tick that is not deferred schedules. */
  lemma TickSettles(k: K)
    requires Inv(k) && SchedulingPoint(k, SysTick)
    ensures Served(k, Do(k, SysTick)) && (k.ready != [] ==> Settled(Do(k, SysTick)))
  {
    var k1 := CountedInv(k);
    var k2 := Requested(k1);
    CountedKeeps(k);
    UnlockSettles(k2);
  }

  /** A delay puts the current task to sleep, and the head of the ready list runs next. */
  lemma DelaySettles(k: K, ticks: U32)
    requires Inv(k) && Enabled(k, Delay(ticks)) && SchedulingPoint(k, Delay(ticks))
    ensures var d := Do(k, Delay(ticks));
            && Served(k, d) && (k.ready != [] ==> Settled(d))
            && (k.ready != [] && !k.timeReq ==> d.next == k.ready[0])
  {
    DlyInsertSized(k, k.running, ticks);
    DelayInv(k, k.running, ticks);
    var k1 := DlyInsert(k, k.running, ticks);
    BracketSettles(k1);
    if k.ready != [] && !k.timeReq { StoppedGivesWay(k1); }
  }

  lemma TaskOpSettles(k: K, op: Op)
    requires Inv(k) && Enabled(k, op) && SchedulingPoint(k, op) && (op.Del? || op.Suspend? || op.Awake? || op.Init?)
    ensures Served(k, Do(k, op))
  {
    match op {
      case Del(id) => DeleteInv(k, id); BracketSettles(Deleted(k, id));
      case Suspend(id) => SuspendInv(k, id); BracketSettles(Suspended(k, id));
      case Awake(id) => InsertSafe(k, id); BracketSettles(RdyInsert(k, id));
      case Init(id, p, slice, _) =>
        var k1 := PrioInv(k, id, p, slice);
        InsertSafe(k1, id);
        BracketSettles(RdyInsert(k1, id));
    }
  }

  /** The start of the system schedules: the idle task, or who outranks it. */
  lemma StartSettles(k: K)
    requires Inv(k) && Enabled(k, StartOS) && k.lock == 1 && k.nesting == 0
    ensures var d := Do(k, StartOS);
            && Inv(d) && d.running == 0 && d.lock == 0 && (d.ready != [] ==> Settled(d))
            && (|k.ready| > 1 ==> Settled(d))
  {
    var r := StartUnder(k);
    UnlockSettles(r);
  }

  // ----- where no schedule takes place -----

  /** Under the lock, and while an interrupt is being handled, the next task stays the same, whatever is called: all
      steps but the unlock that ends the lock, the exit that ends the interrupts and the start of the system. */
  predicate HeldBack(k: K, op: Op) {
    && !op.StartOS?
    && ((k.lock >= 1 && (op.UnlockOp? ==> k.lock > 1)) || (k.nesting >= 1 && (op.ExitISR? ==> k.nesting > 1)))
  }

  lemma UnlockHeld(k: K)
    requires Sized(k) && (k.lock != 1 || k.nesting >= 1)
    ensures Unlock(k).next == k.next && Unlock(k).running == k.running && Unlock(k).nesting == k.nesting
    ensures Unlock(k).lock == k.lock - 1
  {
    if k.lock == 1 { ReschedHeld(Respond(k), 1); }
  }

  lemma ReschedHeld(k: K, lock: int)
    requires Sized(k) && (lock > 1 || k.nesting >= 1)
    ensures Resched(k, lock) == k
  {
  }

  lemma HeldStep(k: K, op: Op)
    requires Inv(k) && Enabled(k, op) && HeldBack(k, op)
    ensures var d := Do(k, op);
            && d.next == k.next
            && d.lock == (if op.UnlockOp? then k.lock - 1 else if op.Lock? then k.lock + 1 else k.lock)
            && d.nesting == (if op.ExitISR? then k.nesting - 1 else if op.EnterISR? then k.nesting + 1 else k.nesting)
  {
    match op {
      case SysTick =>
        CountedKeeps(k);
        UnlockHeld(Counted(k).(req := true));
      case UnlockOp => UnlockHeld(k);
      case ExitISR => if k.nesting == 1 { ReschedHeld(k.(nesting := 0), k.lock + 1); }
      case EnterISR =>
      case Lock =>
      case Switch =>
      case StartOS =>
      case _ => HeldTaskOp(k, op);
    }
  }

  /** The next task, the lock and the nesting are the same. */
  predicate SameTurn(k: K, d: K) { d.next == k.next && d.lock == k.lock && d.nesting == k.nesting }

  lemma BracketHeld(k: K, k1: K)
    requires Sized(k1) && (k.lock >= 1 || k.nesting >= 1) && SameTurn(k, k1) && k.lock >= 0
    ensures SameTurn(k, Bracket(k1))
  {
    UnlockHeld(k1.(lock := k1.lock + 1));
  }

  lemma HeldTaskOp(k: K, op: Op)
    requires Inv(k) && Enabled(k, op) && (k.lock >= 1 || k.nesting >= 1)
    requires op.Assign? || op.Init? || op.Del? || op.Suspend? || op.Awake? || op.Delay?
    ensures SameTurn(k, Do(k, op))
  {
    match op {
      case Assign => BracketHeld(k, if k.free == [] then k else k.(free := k.free[1..]));
      case Del(id) => if Deletable(k, id) { HeldDelete(k, id); }
      case Suspend(id) => if Suspendable(k, id) { HeldSuspend(k, id); }
      case Awake(id) => if Awakable(k, id) { BracketHeld(k, RdyInsert(k, id)); }
      case Delay(ticks) =>
      case Init(id, p, slice, waiting) => HeldInit(k, id, p, slice, waiting);
    }
  }

  lemma HeldInit(k: K, id: int, p: int, slice: int, waiting: bool)
    requires Sized(k) && 0 <= id < |k.st| && (k.lock >= 1 || k.nesting >= 1) && k.lock >= 0
    ensures SameTurn(k, Inited(k, id, p, slice, waiting))
  {
    if !waiting { BracketHeld(k, RdyInsert(k.(prio := k.prio[id := p], slice := k.slice[id := slice]), id)); }
  }

  lemma HeldSuspend(k: K, id: int)
    requires Sized(k) && 0 <= id < |k.st| && (k.lock >= 1 || k.nesting >= 1) && k.lock >= 0
    ensures SameTurn(k, Bracket(Suspended(k, id)))
  {
    BracketHeld(k, Suspended(k, id));
  }

  lemma HeldDelete(k: K, id: int)
    requires Sized(k) && 0 <= id < |k.st| && (k.lock >= 1 || k.nesting >= 1) && k.lock >= 0
    ensures SameTurn(k, Bracket(Deleted(k, id)))
  {
    DlyRemoveSized(k, id);
    BracketHeld(k, Deleted(k, id));
  }

  ghost predicate AllHeldBack(k: K, ops: seq<Op>)
    requires CanRun(k, ops)
    decreases |ops|
  {
    ops == [] || (HeldBack(k, ops[0]) && AllHeldBack(Do(k, ops[0]), ops[1..]))
  }

  /** Over every run in which the lock or an interrupt lasts, no other task is chosen to run. */
  lemma {:induction false} RunHeldBack(k: K, ops: seq<Op>)
    requires Inv(k) && CanRun(k, ops) && AllHeldBack(k, ops)
    ensures Run(k, ops).next == k.next
    decreases |ops|
  {
    if ops != [] {
      StepInv(k, ops[0]);
      HeldStep(k, ops[0]);
      RunHeldBack(Do(k, ops[0]), ops[1..]);
    }
  }

  /** Over every run: after a scheduling point no more urgent ready task is left waiting, and the task that is to run
      is RUNNING.  Where a task was ready before an unlock, a tick, a delay or the exit from an interrupt, or is
      released by it, no schedule is left to be asked for either. */
  lemma RunSettles(k: K, ops: seq<Op>, op: Op)
    requires Inv(k) && CanRun(k, ops) && Enabled(Run(k, ops), op) && SchedulingPoint(Run(k, ops), op)
    ensures var r, d := Run(k, ops), Do(Run(k, ops), op);
            && Inv(d) && Served(r, d)
            && (r.ready != [] && (op.ExitISR? || op.UnlockOp? || op.SysTick? || op.Delay?) ==> Settled(d))
            && (op.UnlockOp? && r.timeReq && SomeoneComes(r) ==> Settled(d))
  {
    RunSafe(k, ops);
    StepSettles(Run(k, ops), op);
  }

  lemma StepSettles(r: K, op: Op)
    requires Inv(r) && Enabled(r, op) && SchedulingPoint(r, op)
    ensures var d := Do(r, op);
            && Inv(d) && Served(r, d)
            && (r.ready != [] && (op.ExitISR? || op.UnlockOp? || op.SysTick? || op.Delay?) ==> Settled(d))
            && (op.UnlockOp? && r.timeReq && SomeoneComes(r) ==> Settled(d))
  {
    StepInv(r, op);
    match op {
      case ExitISR => ExitSettles(r);
      case UnlockOp => UnlockSettles(r);
      case SysTick => TickSettles(r);
      case Delay(ticks) => DelaySettles(r, ticks);
      case _ => TaskOpSettles(r, op);
    }
  }
}
