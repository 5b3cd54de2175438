/** Sleeping tasks over whole runs of the kernel: when a task that asked for a delay is released. */
module TaskDelays {
  import opened DeltaList
  import opened Links
  import DeltaClock
  import opened TaskModel

  /** Task id, if it still sleeps, has its entry's due time at tick `due`; if it does not, that tick has come.
      A head that is due is only left on the list while its disposal is deferred. */
  ghost predicate Sleep(l: seq<Entry>, pending: bool, now: int, id: int, due: int) {
    && Total(l) < S32_LIMIT
    && (l != [] && l[0].delta == 0 ==> pending)
    && (forall i :: 0 <= i < |l| && l[i].id == id ==> now + Due(l, i) == due)
    && (id !in Ids(l) ==> now >= due)
  }

  ghost predicate Sleeps(k: K, id: int, due: int) {
    forall l :: l == k.delay ==> Sleep(l, k.timeReq, k.tick, id, due)
  }

  // ----- what the list operations do to it -----

  lemma {:induction false} ReleaseDrops(k: K)
    requires Sized(k)
    ensures Release(k).delay == k.delay[DueNow(k.delay, 0)..]
    decreases |k.delay|
  {
    if k.delay != [] && k.delay[0].delta == 0 {
      var r := ReleaseStep(k);
      ReleaseDrops(r);
      DueNowTail(k.delay);
    }
  }

  lemma ReleaseStep(k: K) returns (r: K)
    requires Sized(k) && k.delay != [] && k.delay[0].delta == 0
    ensures Sized(r) && r.delay == k.delay[1..] && Release(k) == Release(r)
  {
    r := RdyInsert(k.(delay := k.delay[1..]), Ids(k.delay)[0]);
  }

  lemma DueNowTail(l: seq<Entry>)
    requires l != [] && l[0].delta == 0
    ensures l[1..][DueNow(l[1..], 0)..] == l[DueNow(l, 0)..]
  {
    DeltaClock.RemoveHeadZeros(l);
  }

  lemma IdAt(l: seq<Entry>, id: int)
    ensures id in Ids(l) <==> exists i :: 0 <= i < |l| && l[i].id == id
  {
    if i :| 0 <= i < |l| && l[i].id == id { assert Ids(l)[i] == id; }
  }

  lemma DropIds(l: seq<Entry>, id: int)
    ensures id in Ids(l[DueNow(l, 0)..]) ==> id in Ids(l)
    ensures id in Ids(l) && id !in Ids(l[DueNow(l, 0)..]) ==>
            exists i :: 0 <= i < |l| && l[i].id == id && Due(l, i) == 0
  {
    var n := DueNow(l, 0);
    var m := l[n..];
    assert forall j :: 0 <= j < |m| ==> Ids(m)[j] == Ids(l)[j + n];
    forall i | n <= i < |l|
      ensures Ids(l)[i] in Ids(m)
    {
      assert Ids(m)[i - n] == Ids(l)[i];
    }
    if id in Ids(l) && id !in Ids(m) { ZeroPrefix(l, n, IndexOf(Ids(l), id)); }
  }

  /** A disposal takes the tasks whose due tick has come off the list, and no other. */
  lemma DropSleep(l: seq<Entry>, now: int, id: int, due: int)
    requires Sleep(l, true, now, id, due)
    ensures Sleep(l[DueNow(l, 0)..], false, now, id, due)
  {
    DropDues(l);
    DropTotal(l);
    DropIds(l, id);
  }

  lemma DropDues(l: seq<Entry>)
    ensures var n := DueNow(l, 0); forall i :: 0 <= i < |l[n..]| ==>
            l[n..][i] == l[i + n] && Due(l[n..], i) == Due(l, i + n)
  {
    var n := DueNow(l, 0);
    forall i | 0 <= i < |l[n..]|
      ensures l[n..][i] == l[i + n] && Due(l[n..], i) == Due(l, i + n)
    {
      DropDueAt(l, n, i);
    }
  }

  lemma DropDueAt(l: seq<Entry>, n: nat, i: nat)
    requires n == DueNow(l, 0) && i + n < |l|
    ensures Due(l[n..], i) == Due(l, i + n)
  {
    DropDue(l, i + n);
  }

  lemma DropTotal(l: seq<Entry>)
    requires Total(l) < S32_LIMIT
    ensures Total(l[DueNow(l, 0)..]) < S32_LIMIT
  {
    if DueNow(l, 0) < |l| { DropDue(l, |l| - 1); }
  }

  lemma InsertSleep(l: seq<Entry>, pending: bool, now: int, id: int, due: int, other: int, ticks: U32)
    requires Sleep(l, pending, now, id, due) && other != id && 0 < ticks < S32_LIMIT
    ensures Sleep(Insert(l, other, ticks), pending, now, id, due)
  {
    var m, k := Insert(l, other, ticks), Place(l, ticks, 0);
    SmallWaits(l, other, ticks);
    InsertIsStable(l, other, ticks);
    DeltaClock.InsertIds(l, m, other, ticks);
    InsertHead(l, other, ticks);
    forall i | 0 <= i < |m| && m[i].id == id
      ensures now + Due(m, i) == due
    {
      if i > k { assert m[i - 1 + 1].id == l[i - 1].id && Due(m, i - 1 + 1) == Due(l, i - 1); }
    }
    IdAt(l, id);
    IdAt(m, id);
    if id in Ids(l) {
      var i :| 0 <= i < |l| && l[i].id == id;
      assert m[if i < k then i else i + 1].id == id;
    }
  }

  lemma InsertHead(l: seq<Entry>, other: int, ticks: U32)
    requires StablyInserted(l, Insert(l, other, ticks), other, ticks) && ticks > 0
    ensures var m := Insert(l, other, ticks); m[0].delta == 0 ==> l != [] && l[0].delta == 0
  {
    var m := Insert(l, other, ticks);
    DeltaClock.InsertZeros(l, m, other, ticks);
  }

  /** m is l without entry k, every other entry being due when it was. */
  ghost predicate Without(l: seq<Entry>, m: seq<Entry>, k: nat) {
    && k < |l| && |m| == |l| - 1
    && forall i {:trigger m[i]} :: 0 <= i < |m| ==>
         var j := if i < k then i else i + 1; m[i].id == l[j].id && Due(m, i) == Due(l, j)
  }

  lemma RemoveWithout(l: seq<Entry>, k: nat)
    requires k < |l| && Total(l) < S32_LIMIT
    ensures Without(l, Remove(l, k), k) && Total(Remove(l, k)) < S32_LIMIT
  {
    var m := Remove(l, k);
    RemoveKeepsDue(l, k);
    forall i | k <= i < |m|
      ensures m[i].id == l[i + 1].id && Due(m, i) == Due(l, i + 1)
    {
      assert m[i + 1 - 1].id == l[i + 1].id && Due(m, i + 1 - 1) == Due(l, i + 1);
    }
  }

  lemma WithoutIds(l: seq<Entry>, m: seq<Entry>, k: nat, id: int)
    requires Without(l, m, k) && l[k].id != id
    ensures id in Ids(m) <==> id in Ids(l)
  {
    WithoutList(l, m, k);
    OtherEntries(Ids(l), k, id);
  }

  lemma WithoutList(l: seq<Entry>, m: seq<Entry>, k: nat)
    requires Without(l, m, k)
    ensures Ids(m) == RemoveAt(Ids(l), k)
  {
    assert forall i :: 0 <= i < |m| ==> Ids(m)[i] == m[i].id;
  }

  lemma OtherEntries(q: seq<int>, k: nat, id: int)
    requires k < |q| && q[k] != id
    ensures id in RemoveAt(q, k) <==> id in q
  {
    assert q == q[..k] + [q[k]] + q[k + 1..];
  }

  lemma RemoveSleep(l: seq<Entry>, pending: bool, now: int, id: int, due: int, k: nat)
    requires Sleep(l, pending, now, id, due) && k < |l| && l[k].id != id
    ensures Sleep(Remove(l, k), pending, now, id, due)
  {
    var m := Remove(l, k);
    if l[0].delta != 0 && m != [] { DeltaClock.RemoveHeadDue(l, k); }
    RemoveWithout(l, k);
    WithoutIds(l, m, k, id);
  }

  /** A tick is lost for every sleeping task when the head was already due. */
  function Lost(l: seq<Entry>): int { if l != [] && l[0].delta == 0 then 1 else 0 }

  lemma TickSleep(l: seq<Entry>, pending: bool, now: int, id: int, due: int)
    requires Sleep(l, pending, now, id, due)
    ensures Sleep(Tick(l), true, now + 1, id, due + Lost(l))
    ensures Lost(Tick(l)) == 0 ==> Sleep(Tick(l), pending, now + 1, id, due + Lost(l))
  {
    var m := Tick(l);
    forall i | 0 <= i < |l|
      ensures Due(m, i) == Due(l, i) - (if l[0].delta == 0 then 0 else 1) && m[i].id == l[i].id
    {
      TickDue(l, i);
    }
    assert Ids(m) == Ids(l);
  }

  // ----- what the kernel's steps do to it -----

  /** A schedule leaves the delay list and the time alone. */
  lemma ScheduleKeeps(k: K, lock: int)
    requires Sized(k)
    ensures var r := Resched(k, lock); r.delay == k.delay && r.timeReq == k.timeReq && r.tick == k.tick
  {
  }

  lemma ReleaseSleeps(k: K, id: int, due: int)
    requires Sized(k) && Sleep(k.delay, true, k.tick, id, due)
    ensures Sleep(Release(k).delay, false, k.tick, id, due)
  {
    ReleaseDrops(k);
    DropSleep(k.delay, k.tick, id, due);
  }

  lemma RespondSleeps(k: K, id: int, due: int) returns (r: K)
    requires Sized(k) && Sleeps(k, id, due)
    ensures r == Respond(k) && Sleeps(r, id, due)
  {
    r := Respond(k);
    assert Sleep(k.delay, k.timeReq, k.tick, id, due);
    if k.timeReq { ReleaseSleeps(k, id, due); }
  }

  lemma UnlockSleeps(k: K, id: int, due: int)
    requires Sized(k) && Sleeps(k, id, due)
    ensures Sleeps(Unlock(k), id, due)
  {
    if k.lock == 1 {
      var k1 := RespondSleeps(k, id, due);
      ScheduleKeeps(k1, 1);
    }
  }

  lemma BracketSleeps(k: K, id: int, due: int)
    requires Sized(k) && Sleeps(k, id, due)
    ensures Sleeps(Bracket(k), id, due)
  {
    UnlockSleeps(k.(lock := k.lock + 1), id, due);
  }

  lemma DlyRemoveSleeps(k: K, other: int, id: int, due: int)
    requires Sleeps(k, id, due) && other != id
    ensures Sleeps(DlyRemove(k, other), id, due)
  {
    var i := IndexOf(Ids(k.delay), other);
    if i < |k.delay| {
      assert Sleep(k.delay, k.timeReq, k.tick, id, due);
      RemoveSleep(k.delay, k.timeReq, k.tick, id, due, i);
    }
  }

  lemma DelSleeps(k: K, other: int, id: int, due: int)
    requires Sized(k) && 0 <= other < |k.st| && Sleeps(k, id, due) && other != id
    ensures Sleeps(Deleted(k, other), id, due)
  {
    if k.st[other] == WAITING { DlyRemoveSleeps(k, other, id, due); }
  }

  lemma DelOpSleeps(k: K, x: int, id: int, due: int)
    requires Sized(k) && Enabled(k, Del(x)) && Sleeps(k, id, due) && x != id
    ensures Sleeps(Do(k, Del(x)), id, due)
  {
    if Deletable(k, x) {
      DelSleeps(k, x, id, due);
      BracketSleeps(Deleted(k, x), id, due);
    }
  }

  lemma DelayedSleeps(k: K, ticks: U32, id: int, due: int)
    requires Inv(k) && Enabled(k, Delay(ticks)) && Sleeps(k, id, due) && k.running != id
    ensures Sleeps(Delayed(k, ticks), id, due)
  {
    if !(k.nesting > 0 || ticks == 0 || k.lock != 0) {
      assert Sleep(k.delay, k.timeReq, k.tick, id, due);
      InsertSleep(k.delay, k.timeReq, k.tick, id, due, k.running, ticks);
      DlyInsertSized(k, k.running, ticks);
      BracketSleeps(DlyInsert(k, k.running, ticks), id, due);
    }
  }

  /** Once the list is counted down, Sleep holds of it, but for a disposal that the tick may ask for. */
  ghost predicate CountsDown(k: K, id: int, due: int) {
    forall m :: m == Tick(k.delay) ==>
      Sleep(m, true, k.tick, id, due) && (Lost(m) == 0 ==> Sleep(m, k.timeReq, k.tick, id, due))
  }

  lemma CountSleeps(k: K, id: int, due: int) returns (r: K)
    requires Sized(k) && CountsDown(k, id, due)
    ensures r == Count(k) && Sleeps(r, id, due)
  {
    r := Count(k);
    assert Lost(Tick(k.delay)) == 0 ==> Sleep(Tick(k.delay), k.timeReq, k.tick, id, due);
    assert Sleep(Tick(k.delay), true, k.tick, id, due);
    if Lost(Tick(k.delay)) == 1 && k.lock <= 1 {
      assert Ids(Tick(k.delay)) == Ids(k.delay);
      ReleaseSleeps(k.(delay := Tick(k.delay)), id, due);
    }
  }

  lemma TickBegins(k: K, id: int, due: int) returns (r: K)
    requires Sized(k) && Sleeps(k, id, due)
    ensures r == k.(lock := k.lock + 1, tick := k.tick + 1) && Sized(r)
    ensures CountsDown(r, id, due + Lost(k.delay))
  {
    r := k.(lock := k.lock + 1, tick := k.tick + 1);
    assert Sleep(k.delay, k.timeReq, k.tick, id, due);
    TickSleep(k.delay, k.timeReq, k.tick, id, due);
  }

  lemma CountedSleeps(k: K, id: int, due: int) returns (r: K)
    requires Sized(k) && Sleeps(k, id, due)
    ensures r == Counted(k) && Sleeps(r, id, due + Lost(k.delay))
  {
    var k0 := TickBegins(k, id, due);
    r := CountSleeps(k0, id, due + Lost(k.delay));
  }

  lemma Rescheduling(k: K, id: int, due: int) returns (r: K)
    requires Sized(k) && Sleeps(k, id, due)
    ensures r == k.(req := true) && Sized(r) && Sleeps(r, id, due)
  {
    r := k.(req := true);
  }

  lemma TickedSleeps(k: K, id: int, due: int) returns (r: K)
    requires Sized(k) && Sleeps(k, id, due)
    ensures r == Ticked(k) && Sleeps(r, id, due + Lost(k.delay))
  {
    var k1 := CountedSleeps(k, id, due);
    var k2 := Rescheduling(k1, id, due + Lost(k.delay));
    r := Unlock(k2);
    UnlockSleeps(k2, id, due + Lost(k.delay));
  }

  lemma AssignSleeps(k: K, id: int, due: int)
    requires Sized(k) && Sleeps(k, id, due)
    ensures Sleeps(Assigned(k), id, due)
  {
    BracketSleeps(if k.free == [] then k else k.(free := k.free[1..]), id, due);
  }

  lemma SuspendSleeps(k: K, x: int, id: int, due: int)
    requires Sized(k) && Enabled(k, Suspend(x)) && Sleeps(k, id, due)
    ensures Sleeps(Do(k, Suspend(x)), id, due)
  {
    if Suspendable(k, x) { BracketSleeps(Suspended(k, x), id, due); }
  }

  lemma AwakeSleeps(k: K, x: int, id: int, due: int)
    requires Sized(k) && Sleeps(k, id, due)
    ensures Sleeps(Do(k, Awake(x)), id, due)
  {
    if Awakable(k, x) { BracketSleeps(RdyInsert(k, x), id, due); }
  }

  lemma InitSleeps(k: K, x: int, p: int, slice: int, waiting: bool, id: int, due: int)
    requires Sized(k) && 0 <= x < |k.st| && Sleeps(k, id, due)
    ensures Sleeps(Inited(k, x, p, slice, waiting), id, due)
  {
    var k1 := k.(prio := k.prio[x := p], slice := k.slice[x := slice]);
    if !waiting { BracketSleeps(RdyInsert(k1, x), id, due); }
  }

  lemma StartSleeps(k: K, id: int, due: int)
    requires Sized(k) && |k.st| > 0 && Sleeps(k, id, due)
    ensures Sleeps(Started(k), id, due)
  {
    UnlockSleeps(RdyRemove(k.(running := 0, next := 0, st := k.st[0 := RUNNING]), 0), id, due);
  }

  /** The step neither deletes task id nor is a delay that id itself asks for. */
  predicate Undisturbed(k: K, op: Op, id: int) { (op.Del? ==> op.id != id) && (op.Delay? ==> k.running != id) }

  function LostIn(k: K, op: Op): int { if op.SysTick? then Lost(k.delay) else 0 }

  lemma TaskOpSleeps(k: K, op: Op, id: int, due: int)
    requires Inv(k) && Enabled(k, op) && Sleeps(k, id, due) && Undisturbed(k, op, id)
    requires !op.Delay? && !op.SysTick? && !op.ExitISR? && !op.UnlockOp? && !op.StartOS?
    ensures Sleeps(Do(k, op), id, due)
  {
    match op {
      case Assign => AssignSleeps(k, id, due);
      case Init(x, p, slice, waiting) => InitSleeps(k, x, p, slice, waiting, id, due);
      case Del(x) => DelOpSleeps(k, x, id, due);
      case Suspend(x) => SuspendSleeps(k, x, id, due);
      case Awake(x) => AwakeSleeps(k, x, id, due);
      case _ =>
    }
  }

  lemma StepSleeps(k: K, op: Op, id: int, due: int)
    requires Inv(k) && Enabled(k, op) && Sleeps(k, id, due) && Undisturbed(k, op, id)
    ensures Sleeps(Do(k, op), id, due + LostIn(k, op))
  {
    if op.SysTick? {
      var r := TickedSleeps(k, id, due);
    } else if op.ExitISR? || op.UnlockOp? || op.StartOS? || op.Delay? {
      KernelOpSleeps(k, op, id, due);
    } else {
      TaskOpSleeps(k, op, id, due);
    }
  }

  lemma ExitSleeps(k: K, id: int, due: int)
    requires Sized(k) && Sleeps(k, id, due)
    ensures Sleeps(Exited(k), id, due)
  {
    ScheduleKeeps(k.(nesting := k.nesting - 1), k.lock + 1);
  }

  lemma KernelOpSleeps(k: K, op: Op, id: int, due: int)
    requires Inv(k) && Enabled(k, op) && Sleeps(k, id, due) && Undisturbed(k, op, id)
    requires op.Delay? || op.ExitISR? || op.UnlockOp? || op.StartOS?
    ensures Sleeps(Do(k, op), id, due)
  {
    match op {
      case Delay(ticks) => DelayedSleeps(k, ticks, id, due);
      case ExitISR => ExitSleeps(k, id, due);
      case UnlockOp => UnlockSleeps(k, id, due);
      case StartOS => StartSleeps(k, id, due);
    }
  }

  // ----- whole runs -----

  ghost predicate AllUndisturbed(k: K, ops: seq<Op>, id: int)
    requires CanRun(k, ops)
    decreases |ops|
  {
    ops == [] || (Undisturbed(k, ops[0], id) && AllUndisturbed(Do(k, ops[0]), ops[1..], id))
  }

  /** The ticks of the run that came while a disposal was deferred. */
  ghost function LostTicks(k: K, ops: seq<Op>): (n: int)
    requires CanRun(k, ops)
    ensures n >= 0
    decreases |ops|
  {
    if ops == [] then 0 else LostIn(k, ops[0]) + LostTicks(Do(k, ops[0]), ops[1..])
  }

  /** A run is its first step, to r, and the rest. */
  lemma FirstStep(k: K, ops: seq<Op>, r: K)
    requires ops != [] && CanRun(k, ops) && r == Do(k, ops[0])
    ensures CanRun(r, ops[1..]) && Run(k, ops) == Run(r, ops[1..])
    ensures LostTicks(k, ops) == LostIn(k, ops[0]) + LostTicks(r, ops[1..])
  {
  }

  lemma StepTo(k: K, op: Op, id: int, due: int) returns (r: K)
    requires Inv(k) && Enabled(k, op) && Sleeps(k, id, due) && Undisturbed(k, op, id)
    ensures r == Do(k, op) && Inv(r) && Sleeps(r, id, due + LostIn(k, op))
  {
    r := Do(k, op);
    StepSleeps(k, op, id, due);
    StepInv(k, op);
  }

  lemma RunStep(k: K, ops: seq<Op>, id: int, due: int) returns (r: K, target: int)
    requires Inv(k) && ops != [] && CanRun(k, ops) && Sleeps(k, id, due) && AllUndisturbed(k, ops, id)
    ensures Inv(r) && CanRun(r, ops[1..]) && Sleeps(r, id, target) && AllUndisturbed(r, ops[1..], id)
    ensures Run(k, ops) == Run(r, ops[1..]) && due + LostTicks(k, ops) == target + LostTicks(r, ops[1..])
  {
    r := StepTo(k, ops[0], id, due);
    target := due + LostIn(k, ops[0]);
    FirstStep(k, ops, r);
  }

  lemma {:induction false} RunSleeps(k: K, ops: seq<Op>, id: int, due: int) returns (r: K, target: int)
    requires Inv(k) && CanRun(k, ops) && Sleeps(k, id, due) && AllUndisturbed(k, ops, id)
    ensures r == Run(k, ops) && target == due + LostTicks(k, ops) && Sleeps(r, id, target)
    decreases |ops|
  {
    if ops == [] {
      r, target := k, due;
    } else {
      var k1, due1 := RunStep(k, ops, id, due);
      r, target := RunSleeps(k1, ops[1..], id, due1);
    }
  }

  // ----- when a delay ends -----

  /** A head that is due is only left on the list while its disposal is deferred. */
  ghost predicate Attended(k: K) { k.delay != [] && k.delay[0].delta == 0 ==> k.timeReq }

  lemma NobodySleeps(k: K)
    requires Inv(k)
    ensures Attended(k) <==> Sleeps(k, NULL, k.tick)
  {
    assert Attended(k) ==> Sleep(k.delay, k.timeReq, k.tick, NULL, k.tick);
    assert Sleeps(k, NULL, k.tick) ==> Sleep(k.delay, k.timeReq, k.tick, NULL, k.tick);
  }

  lemma StepAttended(k: K, op: Op)
    requires Inv(k) && Enabled(k, op) && Attended(k)
    ensures Attended(Do(k, op))
  {
    if Undisturbed(k, op, NULL) {
      var r := AttendedStep(k, op);
    } else {
      NobodyDisturbed(k, op);
    }
  }

  lemma AttendedStep(k: K, op: Op) returns (r: K)
    requires Inv(k) && Enabled(k, op) && Attended(k) && Undisturbed(k, op, NULL)
    ensures r == Do(k, op) && Attended(r)
  {
    NobodySleeps(k);
    r := StepTo(k, op, NULL, k.tick);
    StillAttended(r, k.tick + LostIn(k, op));
  }

  lemma NobodyDisturbed(k: K, op: Op)
    requires Enabled(k, op) && !Undisturbed(k, op, NULL)
    ensures Do(k, op) == k
  {
    assert op.Del? && op.id == NULL;
  }

  lemma StillAttended(r: K, due: int)
    requires Sleeps(r, NULL, due)
    ensures Attended(r)
  {
    assert Sleep(r.delay, r.timeReq, r.tick, NULL, due);
  }

  lemma {:induction false} RunAttended(k: K, ops: seq<Op>)
    requires Inv(k) && CanRun(k, ops) && Attended(k)
    ensures Attended(Run(k, ops))
    decreases |ops|
  {
    if ops != [] {
      StepAttended(k, ops[0]);
      StepInv(k, ops[0]);
      RunAttended(Do(k, ops[0]), ops[1..]);
    }
  }

  /** The running task falls asleep for so many ticks. */
  lemma DelaySleeps(k: K, ticks: U32) returns (r: K)
    requires Inv(k) && Attended(k) && Enabled(k, Delay(ticks)) && ticks > 0 && k.lock == 0 && k.nesting == 0
    ensures r == Do(k, Delay(ticks)) && Inv(r) && Sleeps(r, k.running, k.tick + ticks)
  {
    var k1 := Falls(k, ticks);
    BracketSleeps(k1, k.running, k.tick + ticks);
    r := StepOnly(k, Delay(ticks));
  }

  lemma StepOnly(k: K, op: Op) returns (r: K)
    requires Inv(k) && Enabled(k, op)
    ensures r == Do(k, op) && Inv(r)
  {
    r := Do(k, op);
    StepInv(k, op);
  }

  lemma Falls(k: K, ticks: U32) returns (r: K)
    requires Inv(k) && Attended(k) && Calling(k) && 0 < ticks < S32_LIMIT
    ensures r == DlyInsert(k, k.running, ticks) && Sized(r) && Sleeps(r, k.running, k.tick + ticks)
  {
    assert k.running !in Ids(k.delay);
    DlyInsertSized(k, k.running, ticks);
    r := DlyInsert(k, k.running, ticks);
    FallsAsleep(k.delay, k.timeReq, k.tick, k.running, ticks);
  }

  lemma FallsAsleep(l: seq<Entry>, pending: bool, now: int, id: int, ticks: U32)
    requires Total(l) < S32_LIMIT && (l != [] && l[0].delta == 0 ==> pending) && id !in Ids(l) && 0 < ticks < S32_LIMIT
    ensures Sleep(Insert(l, id, ticks), pending, now, id, now + ticks)
  {
    var m := Insert(l, id, ticks);
    SmallWaits(l, id, ticks);
    InsertIsStable(l, id, ticks);
    InsertHead(l, id, ticks);
    var k := PlacedAlone(l, m, id, ticks);
    assert Ids(m)[k] == id;
  }

  lemma PlacedAlone(l: seq<Entry>, m: seq<Entry>, id: int, ticks: U32) returns (k: nat)
    requires Total(l) < S32_LIMIT && id !in Ids(l) && 0 < ticks < S32_LIMIT && m == Insert(l, id, ticks)
    ensures k < |m| && m[k].id == id && Due(m, k) == ticks
    ensures forall i {:trigger m[i]} :: 0 <= i < |m| && m[i].id == id ==> i == k
  {
    k := Place(l, ticks, 0);
    SmallWaits(l, id, ticks);
    InsertIsStable(l, id, ticks);
    DeltaClock.InsertIds(l, m, id, ticks);
    assert forall i :: 0 <= i < |l| ==> Ids(l)[i] != id;
  }

  /** A task that asks for a delay of n ticks at tick t is off the delay list at tick t + n, counting the ticks
      lost while a disposal was deferred, and never before, whatever else the kernel does in between. */
  lemma ReleasedOnTime(k: K, ticks: U32, ops: seq<Op>)
    requires Inv(k) && Attended(k) && Enabled(k, Delay(ticks)) && ticks > 0 && k.lock == 0 && k.nesting == 0
    requires CanRun(Do(k, Delay(ticks)), ops) && AllUndisturbed(Do(k, Delay(ticks)), ops, k.running)
    ensures var target := k.tick + ticks + LostTicks(Do(k, Delay(ticks)), ops);
            var r := Run(Do(k, Delay(ticks)), ops);
            && (k.running in Ids(r.delay) ==> r.tick <= target)
            && (k.running !in Ids(r.delay) ==> r.tick >= target)
            && (!r.timeReq ==> (k.running in Ids(r.delay) <==> r.tick < target))
  {
    var k1 := DelaySleeps(k, ticks);
    var due := k.tick + ticks;
    var r, target := RunSleeps(k1, ops, k.running, due);
    SleepsMean(r, k.running, target);
  }

  lemma SleepsMean(r: K, id: int, target: int)
    requires Sleeps(r, id, target)
    ensures id in Ids(r.delay) ==> r.tick <= target
    ensures id !in Ids(r.delay) ==> r.tick >= target
    ensures !r.timeReq ==> (id in Ids(r.delay) <==> r.tick < target)
  {
    assert Sleep(r.delay, r.timeReq, r.tick, id, target);
    SleepMeans(r.delay, r.timeReq, r.tick, id, target);
  }

  lemma SleepMeans(l: seq<Entry>, pending: bool, now: int, id: int, due: int)
    requires Sleep(l, pending, now, id, due)
    ensures id in Ids(l) ==> now <= due
    ensures id !in Ids(l) ==> now >= due
    ensures !pending ==> (id in Ids(l) <==> now < due)
  {
    if id in Ids(l) {
      var i := IndexOf(Ids(l), id);
      assert l[i].id == id;
      DueMonotone(l, 0, i);
    }
  }

  /** Every tick of the run comes while the scheduler is unlocked. */
  ghost predicate NoneDeferred(k: K, ops: seq<Op>)
    requires CanRun(k, ops)
    decreases |ops|
  {
    ops == [] || ((ops[0].SysTick? ==> k.lock == 0) && NoneDeferred(Do(k, ops[0]), ops[1..]))
  }

  lemma UnlockRequest(k: K)
    requires Sized(k) && !k.timeReq
    ensures !Unlock(k).timeReq
  {
    if k.lock == 1 { ScheduleKeeps(k, 1); }
  }

  lemma BracketRequest(k: K)
    requires Sized(k) && !k.timeReq
    ensures !Bracket(k).timeReq
  {
    UnlockRequest(k.(lock := k.lock + 1));
  }

  lemma TickRequest(k: K) returns (r: K)
    requires Sized(k) && !k.timeReq && k.lock == 0
    ensures r == Ticked(k) && !r.timeReq
  {
    var k1 := Counted(k);
    assert !k1.timeReq;
    r := Unlock(k1.(req := true));
    UnlockRequest(k1.(req := true));
  }

  lemma DelayRequest(k: K, ticks: U32) returns (r: K)
    requires Sized(k) && k.running >= 0 && !k.timeReq
    ensures r == Delayed(k, ticks) && !r.timeReq
  {
    DlyInsertSized(k, k.running, ticks);
    r := Delayed(k, ticks);
    if k.nesting <= 0 && k.lock == 0 { BracketRequest(DlyInsert(k, k.running, ticks)); }
  }

  lemma TaskRequest(k: K, op: Op)
    requires Inv(k) && Enabled(k, op) && !k.timeReq && (op.Init? || op.Del? || op.Suspend? || op.Awake?)
    ensures !Do(k, op).timeReq
  {
    match op {
      case Init(x, p, slice, waiting) =>
        var k1 := k.(prio := k.prio[x := p], slice := k.slice[x := slice]);
        if !waiting { BracketRequest(RdyInsert(k1, x)); }
      case Del(x) => if Deletable(k, x) { BracketRequest(Deleted(k, x)); }
      case Suspend(x) => if Suspendable(k, x) { BracketRequest(Suspended(k, x)); }
      case Awake(x) => if Awakable(k, x) { BracketRequest(RdyInsert(k, x)); }
    }
  }

  lemma StepRequest(k: K, op: Op)
    requires Inv(k) && Enabled(k, op) && !k.timeReq && (op.SysTick? ==> k.lock == 0)
    ensures !Do(k, op).timeReq
  {
    match op {
      case Assign => BracketRequest(if k.free == [] then k else k.(free := k.free[1..]));
      case Delay(ticks) => var r := DelayRequest(k, ticks);
      case SysTick => var r := TickRequest(k);
      case ExitISR => ScheduleKeeps(k.(nesting := k.nesting - 1), k.lock + 1);
      case UnlockOp => UnlockRequest(k);
      case StartOS =>
        UnlockRequest(RdyRemove(k.(running := 0, next := 0, st := k.st[0 := RUNNING]), 0));
      case Init(_, _, _, _) => TaskRequest(k, op);
      case Del(_) => TaskRequest(k, op);
      case Suspend(_) => TaskRequest(k, op);
      case Awake(_) => TaskRequest(k, op);
      case _ =>
    }
  }

  /** A tick under the lock when the first sleeper is one tick away leaves it due. */
  lemma DueUnderLock(k: K) returns (r: K)
    requires Inv(k) && k.lock >= 1 && k.delay != [] && k.delay[0].delta == 1
    ensures r == Do(k, SysTick) && Inv(r) && r.delay != [] && r.delay[0].delta == 0 && r.timeReq && r.lock == k.lock
  {
    r := Do(k, SysTick);
    StepInv(k, SysTick);
  }

  /** Ticks do get lost: of two ticks that come under the lock when the first sleeper is one tick away, the second. */
  lemma SecondIsLost(k: K)
    requires Inv(k) && k.lock >= 1 && k.delay != [] && k.delay[0].delta == 1
    ensures CanRun(k, [SysTick, SysTick]) && LostTicks(k, [SysTick, SysTick]) == 1
  {
    var r := DueUnderLock(k);
    var d := Do(r, SysTick);
    var ops := [SysTick, SysTick];
    assert ops[1..] == [SysTick] && [SysTick][1..] == [];
    assert CanRun(d, []) && LostTicks(d, []) == 0;
    assert CanRun(r, [SysTick]) && LostTicks(r, [SysTick]) == 1;
  }

  /** When no tick comes under the lock, none is lost: the delay ends exactly at t + n. */
  lemma {:induction false} NothingLost(k: K, ops: seq<Op>)
    requires Inv(k) && Attended(k) && CanRun(k, ops) && !k.timeReq && NoneDeferred(k, ops)
    ensures LostTicks(k, ops) == 0 && !Run(k, ops).timeReq
    decreases |ops|
  {
    if ops != [] {
      StepAttended(k, ops[0]);
      StepInv(k, ops[0]);
      StepRequest(k, ops[0]);
      NothingLost(Do(k, ops[0]), ops[1..]);
    }
  }
}
