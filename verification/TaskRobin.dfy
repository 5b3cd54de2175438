/** Round robin: when the turn of the running task begins to count, and when it ends. */
module TaskRobin {
  import opened DeltaList
  import opened Links
  import opened TaskModel
  import opened TaskTurns
  import TaskDelays

  /** A deadline that is past is renewed when a task becomes ready beside a running one of its own priority, by the
      slice of the running one; every other deadline is left alone. */
  lemma DeadlineStarts(k: K, id: int)
    requires Sized(k) && 0 <= id < |k.prio|
    ensures var r, cur := RdyInsert(k, id), k.running;
            && (cur >= 0 && id != cur && k.prio[id] == k.prio[cur] && k.check < k.tick ==>
                  r.check == k.tick + k.slice[cur])
            && (cur < 0 || id == cur || k.prio[id] != k.prio[cur] || k.check >= k.tick ==> r.check == k.check)
  {
  }

  /** Task cur runs, head is the first ready task and its equal, the turn of cur ends in n ticks, and until then no
      more urgent sleeper is due. */
  ghost predicate Turn(k: K, cur: int, head: int, n: nat) {
    && Inv(k) && AtRest(k) && k.lock == 0 && !k.timeReq && k.running == cur && k.st[cur] == RUNNING
    && k.ready != [] && k.ready[0] == head && k.prio[head] == k.prio[cur]
    && n >= 1 && k.check == k.tick + n
    && NoneUrgent(k, k.prio[cur], n)
  }

  /** No task is due now, and none that is due within n ticks outranks priority p. */
  ghost predicate NoneUrgent(k: K, p: int, n: int)
    requires Sized(k)
  {
    && (k.delay != [] ==> k.delay[0].delta != 0)
    && forall i :: 0 <= i < |k.delay| && Due(k.delay, i) <= n ==> p <= k.prio[Ids(k.delay)[i]]
  }

  // ----- one tick -----

  /** What a disposal leaves alone when nobody whom it releases outranks the running task. */
  ghost predicate HeadKept(k: K, r: K) {
    && r.ready != [] && k.ready != [] && r.ready[0] == k.ready[0] && r.check == k.check && r.prio == k.prio
    && r.running == k.running && r.next == k.next && r.lock == k.lock && r.nesting == k.nesting && r.tick == k.tick
    && r.timeReq == k.timeReq && r.slice == k.slice
    && (0 <= k.running < |k.st| == |r.st| ==> r.st[k.running] == k.st[k.running])
  }

  /** Nobody at the front of the delay list outranks the first ready task. */
  ghost predicate DueNotUrgent(k: K)
    requires Sized(k)
  {
    k.ready != [] && forall i :: 0 <= i < DueNow(k.delay, 0) ==> k.prio[k.ready[0]] <= k.prio[Ids(k.delay)[i]]
  }

  lemma {:induction false} ReleaseKeepsHead(k: K)
    requires Inv(k) && DueNotUrgent(k) && k.running >= 0 && k.st[k.running] == RUNNING && k.check >= k.tick
    ensures HeadKept(k, Release(k))
    decreases |k.delay|
  {
    if k.delay != [] && k.delay[0].delta == 0 {
      var d := HeadBehind(k);
      ReleaseKeepsHead(d);
    }
  }

  lemma HeadBehind(k: K) returns (d: K)
    requires Inv(k) && DueNotUrgent(k) && k.running >= 0 && k.st[k.running] == RUNNING && k.check >= k.tick
    requires k.delay != [] && k.delay[0].delta == 0
    ensures Inv(d) && HeadKept(k, d) && DueNotUrgent(d) && Release(d) == Release(k) && |d.delay| < |k.delay|
  {
    var x := Ids(k.delay)[0];
    assert x in Ids(k.delay);
    DueIds(k.delay);
    var c := DropHead(k);
    InsertSafe(c, x);
    d := RdyInsert(c, x);
    assert RdyPos(k.prio, k.ready, k.prio[x]) > 0;
    forall i | 0 <= i < DueNow(d.delay, 0)
      ensures k.prio[k.ready[0]] <= k.prio[Ids(d.delay)[i]]
    {
      assert Ids(d.delay)[i] == Ids(k.delay)[i + 1];
    }
  }

  /** The tick up to its schedule. */
  lemma TurnCounted(k: K, cur: int, head: int, n: nat) returns (r: K)
    requires Turn(k, cur, head, n)
    ensures r == Counted(k) && Inv(r) && r.ready != [] && r.ready[0] == head && r.check == k.check && r.prio == k.prio
    ensures r.running == cur == r.next && r.lock == 1 && r.nesting == 0 && r.tick == k.tick + 1 && !r.timeReq
    ensures r.st[cur] == RUNNING && NoneUrgent(r, k.prio[cur], n - 1)
  {
    r := CountedInv(k);
    var k1 := TickStarted(k);
    if k.delay != [] {
      var k2 := CountedHead(k1);
      TickedDue(k, k2, n);
      ReleaseKeepsHead(k2);
      ReleasedDue(k, k2, n);
    }
  }

  /** Whoever is due after the tick was due within one tick. */
  lemma TickedDue(k: K, k2: K, n: nat)
    requires Sized(k) && Sized(k2) && k.delay != [] && k2.delay == Tick(k.delay)
    requires k2.prio == k.prio && k2.ready == k.ready
    requires n >= 1 && k.ready != [] && k.delay[0].delta != 0 && NoneUrgent(k, k.prio[k.ready[0]], n)
    ensures DueNotUrgent(k2)
  {
    forall i | 0 <= i < DueNow(k2.delay, 0)
      ensures k2.prio[k2.ready[0]] <= k2.prio[Ids(k2.delay)[i]]
    {
      ZeroPrefix(k2.delay, DueNow(k2.delay, 0), i);
      TickDue(k.delay, i);
    }
  }

  /** What is left after the disposal is one tick nearer. */
  lemma LaterByOne(l: seq<Entry>, m: seq<Entry>, i: nat)
    requires l != [] && l[0].delta != 0 && m == Tick(l)[DueNow(Tick(l), 0)..] && i < |m|
    ensures var z := DueNow(Tick(l), 0);
            i + z < |l| && Due(m, i) == Due(l, i + z) - 1 && Ids(m)[i] == Ids(l)[i + z]
  {
    var z := DueNow(Tick(l), 0);
    TaskDelays.DropDueAt(Tick(l), z, i);
    TickDue(l, i + z);
    assert m[i] == Tick(l)[i + z];
  }

  lemma ReleasedDue(k: K, k2: K, n: nat)
    requires Inv(k2) && Sized(k) && k.delay != [] && k2.delay == Tick(k.delay) && k2.prio == k.prio
    requires k.delay[0].delta != 0 && 0 <= k.running < |k.prio| && NoneUrgent(k, k.prio[k.running], n)
    ensures Release(k2).prio == k.prio && NoneUrgent(Release(k2), k.prio[k.running], n - 1)
  {
    ReleaseInv(k2);
    TaskDelays.ReleaseDrops(k2);
    StillNotUrgent(k, Release(k2), k.prio[k.running], n);
  }

  lemma StillNotUrgent(k: K, r: K, p: int, n: int)
    requires Sized(k) && Sized(r) && k.delay != [] && k.delay[0].delta != 0 && r.prio == k.prio
    requires r.delay == Tick(k.delay)[DueNow(Tick(k.delay), 0)..] && (r.delay != [] ==> r.delay[0].delta != 0)
    requires NoneUrgent(k, p, n)
    ensures NoneUrgent(r, p, n - 1)
  {
    forall i | 0 <= i < |r.delay| && Due(r.delay, i) <= n - 1
      ensures p <= r.prio[Ids(r.delay)[i]]
    {
      LaterByOne(k.delay, r.delay, i);
    }
  }

  /** The schedule of the tick, when head and cur are equals. */
  lemma TurnScheduled(r: K, cur: int, head: int) returns (d: K)
    requires Inv(r) && r.ready != [] && r.ready[0] == head && r.running == cur == r.next
    requires r.lock == 1 && r.nesting == 0
    requires cur >= 0 && r.st[cur] == RUNNING && r.prio[head] == r.prio[cur] && !r.timeReq && r.req
    ensures d == Unlock(r) && Inv(d) && d.lock == 0
    ensures if r.check == r.tick then d.next == head && d.st[head] == RUNNING
            else d == r.(req := false, lock := 0)
  {
    d := Unlock(r);
    UnlockInv(r);
    ScheduleTakesPlace(r, 1);
    assert d == Schedule(r, 1).(lock := 0);
  }

  /** The state just before the schedule of a tick, when the turn has n ticks left. */
  ghost predicate Rotating(r: K, cur: int, head: int, n: nat) {
    && Sized(r) && 0 <= cur == r.running == r.next && r.ready != [] && r.ready[0] == head
    && r.nesting == 0 && !r.timeReq && r.st[cur] == RUNNING && r.prio[head] == r.prio[cur]
    && r.check == r.tick + n && NoneUrgent(r, r.prio[cur], n)
  }

  predicate TookOver(d: K, head: int) { 0 <= head < |d.st| && d.next == head && d.st[head] == RUNNING }

  lemma TurnTick(k: K, cur: int, head: int, n: nat) returns (r: K, d: K)
    requires Turn(k, cur, head, n)
    ensures d == Do(k, SysTick) && Inv(d) && Rotating(r, cur, head, n - 1)
    ensures if n == 1 then TookOver(d, head) else d == r.(req := false, lock := 0)
  {
    var r0 := TurnCounted(k, cur, head, n);
    r := Requested(r0);
    d := TurnScheduled(r, cur, head);
    assert d == Ticked(k);
  }

  /** Before the last tick of the turn, the running task goes on. */
  lemma TurnGoesOn(k: K, cur: int, head: int, n: nat) returns (d: K)
    requires InTurn(k, cur, head, n) && n > 1
    ensures d == Do(k, SysTick) && InTurn(d, cur, head, n - 1)
  {
    var r;
    r, d := TurnTick(k, cur, head, n);
    TurnStays(r, d, cur, head, n - 1);
  }

  lemma TurnStays(r: K, d: K, cur: int, head: int, n: nat)
    requires Inv(d) && Rotating(r, cur, head, n) && d == r.(req := false, lock := 0) && n >= 1
    ensures InTurn(d, cur, head, n)
  {
    assert NoneUrgent(d, d.prio[cur], n);
  }

  /** At the last tick of the turn, the first of its equals takes over. */
  lemma TurnIsOver(k: K, cur: int, head: int) returns (d: K)
    requires InTurn(k, cur, head, 1)
    ensures d == Do(k, SysTick) && TookOver(d, head)
  {
    var r;
    r, d := TurnTick(k, cur, head, 1);
  }

  /** Turn, to be taken as a whole. */
  ghost predicate InTurn(k: K, cur: int, head: int, n: nat) {
    Sized(k) && forall k' :: k' == k ==> Turn(k', cur, head, n)
  }

  // ----- whole turns -----

  function Ticks(n: nat): (ops: seq<Op>)
    ensures |ops| == n && forall i :: 0 <= i < n ==> ops[i] == SysTick
  {
    if n == 0 then [] else [SysTick] + Ticks(n - 1)
  }

  lemma Next(k: K, cur: int, head: int, n: nat)
    requires InTurn(k, cur, head, n)
    ensures k.next == cur >= 0 && head != cur && n >= 1
  {
    assert Turn(k, cur, head, n);
    assert head in k.ready;
  }

  /** n ticks lead from k to r. */
  ghost predicate Ran(k: K, n: nat, r: K) { forall ops :: ops == Ticks(n) ==> CanRun(k, ops) && Run(k, ops) == r }

  lemma NoTick(k: K)
    ensures Ran(k, 0, k)
  {
  }

  lemma AnotherTick(k: K, d: K, j: nat, r: K)
    requires Sized(k) && d == Do(k, SysTick) && Ran(d, j, r)
    ensures Ran(k, j + 1, r)
  {
    var ops := Ticks(j + 1);
    assert ops[0] == SysTick && ops[1..] == Ticks(j);
    assert CanRun(d, ops[1..]) && Run(d, ops[1..]) == r;
  }

  lemma RanTicks(k: K, n: nat, r: K)
    requires Ran(k, n, r)
    ensures CanRun(k, Ticks(n)) && Run(k, Ticks(n)) == r
  {
  }

  lemma NextTick(k: K, cur: int, head: int, n: nat) returns (d: K)
    requires InTurn(k, cur, head, n) && n > 1
    ensures InTurn(d, cur, head, n - 1) && forall j: nat, r :: Ran(d, j, r) ==> Ran(k, j + 1, r)
  {
    d := TurnGoesOn(k, cur, head, n);
    forall j: nat, r | Ran(d, j, r)
      ensures Ran(k, j + 1, r)
    {
      AnotherTick(k, d, j, r);
    }
  }

  /** During the turn: after fewer than n ticks cur is still the task that runs. */
  lemma {:induction false} TurnLasts(k: K, cur: int, head: int, n: nat, j: nat) returns (r: K)
    requires InTurn(k, cur, head, n) && j < n
    ensures Ran(k, j, r) && r.next == cur
    decreases j
  {
    if j == 0 {
      r := k;
      NoTick(k);
      Next(k, cur, head, n);
    } else {
      var d := NextTick(k, cur, head, n);
      r := TurnLasts(d, cur, head, n - 1, j - 1);
    }
  }

  lemma LastTick(k: K, cur: int, head: int) returns (r: K)
    requires InTurn(k, cur, head, 1)
    ensures Ran(k, 1, r) && TookOver(r, head)
  {
    r := TurnIsOver(k, cur, head);
    NoTick(r);
    AnotherTick(k, r, 0, r);
  }

  lemma {:induction false} AfterTurn(k: K, cur: int, head: int, n: nat) returns (r: K)
    requires InTurn(k, cur, head, n) && n >= 1
    ensures Ran(k, n, r) && TookOver(r, head)
    decreases n
  {
    if n == 1 {
      r := LastTick(k, cur, head);
    } else {
      var d := NextTick(k, cur, head, n);
      r := AfterTurn(d, cur, head, n - 1);
    }
  }

  /** A whole turn: for n - 1 ticks cur goes on, and with the n-th the first of its equals takes over. */
  lemma WholeTurn(k: K, cur: int, head: int, n: nat) returns (r: K)
    requires InTurn(k, cur, head, n)
    ensures CanRun(k, Ticks(n)) && r == Run(k, Ticks(n)) && TookOver(r, head) && head != cur
    ensures forall j :: 0 <= j < n ==> CanRun(k, Ticks(j)) && Run(k, Ticks(j)).next == cur
  {
    Next(k, cur, head, n);
    r := AfterTurn(k, cur, head, n);
    RanTicks(k, n, r);
    forall j | 0 <= j < n
      ensures CanRun(k, Ticks(j)) && Run(k, Ticks(j)).next == cur
    {
      var d := TurnLasts(k, cur, head, n, j);
      RanTicks(k, j, d);
    }
  }

  /** A task that is awakened beside the running one, its equal, when the last deadline is past and nobody more urgent
      is ready or due: the running task goes on for as many ticks as its slice, not one more and not one less, and
      then the first ready task of that priority runs. */
  lemma AwakeStartsTurn(k: K, id: int) returns (d: K, n: nat)
    requires Inv(k) && AtRest(k) && k.lock == 0 && !k.timeReq && k.st[k.running] == RUNNING && Awakable(k, id)
    requires k.prio[id] == k.prio[k.running] && k.check < k.tick && k.slice[k.running] > 0
    requires forall x :: x in k.ready ==> k.prio[k.running] <= k.prio[x]
    requires NoneUrgent(k, k.prio[k.running], k.slice[k.running])
    ensures d == Do(k, Awake(id)) && d.running == d.next == k.running && n == k.slice[k.running]
    ensures d.ready != [] && 0 <= d.ready[0] < |d.prio| && d.prio[d.ready[0]] == d.prio[d.running]
    ensures CanRun(d, Ticks(n)) && Run(d, Ticks(n)).next == d.ready[0] != d.running
    ensures forall j :: 0 <= j < n ==> CanRun(d, Ticks(j)) && Run(d, Ticks(j)).next == d.running
  {
    n := k.slice[k.running];
    d := Awoken(k, id);
    var r := WholeTurn(d, k.running, d.ready[0], n);
  }

  lemma Awoken(k: K, id: int) returns (d: K)
    requires Inv(k) && AtRest(k) && k.lock == 0 && !k.timeReq && k.st[k.running] == RUNNING && Awakable(k, id)
    requires k.prio[id] == k.prio[k.running] && k.check < k.tick && k.slice[k.running] > 0
    requires forall x :: x in k.ready ==> k.prio[k.running] <= k.prio[x]
    requires NoneUrgent(k, k.prio[k.running], k.slice[k.running])
    ensures d == Do(k, Awake(id)) && d.ready != [] && d.prio == k.prio && d.running == d.next == k.running
    ensures 0 <= d.ready[0] < |d.prio| && d.prio[d.ready[0]] == d.prio[d.running]
    ensures InTurn(d, k.running, d.ready[0], k.slice[k.running])
  {
    InsertSafe(k, id);
    var k1 := RdyInsert(k, id);
    FirstIsEqual(k, id);
    DeadlineStarts(k, id);
    d := NoSwitch(k1, k1.ready[0]);
    assert NoneUrgent(k1, k1.prio[k.running], k.slice[k.running]);
    TurnStays(k1, d, k.running, k1.ready[0], k.slice[k.running]);
  }

  lemma NoSwitch(k1: K, head: int) returns (d: K)
    requires Inv(k1) && AtRest(k1) && k1.lock == 0 && !k1.timeReq && k1.st[k1.running] == RUNNING
    requires k1.ready != [] && k1.ready[0] == head && k1.prio[head] == k1.prio[k1.running] && k1.check != k1.tick
    ensures d == Bracket(k1) == k1.(req := false, lock := 0) && Inv(d)
  {
    LockInv(k1);
    var k2 := k1.(lock := 1);
    if k1.req {
      d := TurnScheduled(k2, k1.running, head);
    } else {
      d := k1;
      assert Unlock(k2) == k1;
    }
  }

  lemma FirstIsEqual(k: K, id: int)
    requires Inv(k) && 0 <= id < |k.prio| && 0 <= k.running && k.prio[id] == k.prio[k.running]
    requires forall x :: x in k.ready ==> k.prio[k.running] <= k.prio[x]
    ensures var r := RdyInsert(k, id); r.ready != [] && k.prio[r.ready[0]] == k.prio[k.running]
  {
    var pos := RdyPos(k.prio, k.ready, k.prio[id]);
    if k.ready != [] { assert k.ready[0] in k.ready; }
    if pos > 0 { assert k.prio[k.ready[0]] <= k.prio[id]; }
  }
}
