/** The task state of the kernel as a value: which list each task is on, who runs, and whether a schedule
    has been asked for.  The functions are the kernel's operations on it. */
module TaskModel {
  import opened DeltaList
  import opened Links
  import DeltaClock

  datatype TaskState = READY | RUNNING | WAITING | DORMANT

  datatype K = K(prio: seq<int>, slice: seq<int>, st: seq<TaskState>,
                 free: seq<int>, ready: seq<int>, delay: seq<Entry>,
                 running: int, next: int, lock: int, nesting: int,
                 req: bool, timeReq: bool, tick: int, check: int)

  function Ids(l: seq<Entry>): (q: seq<int>)
    ensures |q| == |l| && forall i :: 0 <= i < |l| ==> q[i] == l[i].id
  {
    seq(|l|, i requires 0 <= i < |l| => l[i].id)
  }

  // ----- the ready list -----

  /** Where a task of priority p goes: before the first entry of lower priority, that is of higher number. */
  function RdyPos(prio: seq<int>, q: seq<int>, p: int): (i: nat)
    requires InTable(q, |prio|)
    ensures i <= |q|
    ensures i < |q| ==> p < prio[q[i]]
    ensures forall j :: 0 <= j < i ==> prio[q[j]] <= p
  {
    if q == [] || p < prio[q[0]] then 0 else 1 + RdyPos(prio, q[1..], p)
  }

  lemma {:induction false} RdyPosIs(prio: seq<int>, q: seq<int>, p: int, k: nat)
    requires InTable(q, |prio|) && k <= |q|
    requires forall j :: 0 <= j < k ==> prio[q[j]] <= p
    requires k < |q| ==> p < prio[q[k]]
    ensures RdyPos(prio, q, p) == k
  {
    if k > 0 { RdyPosIs(prio, q[1..], p, k - 1); }
  }

  /** The tasks of priority p on q, in order. */
  function OfPrio(prio: seq<int>, q: seq<int>, p: int): seq<int>
    requires InTable(q, |prio|)
  {
    if q == [] then [] else (if prio[q[0]] == p then [q[0]] else []) + OfPrio(prio, q[1..], p)
  }

  lemma {:induction false} OfPrioConcat(prio: seq<int>, q: seq<int>, r: seq<int>, p: int)
    requires InTable(q, |prio|) && InTable(r, |prio|)
    ensures InTable(q + r, |prio|) && OfPrio(prio, q + r, p) == OfPrio(prio, q, p) + OfPrio(prio, r, p)
  {
    if q == [] {
      assert q + r == r;
    } else {
      OfPrioConcat(prio, q[1..], r, p);
      assert (q + r)[1..] == q[1..] + r;
      var h, x, y := if prio[q[0]] == p then [q[0]] else [], OfPrio(prio, q[1..], p), OfPrio(prio, r, p);
      assert h + (x + y) == (h + x) + y;
    }
  }

  lemma {:induction false} NoneOfPrio(prio: seq<int>, q: seq<int>, p: int)
    requires InTable(q, |prio|) && forall i :: 0 <= i < |q| ==> prio[q[i]] != p
    ensures OfPrio(prio, q, p) == []
  {
    if q != [] { NoneOfPrio(prio, q[1..], p); }
  }

  lemma OfPrioSplit(prio: seq<int>, A: seq<int>, x: int, B: seq<int>, p: int)
    requires InTable(A, |prio|) && InTable(B, |prio|) && 0 <= x < |prio|
    ensures InTable(A + [x] + B, |prio|)
    ensures OfPrio(prio, A + [x] + B, p) == OfPrio(prio, A, p) + OfPrio(prio, [x], p) + OfPrio(prio, B, p)
    ensures OfPrio(prio, [x], p) == if prio[x] == p then [x] else []
  {
    OfPrioConcat(prio, A, [x], p);
    OfPrioConcat(prio, A + [x], B, p);
    assert [x][1..] == [];
  }

  lemma NoneBehind(prio: seq<int>, q: seq<int>, p: int)
    requires InTable(q, |prio|) && Sorted(prio, q)
    ensures OfPrio(prio, q[RdyPos(prio, q, p)..], p) == []
  {
    NoneOfPrio(prio, q[RdyPos(prio, q, p)..], p);
  }

  /** Among the ready tasks of its own priority a new one comes last; the order of the others stays. */
  lemma InsertIsFifo(prio: seq<int>, q: seq<int>, id: int, p: int)
    requires InTable(q, |prio|) && Sorted(prio, q) && 0 <= id < |prio|
    ensures var r := InsertAt(q, RdyPos(prio, q, prio[id]), id);
            InTable(r, |prio|) && OfPrio(prio, r, p) == OfPrio(prio, q, p) + if prio[id] == p then [id] else []
  {
    var pos := RdyPos(prio, q, prio[id]);
    NoneBehind(prio, q, prio[id]);
    OfPrioSplit(prio, q[..pos], id, q[pos..], p);
    OfPrioHalves(prio, q, pos, p);
    MoveLast(OfPrio(prio, q[..pos], p), if prio[id] == p then [id] else [], OfPrio(prio, q[pos..], p));
  }

  lemma MoveLast(a: seq<int>, x: seq<int>, b: seq<int>)
    requires x == [] || b == []
    ensures a + x + b == a + b + x
  {
  }

  lemma OfPrioHalves(prio: seq<int>, q: seq<int>, pos: nat, p: int)
    requires InTable(q, |prio|) && pos <= |q|
    ensures OfPrio(prio, q, p) == OfPrio(prio, q[..pos], p) + OfPrio(prio, q[pos..], p)
  {
    assert q == q[..pos] + q[pos..];
    OfPrioConcat(prio, q[..pos], q[pos..], p);
  }

  ghost predicate Sorted(prio: seq<int>, q: seq<int>)
    requires InTable(q, |prio|)
  {
    forall i, j :: 0 <= i < j < |q| ==> prio[q[i]] <= prio[q[j]]
  }

  /** The round-robin deadline when a task becomes ready beside a running one of its own priority. */
  function Robin(k: K, id: int): int
    requires 0 <= id < |k.prio| && k.running < |k.prio| && |k.slice| == |k.prio|
  {
    if k.running >= 0 && k.prio[id] == k.prio[k.running] && k.running != id && k.check < k.tick
    then k.tick + k.slice[k.running] else k.check
  }

  predicate Sized(k: K) {
    && |k.slice| == |k.prio| && |k.st| == |k.prio|
    && InTable(k.free, |k.prio|) && InTable(k.ready, |k.prio|) && InTable(Ids(k.delay), |k.prio|)
    && NULL <= k.running < |k.prio| && NULL <= k.next < |k.prio|
  }

  /** InsertToTCBRdyList. */
  function RdyInsert(k: K, id: int): (r: K)
    requires Sized(k) && 0 <= id < |k.prio|
    ensures Sized(r) && r.prio == k.prio && r.running == k.running
  {
    var pos := RdyPos(k.prio, k.ready, k.prio[id]);
    k.(st := k.st[id := READY], ready := InsertAt(k.ready, pos, id), req := k.req || pos == 0, check := Robin(k, id))
  }

  /** RemoveFromTCBRdyList: a task with no links is taken for the only one on the list. */
  function RdyRemove(k: K, id: int): (r: K)
    ensures Sized(k) ==> Sized(r)
    ensures r.prio == k.prio
  {
    if id in k.ready then k.(ready := RemoveAt(k.ready, IndexOf(k.ready, id))) else k.(ready := [])
  }

  // ----- the delay list -----

  /** InsertDelayList. */
  function DlyInsert(k: K, id: int, ticks: U32): K
    requires 0 <= id < |k.st|
  {
    if ticks == 0 then k else k.(delay := Insert(k.delay, id, ticks), st := k.st[id := WAITING], req := true)
  }

  /** RemoveDelayList. */
  function DlyRemove(k: K, id: int): K {
    var i := IndexOf(Ids(k.delay), id);
    if i < |k.delay| then k.(delay := Remove(k.delay, i)) else k
  }

  /** TimeDispose: every task that is due moves to the ready list, in list order. */
  function Release(k: K): (r: K)
    requires Sized(k)
    ensures Sized(r) && r.prio == k.prio && r.free == k.free && r.running == k.running && r.next == k.next
    ensures r.lock == k.lock && r.nesting == k.nesting && r.tick == k.tick && r.timeReq == k.timeReq
    decreases |k.delay|
  {
    if k.delay == [] || k.delay[0].delta != 0 then k
    else
      var id := Ids(k.delay)[0];
      Release(RdyInsert(k.(delay := k.delay[1..]), id))
  }

  // ----- scheduling -----

  predicate Refused(k: K, lock: int) { k.ready == [] || k.running != k.next || lock > 1 || k.nesting > 0 }

  /** The head rdy of the ready list takes over from a task that has stopped running. */
  function TakeOver(k: K, rdy: int): (r: K)
    requires Sized(k) && 0 <= rdy < |k.prio|
    ensures Sized(r) && |r.prio| == |k.prio| && r.next == rdy
  {
    RdyRemove(k.(req := false, next := rdy, st := k.st[rdy := RUNNING]), rdy)
  }

  /** The head rdy of the ready list takes over from the running task, which becomes ready. */
  function Preempt(k: K, rdy: int): (r: K)
    requires Sized(k) && 0 <= rdy < |k.prio| && k.running >= 0
    ensures Sized(r) && |r.prio| == |k.prio| && r.next == rdy
  {
    var k2 := RdyRemove(RdyInsert(k.(req := false, next := rdy), k.running), rdy);
    k2.(st := k2.st[rdy := RUNNING])
  }

  /** Schedule, called with the scheduler lock at `lock`. */
  function Schedule(k: K, lock: int): (r: K)
    requires Sized(k) && k.running >= 0
    ensures Sized(r) && |r.prio| == |k.prio|
  {
    if Refused(k, lock) then k
    else
      var cur, rdy := k.running, k.ready[0];
      if k.st[cur] != RUNNING then Slice(TakeOver(k, rdy))
      else if k.prio[rdy] < k.prio[cur] || (k.prio[rdy] == k.prio[cur] && k.check == k.tick) then Slice(Preempt(k, rdy))
      else k.(req := false)
  }

  /** A fresh time slice for the next task when it shares its priority with the head of the ready list. */
  function Slice(k: K): (r: K)
    requires Sized(k) && k.next >= 0
    ensures Sized(r) && |r.prio| == |k.prio|
  {
    if k.ready != [] && k.prio[k.next] == k.prio[k.ready[0]] then k.(check := k.tick + k.slice[k.next]) else k
  }

  /** A schedule, if one is asked for. */
  function Resched(k: K, lock: int): (r: K)
    requires Sized(k)
    ensures Sized(r) && |r.prio| == |k.prio|
  {
    if k.req && k.running >= 0 then Schedule(k, lock) else k
  }

  /** The disposal that was deferred, if one was. */
  function Respond(k: K): (r: K)
    requires Sized(k)
    ensures Sized(r) && |r.prio| == |k.prio|
  {
    if k.timeReq then Release(k).(timeReq := false) else k
  }

  /** OsSchedUnlock. */
  function Unlock(k: K): (r: K)
    requires Sized(k)
    ensures Sized(r)
  {
    if k.lock == 1 then Resched(Respond(k), 1).(lock := 0) else k.(lock := k.lock - 1)
  }

  /** OsSchedLock ... OsSchedUnlock around a change that leads to k. */
  function Bracket(k: K): (r: K)
    requires Sized(k)
    ensures Sized(r)
  {
    Unlock(k.(lock := k.lock + 1))
  }

  // ----- what the kernel keeps -----

  /** The last table entry before it was first created: marked READY but on no list. */
  predicate Virgin(k: K, id: int)
    requires 0 <= id < |k.st|
  {
    id == |k.st| - 1 && k.st[id] == READY && id !in k.ready
  }

  /** Every task is on exactly the list its state says, and the ready list is sorted by priority. */
  ghost predicate Lists(k: K) {
    && Sized(k) && Distinct(k.free) && Distinct(k.ready) && Distinct(Ids(k.delay))
    && (forall x :: x in k.ready ==> 0 <= x < |k.st| && k.st[x] == READY && x !in k.free)
    && (forall x :: x in k.free ==> 0 <= x < |k.st| && (k.st[x] == DORMANT || Virgin(k, x)))
    && (forall x :: x in Ids(k.delay) ==> 0 <= x < |k.st| && k.st[x] == WAITING)
    && (forall x :: 0 <= x < |k.st| && k.st[x] == READY && x !in k.ready ==> x == |k.st| - 1)
    && Sorted(k.prio, k.ready)
    && Total(k.delay) < S32_LIMIT
  }

  /** The task that runs next is the only one RUNNING, and unless a schedule is asked for it is RUNNING
      and no ready task has a higher priority. */
  ghost predicate Safe(k: K)
    requires Sized(k)
  {
    && (forall x :: 0 <= x < |k.st| && k.st[x] == RUNNING ==> x == k.next)
    && (k.running < 0 <==> k.next < 0)
    && (k.running < 0 && k.ready != [] ==> k.req)
    && (k.running >= 0 && !k.req ==>
          k.st[k.next] == RUNNING && (k.ready != [] ==> k.prio[k.next] <= k.prio[k.ready[0]]))
  }

  ghost predicate Inv(k: K) { Lists(k) && Safe(k) && k.lock >= 0 && k.nesting >= 0 }

  predicate OffLists(k: K, id: int) {
    0 <= id < |k.st| && id !in k.ready && id !in k.free && id !in Ids(k.delay)
  }

  lemma InsertSorted(prio: seq<int>, q: seq<int>, id: int)
    requires InTable(q, |prio|) && Sorted(prio, q) && 0 <= id < |prio|
    ensures var r := InsertAt(q, RdyPos(prio, q, prio[id]), id);
            InTable(r, |prio|) && Sorted(prio, r)
  {
    var pos := RdyPos(prio, q, prio[id]);
    var r := InsertAt(q, pos, id);
    assert forall i {:trigger r[i]} :: 0 <= i < |r| ==>
             r[i] == if i < pos then q[i] else if i == pos then id else q[i - 1];
  }

  lemma InsertLists(k: K, id: int)
    requires Lists(k) && OffLists(k, id)
    ensures Lists(RdyInsert(k, id))
  {
    var pos := RdyPos(k.prio, k.ready, k.prio[id]);
    InsertSorted(k.prio, k.ready, id);
    InsertDistinct(k.ready, pos, id);
  }

  lemma InsertSafe(k: K, id: int)
    requires Inv(k) && OffLists(k, id) && k.st[id] != RUNNING
    ensures Inv(RdyInsert(k, id))
  {
    InsertLists(k, id);
  }

  /** A task leaves the ready list for state s. */
  lemma RemoveLists(k: K, id: int, s: TaskState)
    requires Lists(k) && id in k.ready && s != READY
    ensures var r := RdyRemove(k, id); Lists(r.(st := r.st[id := s]))
    ensures OffLists(RdyRemove(k, id), id)
  {
    var i := IndexOf(k.ready, id);
    RemoveDistinct(k.ready, i);
    RemoveSorted(k.prio, k.ready, i);
  }

  lemma RemoveSorted(prio: seq<int>, q: seq<int>, i: nat)
    requires InTable(q, |prio|) && Sorted(prio, q) && i < |q|
    ensures InTable(RemoveAt(q, i), |prio|) && Sorted(prio, RemoveAt(q, i))
  {
    var r := RemoveAt(q, i);
    assert forall j {:trigger r[j]} :: 0 <= j < |r| ==> r[j] == q[if j < i then j else j + 1];
  }

  // ----- what a schedule does -----

  ghost function Runnable(k: K): set<int> {
    set x | 0 <= x < |k.st| && (x in k.ready || (x == k.next && k.st[x] == RUNNING))
  }

  lemma HeadLists(k: K) returns (r: K)
    requires Inv(k) && k.ready != []
    ensures r == TakeOver(k, k.ready[0]) && Lists(r) && r.ready == k.ready[1..]
    ensures r.st == k.st[k.ready[0] := RUNNING] && r.prio == k.prio && r.running == k.running && r.next == k.ready[0]
    ensures !r.req && r.lock == k.lock && r.nesting == k.nesting
  {
    RemoveLists(k, k.ready[0], RUNNING);
    r := TakeOver(k, k.ready[0]);
    assert IndexOf(k.ready, k.ready[0]) == 0;
  }

  /** The current task has stopped running: the head of the ready list runs next. */
  lemma TakeHead(k: K) returns (r: K)
    requires Inv(k) && k.running >= 0 && k.ready != [] && k.running == k.next && k.st[k.running] != RUNNING
    ensures r == TakeOver(k, k.ready[0])
    ensures Inv(r) && !r.req && r.ready == k.ready[1..] && r.running == k.running
    ensures Runnable(r) == Runnable(k)
  {
    r := HeadLists(k);
    HeadRuns(k, r);
  }

  lemma HeadRuns(k: K, r: K)
    requires Inv(k) && Lists(r) && k.running >= 0 && k.ready != [] && k.running == k.next && k.st[k.running] != RUNNING
    requires r.ready == k.ready[1..] && r.st == k.st[k.ready[0] := RUNNING] && r.prio == k.prio
    requires r.running == k.running && r.next == k.ready[0] && !r.req
    ensures Safe(r) && Runnable(r) == Runnable(k)
  {
    RemoveDistinct(k.ready, 0);
    assert r.ready != [] ==> r.ready[0] == k.ready[1];
    assert forall x :: x in k.ready <==> x in r.ready || x == k.ready[0] by {
      assert k.ready == [k.ready[0]] + r.ready;
    }
  }

  lemma SwapTail(k: K, cur: int)
    requires Inv(k) && OffLists(k, cur) && k.ready != [] && k.prio[k.ready[0]] <= k.prio[cur]
    ensures var pos := RdyPos(k.prio, k.ready, k.prio[cur]);
            pos > 0 && RdyInsert(k, cur).ready[1..] == InsertAt(k.ready[1..], pos - 1, cur)
  {
    var pos := RdyPos(k.prio, k.ready, k.prio[cur]);
    assert pos > 0;
    InsertBehindHead(k.ready, pos, cur);
  }

  lemma InsertBehindHead(q: seq<int>, pos: nat, x: int)
    requires 0 < pos <= |q|
    ensures InsertAt(q, pos, x)[1..] == InsertAt(q[1..], pos - 1, x)
  {
    assert q[..pos][1..] == q[1..][..pos - 1];
    assert q[pos..] == q[1..][pos - 1..];
  }

  lemma SwapInsert(k: K) returns (k1: K)
    requires Inv(k) && k.running >= 0 && k.ready != [] && k.running == k.next && k.st[k.running] == RUNNING
    requires k.prio[k.ready[0]] <= k.prio[k.running]
    ensures k1 == RdyInsert(k.(req := false, next := k.ready[0]), k.running)
    ensures Lists(k1) && k1.ready != [] && k1.ready[0] == k.ready[0] && !k1.req && k1.check == k.check
    ensures k1.ready[1..] == InsertAt(k.ready[1..], RdyPos(k.prio, k.ready, k.prio[k.running]) - 1, k.running)
    ensures forall x :: x in k1.ready <==> x in k.ready || x == k.running
    ensures k1.prio == k.prio && k1.st == k.st[k.running := READY] && k1.running == k.running && k1.next == k.ready[0]
    ensures k1.lock == k.lock && k1.nesting == k.nesting
  {
    var cur, k0 := k.running, k.(req := false, next := k.ready[0]);
    assert OffLists(k, cur);
    SwapTail(k, cur);
    assert Lists(k0);
    InsertLists(k0, cur);
    InsertDistinct(k.ready, RdyPos(k.prio, k.ready, k.prio[cur]), cur);
    k1 := RdyInsert(k0, cur);
  }

  /** The current task is preempted: it goes behind its equals and the head of the ready list runs next. */
  lemma SwapHead(k: K) returns (r: K)
    requires Inv(k) && k.running >= 0 && k.ready != [] && k.running == k.next && k.st[k.running] == RUNNING
    requires k.prio[k.ready[0]] <= k.prio[k.running]
    ensures r == Preempt(k, k.ready[0])
    ensures Inv(r) && !r.req && r.check == k.check && r.running == k.running
    ensures r.ready == InsertAt(k.ready[1..], RdyPos(k.prio, k.ready, k.prio[k.running]) - 1, k.running)
    ensures Runnable(r) == Runnable(k)
  {
    var rdy := k.ready[0];
    var k1 := SwapInsert(k);
    assert IndexOf(k1.ready, rdy) == 0;
    RemoveLists(k1, rdy, RUNNING);
    var k2 := RdyRemove(k1, rdy);
    r := k2.(st := k2.st[rdy := RUNNING]);
    assert r.ready == k1.ready[1..];
    SwapSafe(k, k1, r);
  }

  lemma SwapSafe(k: K, k1: K, r: K)
    requires Inv(k) && Lists(k1) && Lists(r) && k.running >= 0 && k.ready != [] && k.running == k.next
    requires k.st[k.running] == RUNNING && k1.ready != [] && k1.ready[0] == k.ready[0]
    requires forall x :: x in k1.ready <==> x in k.ready || x == k.running
    requires r.ready == k1.ready[1..] && r.prio == k1.prio == k.prio
            && r.st == k.st[k.running := READY][k.ready[0] := RUNNING]
    requires r.running == k.running && r.next == k.ready[0] && !r.req
    ensures Safe(r) && Runnable(r) == Runnable(k)
  {
    var cur, rdy := k.running, k.ready[0];
    assert r.ready != [] ==> r.ready[0] == k1.ready[1];
    assert forall x :: x in k1.ready <==> x in r.ready || x == rdy by {
      assert k1.ready == [rdy] + r.ready;
    }
  }

  lemma SliceFacts(k: K)
    requires Inv(k) && k.next >= 0
    ensures Inv(Slice(k)) && Slice(k).(check := k.check) == k && Runnable(Slice(k)) == Runnable(k)
  {
  }

  /** A schedule that is not refused: the task that runs next is RUNNING, no ready task has a higher
      priority, none is asked for any more, and the same tasks can run as before. */
  lemma ScheduleFacts(k: K, lock: int)
    requires Inv(k) && k.running >= 0 && !Refused(k, lock)
    ensures var r := Schedule(k, lock);
            && Inv(r) && !r.req && r.running == k.running
            && r.st[r.next] == RUNNING && (forall x :: x in r.ready ==> r.prio[r.next] <= r.prio[x])
            && Runnable(r) == Runnable(k)
            && (r.ready == k.ready || r.ready == k.ready[1..]
                || r.ready == InsertAt(k.ready[1..], RdyPos(k.prio, k.ready, k.prio[k.running]) - 1, k.running))
  {
    var r := Schedule(k, lock);
    if k.st[k.running] != RUNNING {
      var r1 := TakeHead(k);
      SliceFacts(r1);
    } else if k.prio[k.ready[0]] <= k.prio[k.running] {
      var r1 := SwapHead(k);
      SliceFacts(r1);
    }
    assert Inv(r) && !r.req;
    HeadIsLeast(r);
  }

  lemma RotatedReady(k: K) returns (r: K)
    requires Inv(k) && k.running >= 0 && k.ready != [] && k.running == k.next && k.st[k.running] == RUNNING
    requires k.prio[k.ready[0]] == k.prio[k.running]
    ensures r == Preempt(k, k.ready[0]) && Sized(r) && r.next == k.ready[0] && r.prio == k.prio
    ensures var p := k.prio[k.running];
            OfPrio(k.prio, r.ready, p) == OfPrio(k.prio, k.ready[1..], p) + [k.running]
    ensures r.ready != [] && r.prio[r.ready[0]] == r.prio[r.next] && r.slice == k.slice && r.tick == k.tick
  {
    r := SwapHead(k);
    RotatedList(k.prio, k.ready, k.running);
  }

  /** The list without its head and with cur put in. */
  lemma RotatedList(prio: seq<int>, q: seq<int>, cur: int)
    requires InTable(q, |prio|) && Sorted(prio, q) && q != [] && 0 <= cur < |prio| && prio[q[0]] == prio[cur]
    ensures RdyPos(prio, q, prio[cur]) > 0
    ensures var r := InsertAt(q[1..], RdyPos(prio, q, prio[cur]) - 1, cur);
            && InTable(r, |prio|) && prio[r[0]] == prio[cur]
            && OfPrio(prio, r, prio[cur]) == OfPrio(prio, q[1..], prio[cur]) + [cur]
  {
    var t := q[1..];
    assert forall i :: 0 <= i < |t| ==> t[i] == q[i + 1];
    RdyPosTail(prio, q, prio[cur]);
    InsertIsFifo(prio, t, cur, prio[cur]);
  }

  lemma RdyPosTail(prio: seq<int>, q: seq<int>, p: int)
    requires InTable(q, |prio|) && q != [] && prio[q[0]] <= p
    ensures RdyPos(prio, q[1..], p) == RdyPos(prio, q, p) - 1
  {
  }

  /** Round robin: when the time slice of the current task ends, the tasks of its priority move up by one, the
      first of them runs for its own slice and the current one comes last; until then it goes on running. */
  lemma RobinTurn(k: K, lock: int)
    requires Inv(k) && k.running >= 0 && !Refused(k, lock) && k.st[k.running] == RUNNING
    requires k.prio[k.ready[0]] == k.prio[k.running]
    ensures var r, p := Schedule(k, lock), k.prio[k.running];
            && (k.check == k.tick ==>
                  r.next == k.ready[0] && r.check == k.tick + k.slice[r.next] && InTable(r.ready, |k.prio|)
                  && OfPrio(k.prio, r.ready, p) == OfPrio(k.prio, k.ready[1..], p) + [k.running])
            && (k.check != k.tick ==> r == k.(req := false))
  {
    if k.check == k.tick {
      var r := RotatedReady(k);
    }
  }

  lemma HeadIsLeast(k: K)
    requires Inv(k) && k.running >= 0 && !k.req
    ensures k.st[k.next] == RUNNING && forall x :: x in k.ready ==> 0 <= x < |k.prio| && k.prio[k.next] <= k.prio[x]
  {
    forall x | x in k.ready
      ensures 0 <= x < |k.prio| && k.prio[k.next] <= k.prio[x]
    {
      var i := IndexOf(k.ready, x);
      assert k.prio[k.ready[0]] <= k.prio[k.ready[i]];
    }
  }

  // ----- the delay list -----

  lemma InsertDelayIds(l: seq<Entry>, id: int, ticks: U32) returns (m: seq<Entry>, i: nat)
    requires Total(l) < S32_LIMIT && ticks < S32_LIMIT
    ensures m == Insert(l, id, ticks) && i <= |l| && Ids(m) == InsertAt(Ids(l), i, id)
    ensures Total(m) < S32_LIMIT
  {
    SmallWaits(l, id, ticks);
    InsertIsStable(l, id, ticks);
    i := Place(l, ticks, 0);
    m := Insert(l, id, ticks);
    DeltaClock.InsertIds(l, m, id, ticks);
    IdsOfInserted(l, m, i, id);
  }

  lemma IdsOfInserted(l: seq<Entry>, m: seq<Entry>, i: nat, id: int)
    requires DeltaClock.IdsInserted(l, m, i, id)
    ensures Ids(m) == InsertAt(Ids(l), i, id)
  {
  }

  lemma IdsOfRemoved(l: seq<Entry>, m: seq<Entry>, i: nat)
    requires i < |l| && |m| == |l| - 1
    requires forall j :: 0 <= j < |m| ==> m[j].id == l[if j < i then j else j + 1].id
    ensures Ids(m) == RemoveAt(Ids(l), i)
  {
  }

  lemma RemoveDelayIds(l: seq<Entry>, i: nat) returns (m: seq<Entry>)
    requires i < |l| && Total(l) < S32_LIMIT
    ensures m == Remove(l, i) && Ids(m) == RemoveAt(Ids(l), i) && Total(m) < S32_LIMIT
  {
    m := Remove(l, i);
    DeltaClock.RemoveIds(l, i);
    RemoveKeepsDue(l, i);
    IdsOfRemoved(l, m, i);
  }

  lemma DelayInv(k: K, id: int, ticks: U32)
    requires Inv(k) && OffLists(k, id) && ticks < S32_LIMIT && k.st[id] != READY
    ensures Inv(DlyInsert(k, id, ticks))
  {
    if ticks > 0 {
      var m, i := InsertDelayIds(k.delay, id, ticks);
      var d := Delaying(k, id, m, i);
    }
  }

  lemma Delaying(k: K, id: int, m: seq<Entry>, i: nat) returns (d: K)
    requires Inv(k) && OffLists(k, id) && k.st[id] != READY
    requires i <= |k.delay| && Ids(m) == InsertAt(Ids(k.delay), i, id) && Total(m) < S32_LIMIT
    ensures d == k.(delay := m, st := k.st[id := WAITING], req := true) && Inv(d)
  {
    InsertDistinct(Ids(k.delay), i, id);
    assert |Ids(k.delay)| == |k.delay|;
    d := Joined(k, id, m);
  }

  lemma Joined(k: K, id: int, m: seq<Entry>) returns (d: K)
    requires Inv(k) && OffLists(k, id) && k.st[id] != READY && Total(m) < S32_LIMIT
    requires Distinct(Ids(m)) && forall i :: 0 <= i < |Ids(m)| ==> Ids(m)[i] == id || Ids(m)[i] in Ids(k.delay)
    ensures d == k.(delay := m, st := k.st[id := WAITING], req := true) && Inv(d)
  {
    d := k.(delay := m, st := k.st[id := WAITING], req := true);
    forall x | x in k.free ensures 0 <= x < |d.st| && (d.st[x] == DORMANT || Virgin(d, x)) {
      assert x != id && d.st[x] == k.st[x] && (Virgin(k, x) ==> Virgin(d, x));
    }
  }

  /** The delay list without entry i. */
  lemma Undelaying(k: K, m: seq<Entry>, i: nat) returns (d: K)
    requires Inv(k) && i < |k.delay| && Ids(m) == RemoveAt(Ids(k.delay), i) && Total(m) < S32_LIMIT
    ensures d == k.(delay := m) && Inv(d) && Ids(k.delay)[i] !in Ids(m)
  {
    d := k.(delay := m);
    RemoveDistinct(Ids(k.delay), i);
  }

  lemma UndelayInv(k: K, id: int)
    requires Inv(k)
    ensures Inv(DlyRemove(k, id))
    ensures id !in Ids(DlyRemove(k, id).delay)
  {
    var i := IndexOf(Ids(k.delay), id);
    if i < |k.delay| {
      var m := RemoveDelayIds(k.delay, i);
      var d := Undelaying(k, m, i);
    }
  }

  lemma DropHead(k: K) returns (d: K)
    requires Inv(k) && k.delay != [] && k.delay[0].delta == 0
    ensures d == k.(delay := k.delay[1..]) && Inv(d) && OffLists(d, Ids(k.delay)[0]) && d.st[Ids(k.delay)[0]] == WAITING
  {
    HeadIds(k.delay);
    d := Undelaying(k, k.delay[1..], 0);
    assert Ids(k.delay)[0] in Ids(k.delay);
  }

  lemma HeadIds(l: seq<Entry>)
    requires l != [] && l[0].delta == 0 && Total(l) < S32_LIMIT
    ensures Ids(l[1..]) == RemoveAt(Ids(l), 0) && Total(l[1..]) < S32_LIMIT
  {
    DeltaClock.RemoveHeadZeros(l);
    var m := RemoveDelayIds(l, 0);
  }

  lemma {:induction false} ReleaseInv(k: K)
    requires Inv(k)
    ensures Inv(Release(k))
    ensures Release(k).delay != [] ==> Release(k).delay[0].delta != 0
    decreases |k.delay|
  {
    if k.delay != [] && k.delay[0].delta == 0 {
      var d := DropHead(k);
      InsertSafe(d, Ids(k.delay)[0]);
      ReleaseInv(RdyInsert(d, Ids(k.delay)[0]));
    }
  }

  lemma ReschedInv(k: K, lock: int)
    requires Inv(k)
    ensures Inv(Resched(k, lock))
  {
    if k.req && k.running >= 0 && !Refused(k, lock) { ScheduleFacts(k, lock); }
  }

  lemma RespondInv(k: K) returns (k1: K)
    requires Inv(k)
    ensures k1 == Respond(k) && Inv(k1)
  {
    k1 := Respond(k);
    if k.timeReq {
      ReleaseInv(k);
      var r := Release(k);
      assert Inv(r) && k1 == r.(timeReq := false);
    }
  }

  lemma UnlockInv(k: K)
    requires Inv(k) && k.lock >= 1
    ensures Inv(Unlock(k))
  {
    if k.lock == 1 {
      var k1 := RespondInv(k);
      ReschedInv(k1, 1);
      var r := Resched(k1, 1);
      assert Unlock(k) == r.(lock := 0);
    }
  }

  lemma BracketInv(k: K)
    requires Inv(k)
    ensures Inv(Bracket(k))
  {
    LockInv(k);
    UnlockInv(k.(lock := k.lock + 1));
  }

  // ----- the steps of a run -----

  datatype Op =
    | Assign                                                       // AssignTCB
    | Init(id: int, p: int, slice: int, waiting: bool)             // the rest of CreateTask
    | Del(id: int) | Suspend(id: int) | Awake(id: int)
    | Delay(ticks: U32)                                            // CoTickDelay, by the running task
    | SysTick | Switch | EnterISR | ExitISR | Lock | UnlockOp | StartOS

  /** The delay list part of the tick interrupt. */
  function Count(k: K): (r: K)
    requires Sized(k)
    ensures Sized(r)
  {
    if k.delay == [] then k
    else
      assert Ids(Tick(k.delay)) == Ids(k.delay);
      var k1 := k.(delay := Tick(k.delay));
      if k1.delay[0].delta != 0 then k1
      else if k.lock > 1 then k1.(timeReq := true)
      else Release(k1)
  }

  /** The delay list with other counts. */
  lemma Recounted(k: K, m: seq<Entry>) returns (d: K)
    requires Inv(k) && Ids(m) == Ids(k.delay) && Total(m) < S32_LIMIT
    ensures d == k.(delay := m) && Inv(d)
  {
    d := k.(delay := m);
  }

  lemma CountedHead(k: K) returns (d: K)
    requires Inv(k) && k.delay != []
    ensures d == k.(delay := Tick(k.delay)) && Inv(d)
  {
    assert Ids(Tick(k.delay)) == Ids(k.delay);
    TickDue(k.delay, |k.delay| - 1);
    d := Recounted(k, Tick(k.delay));
  }

  lemma CountInv(k: K) returns (r: K)
    requires Inv(k)
    ensures r == Count(k) && Inv(r) && r.lock == k.lock
  {
    r := Count(k);
    if k.delay != [] {
      var k1 := CountedHead(k);
      ReleaseInv(k1);
    }
  }

  function Deleted(k: K, id: int): (r: K)
    requires Sized(k) && 0 <= id < |k.st|
    ensures Sized(r)
  {
    var k1 := if k.st[id] == READY then RdyRemove(k, id) else if k.st[id] == WAITING then DlyRemove(k, id) else k;
    DlyRemoveSized(k, id);
    k1.(st := k1.st[id := DORMANT], req := true, free := [id] + k1.free)
  }

  lemma DlyRemoveSized(k: K, id: int)
    requires Sized(k)
    ensures Sized(DlyRemove(k, id))
  {
    var i := IndexOf(Ids(k.delay), id);
    if i < |k.delay| { DeltaClock.RemoveIds(k.delay, i); }
  }

  function Suspended(k: K, id: int): (r: K)
    requires Sized(k) && 0 <= id < |k.st|
    ensures Sized(r)
  {
    var k1 := if id != k.running then RdyRemove(k, id) else k.(req := true);
    k1.(st := k1.st[id := WAITING])
  }

  predicate Suspendable(k: K, id: int) {
    0 < id < |k.st| && k.lock == 0 && k.st[id] != DORMANT && k.st[id] != WAITING
  }

  predicate Deletable(k: K, id: int) {
    0 < id < |k.st| && k.st[id] != DORMANT && (k.st[id] == RUNNING ==> k.lock == 0)
  }

  predicate Awakable(k: K, id: int) { 0 < id < |k.st| && k.st[id] == WAITING && id !in Ids(k.delay) }

  /** The task is not the last table entry before its first creation, or that entry is neither free nor are others
      ready. */
  predicate DelHarmless(k: K, id: int)
    requires 0 <= id < |k.st|
  {
    Virgin(k, id) ==> k.ready == [] && id !in k.free
  }

  /** The current task is on no list, or the other one is on the ready list; a task on no list does no harm while
      nobody is ready, if a schedule is asked for where it was to run next. */
  predicate SuspendHarmless(k: K, id: int)
    requires 0 <= id < |k.st|
  {
    if id == k.running then id !in k.ready && id !in k.free
    else id in k.ready || (k.ready == [] && id !in k.free && (k.st[id] == RUNNING ==> k.req))
  }

  /** The running task is in control: no switch is pending. */
  predicate Calling(k: K)
    requires Sized(k)
  {
    k.running >= 0 && k.running == k.next && k.st[k.running] == RUNNING
  }

  /** When a step can occur, and for which arguments the claim is made. */
  predicate Enabled(k: K, op: Op) {
    && Sized(k)
    && match op
       case Init(id, _, _, _) => OffLists(k, id) && k.st[id] != WAITING && k.st[id] != RUNNING
       case Del(id) => Deletable(k, id) ==> DelHarmless(k, id)
       case Suspend(id) => Suspendable(k, id) ==> SuspendHarmless(k, id)
       case Delay(ticks) => Calling(k) && ticks < S32_LIMIT
       case ExitISR => k.nesting > 0
       case UnlockOp => k.lock > 0
       case StartOS => k.running < 0 && 0 in k.ready && k.lock > 0
       case _ => true
  }

  function Assigned(k: K): K
    requires Sized(k)
  {
    Bracket(if k.free == [] then k else k.(free := k.free[1..]))
  }

  function Inited(k: K, id: int, p: int, slice: int, waiting: bool): K
    requires Sized(k) && 0 <= id < |k.st|
  {
    var k1 := k.(prio := k.prio[id := p], slice := k.slice[id := slice]);
    if waiting then k1.(st := k1.st[id := WAITING]) else Bracket(RdyInsert(k1, id))
  }

  function Delayed(k: K, ticks: U32): K
    requires Sized(k) && k.running >= 0
  {
    if k.nesting > 0 || ticks == 0 || k.lock != 0 then k
    else
      DlyInsertSized(k, k.running, ticks);
      Bracket(DlyInsert(k, k.running, ticks))
  }

  lemma DlyInsertSized(k: K, id: int, ticks: U32)
    requires Sized(k) && 0 <= id < |k.st|
    ensures Sized(DlyInsert(k, id, ticks))
  {
    var l, m := k.delay, Insert(k.delay, id, ticks);
    forall i | 0 <= i < |m|
      ensures 0 <= Ids(m)[i] < |k.prio|
    {
      if l != [] {
        var w := Walk(l, 0, ToS32(ticks)).0;
        assert m[i].id == if i < w then Ids(l)[i] else if i == w then id else Ids(l)[i - 1];
      }
    }
  }

  function Counted(k: K): (r: K)
    requires Sized(k)
    ensures Sized(r)
  {
    Count(k.(lock := k.lock + 1, tick := k.tick + 1))
  }

  function Ticked(k: K): K
    requires Sized(k)
  {
    Unlock(Counted(k).(req := true))
  }

  function Exited(k: K): K
    requires Sized(k)
  {
    var k1 := k.(nesting := k.nesting - 1);
    if k1.nesting == 0 then Resched(k1, k1.lock + 1) else k1
  }

  /** Task 0 runs. */
  function Idling(k: K): (r: K)
    requires Sized(k) && |k.st| > 0
    ensures Sized(r)
  {
    RdyRemove(k.(running := 0, next := 0, st := k.st[0 := RUNNING]), 0)
  }

  function Started(k: K): K
    requires Sized(k) && |k.st| > 0
  {
    Unlock(Idling(k))
  }

  function Do(k: K, op: Op): K
    requires Enabled(k, op)
  {
    match op
    case Assign => Assigned(k)
    case Init(id, p, slice, waiting) => Inited(k, id, p, slice, waiting)
    case Del(id) => if Deletable(k, id) then Bracket(Deleted(k, id)) else k
    case Suspend(id) => if Suspendable(k, id) then Bracket(Suspended(k, id)) else k
    case Awake(id) => if Awakable(k, id) then Bracket(RdyInsert(k, id)) else k
    case Delay(ticks) => Delayed(k, ticks)
    case SysTick => Ticked(k)
    case Switch => k.(running := k.next)
    case EnterISR => k.(nesting := k.nesting + 1)
    case ExitISR => Exited(k)
    case Lock => k.(lock := k.lock + 1)
    case UnlockOp => Unlock(k)
    case StartOS => Started(k)
  }

  // ----- every step keeps the invariant -----

  lemma TailDistinct(q: seq<int>)
    requires q != [] && Distinct(q)
    ensures Distinct(q[1..]) && q[0] !in q[1..] && forall y :: y in q[1..] ==> y in q
  {
  }

  lemma TakeFree(k: K) returns (k1: K)
    requires Inv(k) && k.free != []
    ensures k1 == k.(free := k.free[1..]) && Inv(k1) && OffLists(k1, k.free[0])
  {
    k1 := k.(free := k.free[1..]);
    TailDistinct(k.free);
    assert k.free[0] in k.free;
  }

  lemma AssignInv(k: K)
    requires Inv(k)
    ensures Inv(Do(k, Assign))
  {
    if k.free != [] {
      var k1 := TakeFree(k);
      BracketInv(k1);
    } else {
      BracketInv(k);
    }
  }

  /** A task in hand gets a priority; it is not on the ready list, and not the one that runs. */
  lemma PrioInv(k: K, id: int, p: int, slice: int) returns (k1: K)
    requires Inv(k) && OffLists(k, id) && k.st[id] != RUNNING
    ensures k1 == k.(prio := k.prio[id := p], slice := k.slice[id := slice]) && Inv(k1) && OffLists(k1, id)
  {
    k1 := k.(prio := k.prio[id := p], slice := k.slice[id := slice]);
    assert forall i :: 0 <= i < |k.ready| ==> k.ready[i] in k.ready;
    assert Sorted(k1.prio, k1.ready);
  }

  lemma InitInv(k: K, id: int, p: int, slice: int, waiting: bool)
    requires Inv(k) && Enabled(k, Init(id, p, slice, waiting))
    ensures Inv(Do(k, Init(id, p, slice, waiting)))
  {
    var k1 := PrioInv(k, id, p, slice);
    if waiting {
      assert Inv(k1.(st := k1.st[id := WAITING]));
    } else {
      InsertSafe(k1, id);
      BracketInv(RdyInsert(k1, id));
    }
  }

  lemma DeletedLists(k: K, id: int) returns (k2: K)
    requires Inv(k) && Deletable(k, id) && DelHarmless(k, id)
    ensures Lists(k2) && OffLists(k2, id) && k2.st == k.st[id := DORMANT]
    ensures Deleted(k, id) == k2.(req := true, free := [id] + k2.free)
    ensures k2.running == k.running && k2.next == k.next && k2.lock == k.lock && k2.nesting == k.nesting
  {
    DlyRemoveSized(k, id);
    if k.st[id] == READY && id in k.ready {
      RemoveLists(k, id, DORMANT);
      k2 := RdyRemove(k, id).(st := k.st[id := DORMANT]);
    } else {
      var k1 := k;
      if k.st[id] == WAITING {
        UndelayInv(k, id);
        k1 := DlyRemove(k, id);
      }
      k2 := MadeDormant(k1, id);
    }
  }

  lemma MadeDormant(k: K, id: int) returns (d: K)
    requires Lists(k) && OffLists(k, id)
    ensures d == k.(st := k.st[id := DORMANT]) && Lists(d) && OffLists(d, id)
  {
    d := k.(st := k.st[id := DORMANT]);
  }

  lemma DeleteInv(k: K, id: int)
    requires Inv(k) && Deletable(k, id) && DelHarmless(k, id)
    ensures Inv(Deleted(k, id))
  {
    var k2 := DeletedLists(k, id);
    FreeLists(k2, id);
  }

  lemma DelInv(k: K, id: int)
    requires Inv(k) && Enabled(k, Del(id))
    ensures Inv(Do(k, Del(id)))
  {
    if Deletable(k, id) {
      DeleteInv(k, id);
      BracketInv(Deleted(k, id));
    }
  }

  lemma FreeLists(k: K, id: int)
    requires Lists(k) && OffLists(k, id) && k.st[id] == DORMANT
    ensures Lists(k.(req := true, free := [id] + k.free))
  {
    var r := k.(req := true, free := [id] + k.free);
    InsertDistinct(k.free, 0, id);
    assert r.free == InsertAt(k.free, 0, id);
  }

  lemma RemovedHead(prio: seq<int>, q: seq<int>, i: nat)
    requires InTable(q, |prio|) && Sorted(prio, q) && i < |q|
    ensures var r := RemoveAt(q, i); r != [] ==> prio[q[0]] <= prio[r[0]]
  {
    var r := RemoveAt(q, i);
    if r != [] { assert r[0] == q[if i == 0 then 1 else 0]; }
  }

  lemma SuspendInv(k: K, id: int)
    requires Inv(k) && Suspendable(k, id) && SuspendHarmless(k, id)
    ensures Inv(Suspended(k, id))
  {
    if id in k.ready {
      RemoveLists(k, id, WAITING);
      RemovedHead(k.prio, k.ready, IndexOf(k.ready, id));
    } else {
      SuspendOffLists(k, id);
    }
  }

  lemma SuspendOffLists(k: K, id: int)
    requires Inv(k) && Suspendable(k, id) && SuspendHarmless(k, id) && id !in k.ready
    ensures Inv(Suspended(k, id))
  {
    assert OffLists(k, id);
    var r := Suspended(k, id);
    assert r.ready == k.ready && r.st == k.st[id := WAITING];
    assert forall x :: x in k.free ==> x != id && (Virgin(k, x) ==> Virgin(r, x));
    assert Lists(r);
  }

  lemma SuspendOpInv(k: K, id: int)
    requires Inv(k) && Enabled(k, Suspend(id))
    ensures Inv(Do(k, Suspend(id)))
  {
    if Suspendable(k, id) {
      SuspendInv(k, id);
      BracketInv(Suspended(k, id));
    }
  }

  lemma AwakeInv(k: K, id: int)
    requires Inv(k)
    ensures Inv(Do(k, Awake(id)))
  {
    if Awakable(k, id) {
      InsertSafe(k, id);
      BracketInv(RdyInsert(k, id));
    }
  }

  lemma DelayedInv(k: K, ticks: U32)
    requires Inv(k) && Enabled(k, Delay(ticks))
    ensures Inv(Do(k, Delay(ticks)))
  {
    DlyInsertSized(k, k.running, ticks);
    DelayInv(k, k.running, ticks);
    BracketInv(DlyInsert(k, k.running, ticks));
  }

  lemma TickStarted(k: K) returns (k1: K)
    requires Inv(k)
    ensures k1 == k.(lock := k.lock + 1, tick := k.tick + 1) && Inv(k1) && k1.lock >= 1
  {
    k1 := k.(lock := k.lock + 1, tick := k.tick + 1);
  }

  lemma Requested(k: K) returns (k1: K)
    requires Inv(k)
    ensures k1 == k.(req := true) && Inv(k1)
  {
    k1 := k.(req := true);
  }

  lemma CountedInv(k: K) returns (r: K)
    requires Inv(k)
    ensures r == Counted(k) && Inv(r) && r.lock >= 1
  {
    var k1 := TickStarted(k);
    r := CountInv(k1);
  }

  lemma TickInv(k: K) returns (r: K)
    requires Inv(k)
    ensures r == Ticked(k) && Inv(r)
  {
    var k1 := CountedInv(k);
    var k2 := Requested(k1);
    r := Unlock(k2);
    UnlockInv(k2);
  }

  lemma StartUnder(k: K) returns (r: K)
    requires Inv(k) && Enabled(k, StartOS)
    ensures r == Idling(k) && Inv(r) && r.lock > 0
  {
    RemoveLists(k, 0, RUNNING);
    r := Idling(k);
    assert r == RdyRemove(k, 0).(running := 0, next := 0, st := k.st[0 := RUNNING]);
  }

  lemma StartInv(k: K)
    requires Inv(k) && Enabled(k, StartOS)
    ensures Inv(Do(k, StartOS))
  {
    var r := StartUnder(k);
    UnlockInv(r);
  }

  lemma NestingInv(k: K, n: int) returns (k1: K)
    requires Inv(k) && n >= 0
    ensures k1 == k.(nesting := n) && Inv(k1)
  {
    k1 := k.(nesting := n);
  }

  lemma SwitchInv(k: K)
    requires Inv(k)
    ensures Inv(k.(running := k.next))
  {
  }

  lemma ExitInv(k: K)
    requires Inv(k) && k.nesting > 0
    ensures Inv(Exited(k))
  {
    var k1 := NestingInv(k, k.nesting - 1);
    ReschedInv(k1, k1.lock + 1);
  }

  lemma LockInv(k: K)
    requires Inv(k)
    ensures Inv(k.(lock := k.lock + 1))
  {
  }

  lemma StepInv(k: K, op: Op)
    requires Inv(k) && Enabled(k, op)
    ensures Inv(Do(k, op))
  {
    match op {
      case Assign => AssignInv(k);
      case Init(id, p, slice, waiting) => InitInv(k, id, p, slice, waiting);
      case Del(id) => DelInv(k, id);
      case Suspend(id) => SuspendOpInv(k, id);
      case Awake(id) => AwakeInv(k, id);
      case Delay(ticks) => DelayedInv(k, ticks);
      case SysTick => var r := TickInv(k);
      case StartOS => StartInv(k);
      case Switch => SwitchInv(k);
      case EnterISR => var k1 := NestingInv(k, k.nesting + 1);
      case ExitISR => ExitInv(k);
      case Lock => LockInv(k);
      case UnlockOp => UnlockInv(k);
    }
  }

  // ----- whole runs -----

  ghost predicate CanRun(k: K, ops: seq<Op>)
    decreases |ops|
  {
    ops == [] || (Enabled(k, ops[0]) && CanRun(Do(k, ops[0]), ops[1..]))
  }

  ghost function Run(k: K, ops: seq<Op>): K
    requires CanRun(k, ops)
    decreases |ops|
  {
    if ops == [] then k else Run(Do(k, ops[0]), ops[1..])
  }

  /** A run in two parts. */
  lemma {:induction false} RunJoin(k: K, a: seq<Op>, b: seq<Op>)
    requires CanRun(k, a) && CanRun(Run(k, a), b)
    ensures CanRun(k, a + b) && Run(k, a + b) == Run(Run(k, a), b)
    decreases |a|
  {
    if a == [] {
      assert a + b == b;
    } else {
      assert (a + b)[0] == a[0] && (a + b)[1..] == a[1..] + b;
      RunJoin(Do(k, a[0]), a[1..], b);
    }
  }

  /** CreateTCBList for a table of n tasks, before any is created: the last entry is never marked DORMANT. */
  function Boot(n: nat): K
    requires n > 0
  {
    K(seq(n, _ => 0), seq(n, _ => 0), seq(n, i => if i < n - 1 then DORMANT else READY),
      seq(n, i => i), [], [], NULL, NULL, 1, 0, false, false, 0, 0)
  }

  lemma BootInv(n: nat)
    requires n > 0
    ensures Inv(Boot(n)) && Virgin(Boot(n), n - 1)
  {
  }

  /** In every state that a run of the kernel reaches, every task is on exactly the list its state says, the
      ready list is sorted, and while no schedule is asked for and no switch is pending, the current task is
      RUNNING and no ready task has a higher priority. */
  lemma {:induction false} RunSafe(k: K, ops: seq<Op>)
    requires Inv(k) && CanRun(k, ops)
    ensures var r := Run(k, ops);
            && Inv(r)
            && (r.running >= 0 && r.running == r.next && !r.req ==>
                  r.st[r.running] == RUNNING && forall x :: x in r.ready ==> r.prio[r.running] <= r.prio[x])
    decreases |ops|
  {
    if ops == [] {
      if k.running >= 0 && !k.req { HeadIsLeast(k); }
    } else {
      StepInv(k, ops[0]);
      RunSafe(Do(k, ops[0]), ops[1..]);
    }
  }

  // ----- when suspending and deleting keep the lists -----

  /** The lists of r are in order, and every ready task of k but id is still ready. */
  ghost predicate Kept(k: K, r: K, id: int) { Inv(r) && forall x :: x in k.ready && x != id ==> x in r.ready }

  lemma DropsReady(k: K, id: int)
    requires id !in k.ready && k.ready != []
    ensures !Kept(k, RdyRemove(k, id), id) && exists x :: x in k.ready && x != id && x !in RdyRemove(k, id).ready
  {
    var x := k.ready[0];
    assert x in k.ready && x !in RdyRemove(k, id).ready;
  }

  lemma RemoveKeepsOthers(k: K, id: int)
    requires Distinct(k.ready) && (id in k.ready || k.ready == [])
    ensures forall x :: x in k.ready && x != id ==> x in RdyRemove(k, id).ready
  {
    if id in k.ready { RemoveDistinct(k.ready, IndexOf(k.ready, id)); }
  }

  /** Suspending, from a task or from an interrupt, keeps the lists and the other ready tasks if and only if it is
      harmless.  What does harm: the table entry that CreateTCBList leaves READY, before it was created; the current
      task when it was preempted and waits for the switch on the ready list; and the task that is to run next. */
  lemma SuspendKeepsListsIff(k: K, id: int)
    requires Inv(k) && Suspendable(k, id)
    ensures Kept(k, Suspended(k, id), id) <==> SuspendHarmless(k, id)
  {
    if SuspendHarmless(k, id) {
      SuspendInv(k, id);
      if id != k.running { RemoveKeepsOthers(k, id); }
    } else {
      SuspendHarms(k, id);
    }
  }

  lemma SuspendHarms(k: K, id: int)
    requires Inv(k) && Suspendable(k, id) && !SuspendHarmless(k, id)
    ensures !Kept(k, Suspended(k, id), id)
  {
    var r := Suspended(k, id);
    assert r.st[id] == WAITING;
    if id != k.running && k.ready != [] { DropsReady(k, id); }
  }

  /** The same for deleting. */
  lemma DelKeepsListsIff(k: K, id: int)
    requires Inv(k) && Deletable(k, id)
    ensures Kept(k, Deleted(k, id), id) <==> DelHarmless(k, id)
  {
    if DelHarmless(k, id) {
      DeleteInv(k, id);
      if k.st[id] == READY { RemoveKeepsOthers(k, id); }
    } else if k.ready != [] {
      DropsReady(k, id);
    } else {
      var r := Deleted(k, id);
      assert r.free[0] == id == r.free[IndexOf(k.free, id) + 1];
    }
  }
}
