/** The task control blocks and the kernel's variables as they are in memory.  State() is the value they stand
    for; every method says which function of TaskModel it performs on it. */
module Kernel {
  import opened DeltaList
  import opened DeltaTable
  import opened Links
  import opened TaskModel
  import TaskLists

  const INVALID_VALUE: U32 := 0xFFFF_FFFF

  const CFG_LOWEST_PRIO: int := 64
  const CFG_TIME_SLICE: int := 10
  const E_CREATE_FAIL: int := -1

  datatype Status =
    | E_OK | E_INVALID_ID | E_PROTECTED_TASK | E_OS_IN_LOCK | E_ALREADY_IN_WAITING | E_TASK_NOT_WAITING
    | E_TASK_WAIT_OTHER | E_CALL | E_INVALID_PARAMETER

  class Tasks {
    const TCBnext: array<int>
    const TCBprev: array<int>
    const prio: array<int>
    const timeSlice: array<int>
    const state: array<TaskState>
    const delayTick: array<U32>
    var FreeTCB: int
    var TCBRdy: int
    var DlyList: int
    var TCBRunning: int
    var TCBNext: int
    var OSSchedLock: int
    var OSIntNesting: int
    var TaskSchedReq: bool
    var TimeReq: bool
    var OSTickCnt: int
    var OSCheckTime: int
    ghost var ready: seq<int>
    ghost var sleeping: seq<int>
    ghost var free: seq<int>
    ghost var hand: set<int>

    ghost predicate Tables() {
      && TCBprev.Length == prio.Length == timeSlice.Length == state.Length == delayTick.Length == TCBnext.Length
      && TCBnext != TCBprev && TCBnext != prio && TCBnext != timeSlice && TCBprev != prio && TCBprev != timeSlice
      && prio != timeSlice
    }

    ghost predicate Linked()
      reads `TCBRdy, `DlyList, `FreeTCB, `ready, `sleeping, `free, `hand, TCBnext, TCBprev
    {
      && Tables()
      && TaskLists.Linked(TCBnext[..], TCBprev[..], TCBRdy, ready, DlyList, sleeping, FreeTCB, free, hand)
    }

    /** The tick counters of tasks that do not sleep are marked. */
    ghost predicate Marked()
      reads `sleeping, `free, `hand, delayTick
    {
      forall x :: 0 <= x < delayTick.Length && x !in sleeping && x !in free && x !in hand ==>
          delayTick[x] == INVALID_VALUE
    }

    /** A task in hand is not running. */
    ghost predicate InHand()
      reads `hand, state
    {
      forall x :: 0 <= x < state.Length && x in hand ==> state[x] == DORMANT || state[x] == READY
    }

    ghost predicate OffAll(x: int)
      reads `ready, `sleeping, `free, `hand
    {
      0 <= x < TCBnext.Length && x !in ready && x !in sleeping && x !in free && x !in hand
    }

    ghost predicate Current()
      reads `TCBRunning, `TCBNext
    {
      NULL <= TCBRunning < TCBnext.Length && NULL <= TCBNext < TCBnext.Length
    }

    /** What the variables stand for. */
    ghost function State(): (k: K)
      requires Linked() && Current()
      reads this, TCBnext, TCBprev, prio, timeSlice, state, delayTick
      ensures Sized(k) && Ids(k.delay) == sleeping
    {
      K(prio[..], timeSlice[..], state[..], free, ready, Entries(sleeping, delayTick[..]), TCBRunning, TCBNext,
        OSSchedLock, OSIntNesting, TaskSchedReq, TimeReq, OSTickCnt, OSCheckTime)
    }

    /** The table of n task control blocks, all free; the scheduler is locked until the system starts. */
    constructor (n: nat)
      requires n > 0
      ensures Valid() && State() == Boot(n)
      ensures fresh(TCBnext) && fresh(TCBprev) && fresh(prio) && fresh(timeSlice) && fresh(state) && fresh(delayTick)
    {
      TCBnext := new int[n](_ => NULL);
      TCBprev := new int[n](_ => NULL);
      prio := new int[n](_ => 0);
      timeSlice := new int[n](_ => 0);
      state := new TaskState[n](_ => READY);
      delayTick := new U32[n](_ => 0);
      FreeTCB, TCBRdy, DlyList, TCBRunning, TCBNext := NULL, NULL, NULL, NULL, NULL;
      OSSchedLock, OSIntNesting, TaskSchedReq, TimeReq, OSTickCnt, OSCheckTime := 1, 0, false, false, 0, 0;
      ready, sleeping, free, hand := [], [], [], {};
      new;
      CreateTCBList();
      BootIs(n, State());
    }

    /** Builds the free list; the last entry is linked but never marked DORMANT. */
    method CreateTCBList()
      requires Tables() && TCBnext.Length > 0 && ready == [] && sleeping == [] && hand == {}
              && TCBRdy == NULL == DlyList
      requires forall j :: 0 <= j < TCBnext.Length ==> TCBnext[j] == NULL && TCBprev[j] == NULL && state[j] == READY
      modifies TCBnext, state, this`FreeTCB, this`free
      ensures Linked() && Marked() && free == seq(TCBnext.Length, i => i)
      ensures forall j :: 0 <= j < TCBnext.Length ==> state[j] == if j < TCBnext.Length - 1 then DORMANT else READY
    {
      var n := TCBnext.Length;
      var i := 0;
      while i < n - 1
        invariant 0 <= i <= n - 1
        invariant forall j :: 0 <= j < n ==> TCBnext[j] == if j < i then j + 1 else NULL
        invariant forall j :: 0 <= j < n ==> state[j] == if j < i then DORMANT else READY
        modifies TCBnext, state
      {
        state[i] := DORMANT;
        TCBnext[i] := i + 1;
        i := i + 1;
      }
      FreeTCB := 0;
      free := seq(n, i => i);
      TaskLists.AllFree(TCBnext[..], TCBprev[..], free);
    }

    // ----- linking -----

    /** Links x in at the head of the ready list. */
    method LinkReadyHead(x: int)
      requires Linked() && OffAll(x)
      modifies TCBnext, TCBprev, this`TCBRdy, this`ready
      ensures Linked() && ready == InsertAt(old(ready), 0, x)
    {
      ghost var nx, pv, rh := TCBnext[..], TCBprev[..], TCBRdy;
      assert TaskLists.LinksOff(nx, pv, ready, sleeping, free, hand, x);
      assert ready != [] ==> LinkOk(nx, pv, ready, 0);
      if TCBRdy != NULL {
        TCBnext[x] := TCBRdy;
        TCBprev[TCBRdy] := x;
      }
      TCBRdy := x;
      TaskLists.LinkReady(nx, pv, TCBnext[..], TCBprev[..], rh, ready, DlyList, sleeping, FreeTCB, free, hand, 0, x);
      ready := InsertAt(ready, 0, x);
    }

    /** Links x in behind ptcb, entry k - 1 of the ready list. */
    method LinkReadyAfter(x: int, ptcb: int, ghost k: nat)
      requires Linked() && OffAll(x) && 0 < k <= |ready| && ptcb == ready[k - 1]
      modifies TCBnext, TCBprev, this`ready
      ensures Linked() && ready == InsertAt(old(ready), k, x)
    {
      ghost var nx, pv := TCBnext[..], TCBprev[..];
      assert LinkOk(nx, pv, ready, k - 1);
      var ptcbNext := TCBnext[ptcb];
      TCBnext[x] := ptcbNext;
      TCBnext[ptcb] := x;
      TCBprev[x] := ptcb;
      if ptcbNext != NULL {
        TCBprev[ptcbNext] := x;
      }
      TaskLists.LinkReady(nx, pv, TCBnext[..], TCBprev[..], TCBRdy, ready, DlyList, sleeping, FreeTCB, free, hand,
                          k, x);
      ready := InsertAt(ready, k, x);
    }

    // ----- the ready list -----

    /** The walk of the insertion: behind ptcb, before the first task of lower priority. */
    method FindReadyPlace(p: int) returns (ptcb: int, ghost k: nat)
      requires Linked() && ready != [] && prio[ready[0]] <= p
      ensures k == RdyPos(prio[..], ready, p) && 0 < k <= |ready| && ptcb == ready[k - 1]
    {
      ptcb := TCBRdy;
      k := 1;
      assert LinkOk(TCBnext[..], TCBprev[..], ready, 0);
      var ptcbNext := TCBnext[ptcb];
      while ptcbNext != NULL
        invariant 0 < k <= |ready| && ptcb == ready[k - 1] && ptcbNext == At(ready, k)
        invariant forall j :: 0 <= j < k ==> prio[ready[j]] <= p
        decreases |ready| - k
      {
        if p < prio[ptcbNext] {
          break;
        }
        assert LinkOk(TCBnext[..], TCBprev[..], ready, k);
        ptcb := ptcbNext;
        ptcbNext := TCBnext[ptcbNext];
        k := k + 1;
      }
      RdyPosIs(prio[..], ready, p, k);
    }

    /** Where the ready list takes tcbInsert, and whether that asks for a schedule. */
    method LinkReady(tcbInsert: int)
      requires Linked() && OffAll(tcbInsert)
      modifies TCBnext, TCBprev, this`TCBRdy, this`ready, this`TaskSchedReq
      ensures Linked()
      ensures var pos := RdyPos(prio[..], old(ready), prio[tcbInsert]);
              ready == InsertAt(old(ready), pos, tcbInsert) && TaskSchedReq == (old(TaskSchedReq) || pos == 0)
    {
      if TCBRdy == NULL {
        TaskSchedReq := true;
        LinkReadyHead(tcbInsert);
      } else if prio[tcbInsert] < prio[TCBRdy] {
        TaskSchedReq := true;
        LinkReadyHead(tcbInsert);
      } else {
        var ptcb, k := FindReadyPlace(prio[tcbInsert]);
        LinkReadyAfter(tcbInsert, ptcb, k);
      }
    }

    /** The round-robin deadline, when t becomes ready beside the running task. */
    method SetRobin(t: int)
      requires Linked() && Current() && 0 <= t < TCBnext.Length
      modifies this`OSCheckTime
      ensures OSCheckTime == Robin(old(State()), t)
    {
      var ptcb := TCBRunning;
      if ptcb != NULL && prio[t] == prio[ptcb] {
        if ptcb != t {
          if OSCheckTime < OSTickCnt {
            OSCheckTime := OSTickCnt + timeSlice[ptcb];
          }
        }
      }
    }

    method InsertToTCBRdyList(tcbInsert: int)
      requires Linked() && Current() && OffAll(tcbInsert)
      modifies TCBnext, TCBprev, state, this`TCBRdy, this`ready, this`TaskSchedReq, this`OSCheckTime
      ensures Linked() && State() == RdyInsert(old(State()), tcbInsert)
      ensures old(InHand()) ==> InHand()
    {
      MakeReady(tcbInsert);
      LinkReady(tcbInsert);
    }

    method MakeReady(t: int)
      requires Linked() && Current() && 0 <= t < TCBnext.Length
      modifies state, this`OSCheckTime
      ensures State() == old(State()).(st := old(State()).st[t := READY], check := Robin(old(State()), t))
      ensures old(InHand()) ==> InHand()
    {
      state[t] := READY;
      SetRobin(t);
    }

    /** The writes that link out entry k of the ready list, which is not the only one. */
    method WriteReadyOut(ptcb: int, ghost k: nat)
      requires Linked() && k < |ready| && |ready| > 1 && ptcb == ready[k]
      modifies TCBnext, TCBprev, this`TCBRdy
      ensures LinkedOut(old(TCBnext[..]), old(TCBprev[..]), TCBnext[..], TCBprev[..], ready, k)
      ensures TCBRdy == if k == 0 then ready[1] else old(TCBRdy)
    {
      assert LinkOk(TCBnext[..], TCBprev[..], ready, k);
      if TCBprev[ptcb] == NULL {
        TCBRdy := TCBnext[ptcb];
        TCBnext[ptcb] := NULL;
        TCBprev[TCBRdy] := NULL;
      } else if TCBnext[ptcb] == NULL {
        TCBnext[TCBprev[ptcb]] := NULL;
        TCBprev[ptcb] := NULL;
      } else {
        TCBnext[TCBprev[ptcb]] := TCBnext[ptcb];
        TCBprev[TCBnext[ptcb]] := TCBprev[ptcb];
        TCBnext[ptcb] := NULL;
        TCBprev[ptcb] := NULL;
      }
    }

    method UnlinkReady(ptcb: int, ghost k: nat)
      requires Linked() && k < |ready| && |ready| > 1 && ptcb == ready[k]
      modifies TCBnext, TCBprev, this`TCBRdy, this`ready
      ensures Linked() && ready == RemoveAt(old(ready), k)
    {
      ghost var nx, pv, rh := TCBnext[..], TCBprev[..], TCBRdy;
      WriteReadyOut(ptcb, k);
      TaskLists.UnlinkReady(nx, pv, TCBnext[..], TCBprev[..], rh, ready, DlyList, sleeping, FreeTCB, free, hand, k);
      ready := RemoveAt(ready, k);
    }

    /** A task without links is taken for the only one on the list. */
    method DropLone(ptcb: int)
      requires Linked() && 0 <= ptcb < TCBnext.Length && TCBnext[ptcb] == NULL && TCBprev[ptcb] == NULL
      modifies this`TCBRdy, this`ready
      ensures TCBRdy == NULL
      ensures ptcb in old(ready) ==> Linked() && old(ready) == [ptcb] && ready == []
      ensures ptcb !in old(ready) ==> ready == old(ready) && (ready == [] ==> Linked())
    {
      if ptcb in ready {
        TaskLists.DropOnly(TCBnext[..], TCBprev[..], TCBRdy, ready, DlyList, sleeping, FreeTCB, free, hand, ptcb);
        ready := [];
      }
      TCBRdy := NULL;
    }

    method UnlinkAny(ptcb: int)
      requires Linked() && 0 <= ptcb < TCBnext.Length && (ptcb in ready || OffAll(ptcb))
      modifies TCBnext, TCBprev, this`TCBRdy, this`ready
      ensures ptcb in old(ready) ==> Linked() && ready == RemoveAt(old(ready), IndexOf(old(ready), ptcb))
      ensures ptcb !in old(ready) ==>
              TCBRdy == NULL && TCBnext[..] == old(TCBnext[..]) && TCBprev[..] == old(TCBprev[..])
              && ready == old(ready) && (ready == [] ==> Linked())
    {
      if TCBnext[ptcb] == NULL && TCBprev[ptcb] == NULL {
        DropLone(ptcb);
      } else {
        assert TaskLists.LinksOff(TCBnext[..], TCBprev[..], ready, sleeping, free, hand, ptcb);
        ghost var k := IndexOf(ready, ptcb);
        assert LinkOk(TCBnext[..], TCBprev[..], ready, k);
        UnlinkReady(ptcb, k);
      }
    }

    /** Takes a task off the ready list.  If it is on no list, the whole ready list is dropped. */
    method RemoveFromTCBRdyList(ptcb: int)
      requires Linked() && Current() && 0 <= ptcb < TCBnext.Length && (ptcb in ready || OffAll(ptcb))
      modifies TCBnext, TCBprev, this`TCBRdy, this`ready
      ensures ptcb in old(ready) ==> Linked() && State() == RdyRemove(old(State()), ptcb)
      ensures ptcb !in old(ready) ==>
              TCBRdy == NULL && TCBnext[..] == old(TCBnext[..]) && TCBprev[..] == old(TCBprev[..])
              && ready == old(ready) && (ready == [] ==> Linked())
    {
      UnlinkAny(ptcb);
    }

    // ----- the delay list -----

    /** Links x in before dlyNext, entry k of the delay list. */
    method LinkSleepBefore(x: int, dlyNext: int, ghost k: nat)
      requires Linked() && OffAll(x) && k < |sleeping| && dlyNext == sleeping[k]
      modifies TCBnext, TCBprev, this`DlyList, this`sleeping
      ensures Linked() && sleeping == InsertAt(old(sleeping), k, x) && TCBnext[x] == dlyNext
    {
      ghost var nx, pv, dh := TCBnext[..], TCBprev[..], DlyList;
      assert LinkOk(nx, pv, sleeping, k);
      assert TaskLists.LinksOff(nx, pv, ready, sleeping, free, hand, x);
      if TCBprev[dlyNext] != NULL {
        TCBnext[TCBprev[dlyNext]] := x;
        TCBprev[x] := TCBprev[dlyNext];
        TCBnext[x] := dlyNext;
        TCBprev[dlyNext] := x;
      } else {
        TCBnext[x] := DlyList;
        TCBprev[DlyList] := x;
        DlyList := x;
      }
      TaskLists.Swapped(nx, pv, TCBRdy, ready, dh, sleeping, FreeTCB, free, hand);
      TaskLists.LinkReady(nx, pv, TCBnext[..], TCBprev[..], dh, sleeping, TCBRdy, ready, FreeTCB, free, hand, k, x);
      sleeping := InsertAt(sleeping, k, x);
      TaskLists.Swapped(TCBnext[..], TCBprev[..], DlyList, sleeping, TCBRdy, ready, FreeTCB, free, hand);
    }

    /** Links x in behind dlyNext, the last entry of the delay list, or as the only one. */
    method LinkSleepLast(x: int, dlyNext: int)
      requires Linked() && OffAll(x) && dlyNext == At(sleeping, |sleeping| - 1)
      modifies TCBnext, TCBprev, this`DlyList, this`sleeping
      ensures Linked() && sleeping == InsertAt(old(sleeping), |old(sleeping)|, x)
    {
      ghost var nx, pv, dh := TCBnext[..], TCBprev[..], DlyList;
      assert TaskLists.LinksOff(nx, pv, ready, sleeping, free, hand, x);
      if dlyNext == NULL {
        DlyList := x;
      } else {
        TCBprev[x] := dlyNext;
        TCBnext[dlyNext] := x;
      }
      TaskLists.Swapped(nx, pv, TCBRdy, ready, dh, sleeping, FreeTCB, free, hand);
      TaskLists.LinkReady(nx, pv, TCBnext[..], TCBprev[..], dh, sleeping, TCBRdy, ready, FreeTCB, free, hand,
                          |sleeping|, x);
      sleeping := InsertAt(sleeping, |sleeping|, x);
      TaskLists.Swapped(TCBnext[..], TCBprev[..], DlyList, sleeping, TCBRdy, ready, FreeTCB, free, hand);
    }

    /** The delay list as it counts. */
    ghost function Delays(): (l: seq<Entry>)
      requires Linked()
      reads `TCBRdy, `DlyList, `FreeTCB, `ready, `sleeping, `free, `hand, TCBnext, TCBprev, delayTick
    {
      Entries(sleeping, delayTick[..])
    }

    /** The walk of the insertion, in signed 32-bit arithmetic: it stops before dlyNext, or past the end. */
    method FindDelayPlace(ticks: U32) returns (dlyNext: int, deltaTicks: S32, ghost k: nat)
      requires Linked() && DlyList != NULL
      ensures k < |sleeping| && dlyNext == sleeping[k] && (deltaTicks >= 0 ==> k == |sleeping| - 1)
      ensures Walk(Delays(), 0, ToS32(ticks)) == (if deltaTicks < 0 then k else |sleeping|, deltaTicks)
    {
      ghost var l := Delays();
      dlyNext := DlyList;
      deltaTicks := ToS32(ticks);
      k := 0;
      ghost var start := deltaTicks;
      while true
        invariant 0 <= k < |sleeping| && dlyNext == sleeping[k]
        invariant Walk(l, k, deltaTicks) == Walk(l, 0, start)
        decreases |sleeping| - k
      {
        assert LinkOk(TCBnext[..], TCBprev[..], sleeping, k);
        assert l[k].delta == delayTick[dlyNext];
        deltaTicks := ToS32(deltaTicks - delayTick[dlyNext]);
        if deltaTicks < 0 || TCBnext[dlyNext] == NULL {
          return;
        }
        dlyNext := TCBnext[dlyNext];
        k := k + 1;
      }
    }

    method SleepBefore(x: int, dlyNext: int, deltaTicks: S32, ghost k: nat)
      requires Linked() && Marked() && OffAll(x) && k < |sleeping| && dlyNext == sleeping[k]
      modifies TCBnext, TCBprev, delayTick, this`DlyList, this`sleeping
      ensures Linked() && Marked() && forall y :: y in sleeping <==> y in old(sleeping) || y == x
      ensures var l := old(Delays()); var delta := (l[k].delta + deltaTicks) % U32_SIZE;
              Delays() == InsertEntry(l, k, Entry(x, delta), (l[k].delta - delta) % U32_SIZE)
    {
      ghost var cnt := delayTick[..];
      InsertDistinct(sleeping, k, x);
      LinkSleepBefore(x, dlyNext, k);
      delayTick[x] := (delayTick[TCBnext[x]] + deltaTicks) % U32_SIZE;
      delayTick[TCBnext[x]] := (delayTick[TCBnext[x]] - delayTick[x]) % U32_SIZE;
      EntriesInsert(old(sleeping), cnt, delayTick[..], k, x, delayTick[dlyNext]);
    }

    method SleepLast(x: int, dlyNext: int, deltaTicks: U32)
      requires Linked() && Marked() && OffAll(x) && dlyNext == At(sleeping, |sleeping| - 1)
      modifies TCBnext, TCBprev, delayTick, this`DlyList, this`sleeping
      ensures Linked() && Marked() && forall y :: y in sleeping <==> y in old(sleeping) || y == x
      ensures Delays() == old(Delays()) + [Entry(x, deltaTicks)]
    {
      ghost var cnt := delayTick[..];
      InsertDistinct(sleeping, |sleeping|, x);
      LinkSleepLast(x, dlyNext);
      delayTick[x] := deltaTicks;
      EntriesInsert(old(sleeping), cnt, delayTick[..], |old(sleeping)|, x, 0);
    }

    method SleepWalked(x: int, ticks: U32)
      requires Linked() && Marked() && OffAll(x) && DlyList != NULL
      modifies TCBnext, TCBprev, delayTick, this`DlyList, this`sleeping
      ensures Linked() && Marked() && forall y :: y in sleeping <==> y in old(sleeping) || y == x
      ensures Delays() == Insert(old(Delays()), x, ticks)
    {
      var dlyNext, deltaTicks, k := FindDelayPlace(ticks);
      if deltaTicks < 0 {
        InsertsBefore(Delays(), x, ticks, k, deltaTicks);
        SleepBefore(x, dlyNext, deltaTicks, k);
      } else {
        InsertsLast(Delays(), x, ticks, deltaTicks);
        SleepLast(x, dlyNext, deltaTicks);
      }
    }

    /** Puts x among the sleepers. */
    method Sleep(x: int, ticks: U32)
      requires Linked() && Marked() && OffAll(x)
      modifies TCBnext, TCBprev, delayTick, this`DlyList, this`sleeping
      ensures Linked() && Marked() && forall y :: y in sleeping <==> y in old(sleeping) || y == x
      ensures Delays() == Insert(old(Delays()), x, ticks)
    {
      if DlyList == NULL {
        SleepLast(x, NULL, ticks);
      } else {
        SleepWalked(x, ticks);
      }
    }

    method InsertDelayList(ptcb: int, ticks: U32)
      requires Linked() && Current() && OffAll(ptcb) && Marked()
      modifies TCBnext, TCBprev, state, delayTick, this`DlyList, this`sleeping, this`TaskSchedReq
      ensures Linked() && Marked() && State() == DlyInsert(old(State()), ptcb, ticks)
    {
      if ticks == 0 {
        return;
      }
      Sleep(ptcb, ticks);
      MarkWaiting(ptcb);
    }

    method MarkWaiting(ptcb: int)
      requires Linked() && Current() && 0 <= ptcb < TCBnext.Length
      modifies state, this`TaskSchedReq
      ensures State() == old(State()).(st := old(State()).st[ptcb := WAITING], req := true)
    {
      state[ptcb] := WAITING;
      TaskSchedReq := true;
    }

    /** The writes that link out entry k of the delay list, which is not the only one, and give its ticks to
        the one after it. */
    method WriteSleepOut(ptcb: int, ghost k: nat)
      requires Linked() && k < |sleeping| && |sleeping| > 1 && ptcb == sleeping[k]
      modifies TCBnext, TCBprev, delayTick, this`DlyList
      ensures LinkedOut(old(TCBnext[..]), old(TCBprev[..]), TCBnext[..], TCBprev[..], sleeping, k)
      ensures DlyList == if k == 0 then sleeping[1] else old(DlyList)
      ensures forall j :: 0 <= j < delayTick.Length ==>
                delayTick[j] == if j == At(sleeping, k + 1) then (old(delayTick[j]) + old(delayTick[ptcb])) % U32_SIZE
                    else old(delayTick[j])
    {
      assert LinkOk(TCBnext[..], TCBprev[..], sleeping, k);
      if TCBprev[ptcb] == NULL {
        DlyList := TCBnext[ptcb];
        delayTick[TCBnext[ptcb]] := (delayTick[TCBnext[ptcb]] + delayTick[ptcb]) % U32_SIZE;
        TCBprev[TCBnext[ptcb]] := NULL;
        TCBnext[ptcb] := NULL;
      } else if TCBnext[ptcb] == NULL {
        TCBnext[TCBprev[ptcb]] := NULL;
        TCBprev[ptcb] := NULL;
      } else {
        TCBnext[TCBprev[ptcb]] := TCBnext[ptcb];
        TCBprev[TCBnext[ptcb]] := TCBprev[ptcb];
        delayTick[TCBnext[ptcb]] := (delayTick[TCBnext[ptcb]] + delayTick[ptcb]) % U32_SIZE;
        TCBnext[ptcb] := NULL;
        TCBprev[ptcb] := NULL;
      }
    }

    method UnlinkSleep(ptcb: int, ghost k: nat)
      requires Linked() && k < |sleeping| && |sleeping| > 1 && ptcb == sleeping[k]
      modifies TCBnext, TCBprev, delayTick, this`DlyList, this`sleeping
      ensures Linked() && sleeping == RemoveAt(old(sleeping), k)
      ensures Delays() == Remove(old(Delays()), k)
      ensures forall j :: 0 <= j < delayTick.Length && j !in old(sleeping) ==> delayTick[j] == old(delayTick[j])
    {
      ghost var nx, pv, dh, cnt := TCBnext[..], TCBprev[..], DlyList, delayTick[..];
      WriteSleepOut(ptcb, k);
      assert k + 1 < |sleeping| ==> sleeping[k + 1] in sleeping;
      TaskLists.Swapped(nx, pv, TCBRdy, ready, dh, sleeping, FreeTCB, free, hand);
      TaskLists.UnlinkReady(nx, pv, TCBnext[..], TCBprev[..], dh, sleeping, TCBRdy, ready, FreeTCB, free, hand, k);
      EntriesRemove(sleeping, cnt, delayTick[..], k);
      sleeping := RemoveAt(sleeping, k);
      TaskLists.Swapped(TCBnext[..], TCBprev[..], DlyList, sleeping, TCBRdy, ready, FreeTCB, free, hand);
    }

    method DropSleep(ptcb: int)
      requires Linked() && ptcb in sleeping && TCBnext[ptcb] == NULL && TCBprev[ptcb] == NULL
      modifies this`DlyList, this`sleeping
      ensures Linked() && old(sleeping) == [ptcb] && sleeping == []
    {
      TaskLists.Swapped(TCBnext[..], TCBprev[..], TCBRdy, ready, DlyList, sleeping, FreeTCB, free, hand);
      TaskLists.DropOnly(TCBnext[..], TCBprev[..], DlyList, sleeping, TCBRdy, ready, FreeTCB, free, hand, ptcb);
      DlyList := NULL;
      sleeping := [];
      TaskLists.Swapped(TCBnext[..], TCBprev[..], DlyList, sleeping, TCBRdy, ready, FreeTCB, free, hand);
    }

    /** Takes a sleeping task off the delay list. */
    method Wake(ptcb: int)
      requires Linked() && ptcb in sleeping && Marked()
      modifies TCBnext, TCBprev, delayTick, this`DlyList, this`sleeping
      ensures Linked() && Marked() && Delays() == Remove(old(Delays()), IndexOf(old(sleeping), ptcb))
      ensures sleeping == RemoveAt(old(sleeping), IndexOf(old(sleeping), ptcb))
    {
      TakeOffSleep(ptcb);
      delayTick[ptcb] := INVALID_VALUE;
    }

    method TakeOffSleep(ptcb: int)
      requires Linked() && ptcb in sleeping
      modifies TCBnext, TCBprev, delayTick, this`DlyList, this`sleeping
      ensures Linked() && Delays() == Remove(old(Delays()), IndexOf(old(sleeping), ptcb)) && ptcb !in sleeping
      ensures sleeping == RemoveAt(old(sleeping), IndexOf(old(sleeping), ptcb))
      ensures forall x :: 0 <= x < delayTick.Length && x !in old(sleeping) ==> delayTick[x] == old(delayTick[x])
      ensures forall x :: x in old(sleeping) ==> x == ptcb || x in sleeping
    {
      ghost var k := IndexOf(sleeping, ptcb);
      RemoveDistinct(sleeping, k);
      assert LinkOk(TCBnext[..], TCBprev[..], sleeping, k);
      if TCBprev[ptcb] == NULL && TCBnext[ptcb] == NULL {
        DropSleep(ptcb);
      } else {
        UnlinkSleep(ptcb, k);
      }
    }

    method RemoveDelayList(ptcb: int)
      requires Linked() && Current() && ptcb in sleeping && Marked()
      modifies TCBnext, TCBprev, delayTick, this`DlyList, this`sleeping
      ensures Linked() && Marked() && State() == DlyRemove(old(State()), ptcb) && ptcb !in sleeping
    {
      RemoveDistinct(sleeping, IndexOf(sleeping, ptcb));
      Wake(ptcb);
    }

    method WriteHeadOut(h: int)
      requires Linked() && h == DlyList && h != NULL
      modifies TCBnext, TCBprev, delayTick, this`DlyList
      ensures LinkedOut(old(TCBnext[..]), old(TCBprev[..]), TCBnext[..], TCBprev[..], sleeping, 0)
      ensures DlyList == At(sleeping, 1) && delayTick[..] == old(delayTick[..])[h := INVALID_VALUE]
    {
      assert LinkOk(TCBnext[..], TCBprev[..], sleeping, 0);
      delayTick[h] := INVALID_VALUE;
      DlyList := TCBnext[h];
      TCBnext[h] := NULL;
      if DlyList != NULL {
        TCBprev[DlyList] := NULL;
      }
    }

    /** Takes the head off the delay list, which keeps its other entries. */
    method PopSleeper(h: int)
      requires Linked() && Marked() && h == DlyList && h != NULL
      modifies TCBnext, TCBprev, delayTick, this`DlyList, this`sleeping
      ensures Linked() && Marked() && OffAll(h) && Delays() == old(Delays())[1..]
    {
      ghost var nx, pv, dh := TCBnext[..], TCBprev[..], DlyList;
      WriteHeadOut(h);
      TaskLists.Swapped(nx, pv, TCBRdy, ready, dh, sleeping, FreeTCB, free, hand);
      TaskLists.UnlinkReady(nx, pv, TCBnext[..], TCBprev[..], dh, sleeping, TCBRdy, ready, FreeTCB, free, hand, 0);
      RemoveDistinct(sleeping, 0);
      sleeping := RemoveAt(sleeping, 0);
      TaskLists.Swapped(TCBnext[..], TCBprev[..], DlyList, sleeping, TCBRdy, ready, FreeTCB, free, hand);
    }

    /** The head, which is due, leaves the delay list. */
    method TakeSleeper(h: int)
      requires Linked() && Current() && Marked() && h == DlyList && h != NULL && delayTick[h] == 0
      modifies TCBnext, TCBprev, delayTick, this`DlyList, this`sleeping
      ensures Linked() && Marked() && OffAll(h)
      ensures State() == old(State()).(delay := old(State()).delay[1..])
    {
      PopSleeper(h);
    }

    method ReleaseHead(h: int, ghost done: K)
      requires Linked() && Current() && Marked() && h == DlyList && h != NULL && delayTick[h] == 0
      requires Releases(State(), done)
      modifies TCBnext, TCBprev, state, delayTick, this`DlyList, this`TCBRdy, this`ready, this`sleeping
      modifies this`TaskSchedReq, this`OSCheckTime
      ensures Linked() && Marked() && Releases(State(), done) && |sleeping| < |old(sleeping)|
      ensures old(InHand()) ==> InHand()
    {
      ghost var k := State();
      TakeSleeper(h);
      InsertToTCBRdyList(h);
      ReleasesStep(k, State(), done);
    }

    /** Moves every task that is due to the ready list, in the order of the delay list. */
    method TimeDispose()
      requires Linked() && Current() && Marked()
      modifies TCBnext, TCBprev, state, delayTick, this`DlyList, this`TCBRdy, this`ready, this`sleeping
      modifies this`TaskSchedReq, this`OSCheckTime
      ensures Linked() && Marked() && State() == Release(old(State()))
      ensures old(InHand()) ==> InHand()
    {
      ghost var done := Release(State());
      var dlyList := DlyList;
      while dlyList != NULL && delayTick[dlyList] == 0
        invariant Linked() && Current() && Marked() && dlyList == DlyList && Releases(State(), done)
        invariant old(InHand()) ==> InHand()
        decreases |sleeping|
      {
        ReleaseHead(dlyList, done);
        dlyList := DlyList;
      }
      ReleasesDone(State(), done);
    }

    // ----- the scheduler -----

    /** The head of the ready list is to run next: the current task has stopped running. */
    method GiveWay(pRdyTcb: int)
      requires Linked() && Current() && InHand() && pRdyTcb == TCBRdy && pRdyTcb != NULL
      modifies TCBnext, TCBprev, state, this`TCBRdy, this`ready, this`TCBNext, this`TaskSchedReq
      ensures Linked() && Current() && InHand() && State() == TakeOver(old(State()), pRdyTcb)
    {
      TaskSchedReq := false;
      TCBNext := pRdyTcb;
      assert pRdyTcb == ready[0];
      state[pRdyTcb] := RUNNING;
      RemoveFromTCBRdyList(pRdyTcb);
    }

    /** The current task becomes ready again; the head of the ready list stays on it for now. */
    method BackToReady(pCurTcb: int, pRdyTcb: int)
      requires Linked() && Current() && InHand() && pRdyTcb == TCBRdy && pRdyTcb != NULL
      requires pCurTcb == TCBRunning && OffAll(pCurTcb)
      modifies TCBnext, TCBprev, state, this`TCBRdy, this`ready, this`TCBNext, this`TaskSchedReq, this`OSCheckTime
      ensures Linked() && Current() && InHand() && pRdyTcb in ready
      ensures State() == RdyInsert(old(State()).(req := false, next := pRdyTcb), pCurTcb)
    {
      TaskSchedReq := false;
      TCBNext := pRdyTcb;
      InsertDistinct(ready, RdyPos(prio[..], ready, prio[pCurTcb]), pCurTcb);
      assert pRdyTcb == ready[0];
      InsertToTCBRdyList(pCurTcb);
    }

    /** The head of the ready list is to run next, and the current task becomes ready. */
    method Exchange(pCurTcb: int, pRdyTcb: int)
      requires Linked() && Current() && InHand() && pRdyTcb == TCBRdy && pRdyTcb != NULL
      requires pCurTcb == TCBRunning && OffAll(pCurTcb)
      modifies TCBnext, TCBprev, state, this`TCBRdy, this`ready, this`TCBNext, this`TaskSchedReq, this`OSCheckTime
      ensures Linked() && Current() && InHand() && State() == Preempt(old(State()), pRdyTcb)
    {
      BackToReady(pCurTcb, pRdyTcb);
      RemoveFromTCBRdyList(pRdyTcb);
      state[pRdyTcb] := RUNNING;
    }

    method FreshSlice()
      requires Linked() && Current() && TCBNext != NULL
      modifies this`OSCheckTime
      ensures State() == Slice(old(State()))
    {
      if TCBRdy != NULL && prio[TCBNext] == prio[TCBRdy] {
        OSCheckTime := OSTickCnt + timeSlice[TCBNext];
      }
    }

    /** The choice of the next task; without a change, only the request is taken back. */
    method Choose(pCurTcb: int, pRdyTcb: int) returns (changed: bool)
      requires Linked() && Current() && InHand() && pCurTcb == TCBRunning != NULL && pRdyTcb == TCBRdy != NULL
      requires state[pCurTcb] == RUNNING ==> OffAll(pCurTcb)
      modifies TCBnext, TCBprev, state, this`TCBRdy, this`ready, this`TCBNext, this`TaskSchedReq, this`OSCheckTime
      ensures Linked() && Current() && InHand() && (changed ==> TCBNext != NULL)
      ensures var k := old(State());
              changed == (k.st[pCurTcb] != RUNNING || k.prio[pRdyTcb] < k.prio[pCurTcb]
                          || (k.prio[pRdyTcb] == k.prio[pCurTcb] && k.check == k.tick))
              && State() == if !changed then k.(req := false)
                            else if k.st[pCurTcb] != RUNNING then TakeOver(k, pRdyTcb) else Preempt(k, pRdyTcb)
    {
      if state[pCurTcb] != RUNNING {
        GiveWay(pRdyTcb);
      } else if prio[pRdyTcb] < prio[pCurTcb] || (prio[pCurTcb] == prio[pRdyTcb] && OSCheckTime == OSTickCnt) {
        Exchange(pCurTcb, pRdyTcb);
      } else {
        TaskSchedReq := false;
        return false;
      }
      return true;
    }

    method Schedule()
      requires Linked() && Current() && InHand() && TCBRunning != NULL
      requires state[TCBRunning] == RUNNING ==> OffAll(TCBRunning)
      modifies TCBnext, TCBprev, state, this`TCBRdy, this`ready, this`TCBNext, this`TaskSchedReq, this`OSCheckTime
      ensures Linked() && Current() && InHand() && State() == TaskModel.Schedule(old(State()), OSSchedLock)
    {
      var pCurTcb := TCBRunning;
      var pRdyTcb := TCBRdy;
      if pRdyTcb == NULL || pCurTcb != TCBNext || OSSchedLock > 1 || OSIntNesting > 0 {
        return;
      }
      var changed := Choose(pCurTcb, pRdyTcb);
      if changed {
        FreshSlice();
      }
    }

    /** Does the disposal of due sleepers that was deferred, if one was. */
    method RespondSRQ()
      requires Linked() && Current() && Marked() && InHand()
      modifies TCBnext, TCBprev, state, delayTick, this`DlyList, this`TCBRdy, this`ready, this`sleeping
      modifies this`TaskSchedReq, this`OSCheckTime, this`TimeReq
      ensures Linked() && Marked() && InHand() && State() == Respond(old(State()))
    {
      if TimeReq {
        TimeDispose();
        TimeReq := false;
      }
    }

    method Reschedule()
      requires Linked() && Current() && InHand() && Sound(State())
      modifies TCBnext, TCBprev, state, this`TCBRdy, this`ready, this`TCBNext, this`TaskSchedReq, this`OSCheckTime
      ensures Linked() && Current() && InHand() && State() == Resched(old(State()), OSSchedLock)
    {
      if TaskSchedReq && TCBRunning != NULL {
        RunningOffLists(State());
        Schedule();
      }
    }

    method OsSchedUnlock()
      requires Linked() && Current() && Marked() && InHand() && Sound(State()) && OSSchedLock > 0
      modifies TCBnext, TCBprev, state, delayTick, this`DlyList, this`TCBRdy, this`ready, this`sleeping, this`TCBNext
      modifies this`TaskSchedReq, this`OSCheckTime, this`TimeReq, this`OSSchedLock
      ensures Linked() && Current() && Marked() && InHand() && State() == Unlock(old(State()))
    {
      if OSSchedLock == 1 {
        ghost var k1 := Responded(State());
        RespondSRQ();
        Reschedule();
        OSSchedLock := 0;
      } else {
        OSSchedLock := OSSchedLock - 1;
      }
    }

    // ----- the interface -----

    ghost predicate Valid()
      reads this, TCBnext, TCBprev, prio, timeSlice, state, delayTick
    {
      Linked() && Current() && Marked() && hand == {} && Sound(State())
    }

    /** What is done for a suspension while the scheduler is locked. */
    method SuspendTCB(ptcb: int)
      requires Linked() && Current() && Marked() && 0 <= ptcb < TCBnext.Length
      requires ptcb != TCBRunning ==> ptcb in ready || (ready == [] && OffAll(ptcb))
      modifies TCBnext, TCBprev, state, this`TCBRdy, this`ready, this`TaskSchedReq
      ensures Linked() && Marked() && State() == Suspended(old(State()), ptcb)
    {
      if ptcb != TCBRunning {
        RemoveFromTCBRdyList(ptcb);
      } else {
        TaskSchedReq := true;
      }
      state[ptcb] := WAITING;
    }

    /** Unlocks the scheduler after a change made under the lock. */
    method Leave(ghost d: K)
      requires Linked() && Current() && Marked() && hand == {} && Sound(State()) && OSSchedLock > 0
      requires d == Unlock(State()) && Sound(d)
      modifies this, TCBnext, TCBprev, state, delayTick
      ensures Valid() && State() == d
    {
      OsSchedUnlock();
    }

    method SuspendNow(taskID: nat)
      requires Valid() && Enabled(State(), Suspend(taskID)) && Suspendable(State(), taskID)
      modifies this, TCBnext, TCBprev, state, delayTick
      ensures Valid() && State() == Do(old(State()), Suspend(taskID))
    {
      ghost var r, d := SuspendLocked(State(), taskID);
      SuspendUnderLock(taskID);
      assert State() == r;
      Leave(d);
    }

    method SuspendUnderLock(ptcb: int)
      requires Linked() && Current() && Marked() && 0 <= ptcb < TCBnext.Length
      requires ptcb != TCBRunning ==> ptcb in ready || (ready == [] && OffAll(ptcb))
      modifies TCBnext, TCBprev, state, this`TCBRdy, this`ready, this`TaskSchedReq, this`OSSchedLock
      ensures Linked() && Marked() && State() == Suspended(old(State()).(lock := old(OSSchedLock) + 1), ptcb)
    {
      OSSchedLock := OSSchedLock + 1;
      SuspendTCB(ptcb);
    }

    method CoSuspendTask(taskID: nat) returns (s: Status)
      requires Valid() && Enabled(State(), Suspend(taskID))
      modifies this, TCBnext, TCBprev, state, delayTick
      ensures Valid() && State() == Do(old(State()), Suspend(taskID))
      ensures s == if taskID == 0 then E_PROTECTED_TASK
                   else if taskID >= TCBnext.Length || old(state[taskID]) == DORMANT then E_INVALID_ID
                   else if old(OSSchedLock) != 0 then E_OS_IN_LOCK
                   else if old(state[taskID]) == WAITING then E_ALREADY_IN_WAITING else E_OK
      ensures s == E_OK <==> Suspendable(old(State()), taskID)
    {
      if taskID == 0 {
        return E_PROTECTED_TASK;
      }
      if taskID >= TCBnext.Length {
        return E_INVALID_ID;
      }
      if state[taskID] == DORMANT {
        return E_INVALID_ID;
      }
      if OSSchedLock != 0 {
        return E_OS_IN_LOCK;
      }
      if state[taskID] == WAITING {
        return E_ALREADY_IN_WAITING;
      }
      SuspendNow(taskID);
      return E_OK;
    }

    method AwakeNow(taskID: nat)
      requires Valid() && Awakable(State(), taskID)
      modifies this, TCBnext, TCBprev, state, delayTick
      ensures Valid() && State() == Do(old(State()), Awake(taskID))
    {
      ghost var r, d := AwakeLocked(State(), taskID);
      ReadyUnderLock(taskID, r, d);
    }

    /** Makes a task ready with the scheduler locked, and unlocks it. */
    method ReadyUnderLock(id: int, ghost r: K, ghost d: K)
      requires Linked() && Current() && Marked() && hand == {} && OffAll(id)
      requires r == RdyInsert(State().(lock := OSSchedLock + 1), id) && Sound(r) && r.lock > 0
      requires d == Unlock(r) && Sound(d)
      modifies this, TCBnext, TCBprev, state, delayTick
      ensures Valid() && State() == d
    {
      OSSchedLock := OSSchedLock + 1;
      InsertToTCBRdyList(id);
      assert State() == r;
      Leave(d);
    }

    method CoAwakeTask(taskID: nat) returns (s: Status)
      requires Valid()
      modifies this, TCBnext, TCBprev, state, delayTick
      ensures Valid() && State() == Do(old(State()), Awake(taskID))
      ensures s == if taskID == 0 then E_PROTECTED_TASK
                   else if taskID >= TCBnext.Length || old(state[taskID]) == DORMANT then E_INVALID_ID
                   else if old(state[taskID]) != WAITING then E_TASK_NOT_WAITING
                   else if taskID in old(sleeping) then E_TASK_WAIT_OTHER else E_OK
      ensures s == E_OK <==> Awakable(old(State()), taskID)
    {
      if taskID == 0 {
        return E_PROTECTED_TASK;
      }
      if taskID >= TCBnext.Length {
        return E_INVALID_ID;
      }
      if state[taskID] == DORMANT {
        return E_INVALID_ID;
      }
      if state[taskID] != WAITING {
        return E_TASK_NOT_WAITING;
      }
      WaitingIsMarked(taskID);
      if delayTick[taskID] != INVALID_VALUE {
        return E_TASK_WAIT_OTHER;
      }
      AwakeNow(taskID);
      return E_OK;
    }

    /** The mark on the tick counter tells whether a waiting task sleeps. */
    lemma WaitingIsMarked(x: int)
      requires Valid() && 0 <= x < TCBnext.Length && state[x] == WAITING
      ensures delayTick[x] == INVALID_VALUE <==> x !in sleeping
      ensures OffLists(State(), x) <==> x !in sleeping
    {
      WaitingTask(State(), x);
      if x in sleeping {
        var i := IndexOf(sleeping, x);
        assert State().delay[i].delta == delayTick[x];
      }
    }

    /** Puts a task that is on no list in front of the free list. */
    method GiveFree(ptcb: int)
      requires Linked() && Marked() && OffAll(ptcb)
      modifies TCBnext, this`FreeTCB, this`free
      ensures Linked() && Marked() && free == [ptcb] + old(free)
    {
      TaskLists.GiveFree(TCBnext[..], TCBprev[..], TCBRdy, ready, DlyList, sleeping, FreeTCB, free, hand, ptcb);
      ghost var nx := TCBnext[..];
      TCBnext[ptcb] := FreeTCB;
      assert TCBnext[..] == nx[ptcb := FreeTCB];
      FreeTCB := ptcb;
      free := [ptcb] + free;
    }

    /** Task x is on the list that its state says, and the mark on its tick counter agrees. */
    ghost predicate Placed(x: int)
      reads `ready, `sleeping, `free, `hand, state, delayTick
    {
      && Tables() && 0 <= x < state.Length && x !in free && x !in hand
      && (x in ready ==> state[x] == READY) && (state[x] == READY ==> x in ready || ready == [])
      && (state[x] == WAITING ==> (delayTick[x] == INVALID_VALUE <==> x !in sleeping))
      && (x in sleeping ==> state[x] == WAITING)
    }

    /** Takes a task off the list that its state says. */
    method LeaveList(ptcb: int)
      requires Linked() && Current() && Marked() && Placed(ptcb)
      modifies TCBnext, TCBprev, delayTick, this`DlyList, this`TCBRdy, this`ready, this`sleeping
      ensures Linked() && Current() && Marked() && OffAll(ptcb)
      ensures var k := old(State());
              State() == if k.st[ptcb] == READY then RdyRemove(k, ptcb)
                  else if k.st[ptcb] == WAITING then DlyRemove(k, ptcb) else k
    {
      if state[ptcb] == READY {
        if ptcb in ready { RemoveDistinct(ready, IndexOf(ready, ptcb)); }
        RemoveFromTCBRdyList(ptcb);
      } else if state[ptcb] == WAITING {
        if delayTick[ptcb] != INVALID_VALUE {
          RemoveDelayList(ptcb);
        }
      }
    }

    /** What is done for a deletion while the scheduler is locked. */
    method DeleteTCB(ptcb: int)
      requires Linked() && Current() && Marked() && Placed(ptcb)
      modifies TCBnext, TCBprev, state, delayTick, this`DlyList, this`TCBRdy, this`ready, this`sleeping
      modifies this`FreeTCB, this`free, this`TaskSchedReq
      ensures Linked() && Current() && Marked() && State() == Deleted(old(State()), ptcb)
    {
      LeaveList(ptcb);
      state[ptcb] := DORMANT;
      TaskSchedReq := true;
      GiveFree(ptcb);
    }

    lemma TaskPlaced(x: int)
      requires Valid() && Deletable(State(), x) && DelHarmless(State(), x)
      ensures Placed(x)
    {
      OnItsList(State(), x);
      if x in sleeping {
        var i := IndexOf(sleeping, x);
        assert State().delay[i].delta == delayTick[x];
      }
    }

    method DeleteNow(taskID: nat)
      requires Valid() && Enabled(State(), Del(taskID)) && Deletable(State(), taskID)
      modifies this, TCBnext, TCBprev, state, delayTick
      ensures Valid() && State() == Do(old(State()), Del(taskID))
    {
      ghost var r, d := DeleteLocked(State(), taskID);
      TaskPlaced(taskID);
      DeletePlaced(taskID, r, d);
    }

    method DeletePlaced(ptcb: int, ghost r: K, ghost d: K)
      requires Linked() && Current() && Marked() && hand == {} && Placed(ptcb)
      requires r == Deleted(State().(lock := OSSchedLock + 1), ptcb) && Sound(r) && r.lock > 0
      requires d == Unlock(r) && Sound(d)
      modifies this, TCBnext, TCBprev, state, delayTick
      ensures Valid() && State() == d
    {
      DeleteUnderLock(ptcb);
      assert State() == r;
      Leave(d);
    }

    method DeleteUnderLock(ptcb: int)
      requires Linked() && Current() && Marked() && Placed(ptcb)
      modifies TCBnext, TCBprev, state, delayTick, this`DlyList, this`TCBRdy, this`ready, this`sleeping
      modifies this`FreeTCB, this`free, this`TaskSchedReq, this`OSSchedLock
      ensures Linked() && Current() && Marked()
      ensures State() == Deleted(old(State()).(lock := old(OSSchedLock) + 1), ptcb)
    {
      OSSchedLock := OSSchedLock + 1;
      DeleteTCB(ptcb);
    }

    method CoDelTask(taskID: nat) returns (s: Status)
      requires Valid() && Enabled(State(), Del(taskID))
      modifies this, TCBnext, TCBprev, state, delayTick
      ensures Valid() && State() == Do(old(State()), Del(taskID))
      ensures s == if taskID >= TCBnext.Length || old(state[taskID]) == DORMANT then E_INVALID_ID
                   else if taskID == 0 then E_PROTECTED_TASK
                   else if old(state[taskID]) == RUNNING && old(OSSchedLock) != 0 then E_OS_IN_LOCK else E_OK
      ensures s == E_OK <==> Deletable(old(State()), taskID)
    {
      if taskID >= TCBnext.Length {
        return E_INVALID_ID;
      }
      if state[taskID] == DORMANT {
        return E_INVALID_ID;
      }
      if taskID == 0 {
        return E_PROTECTED_TASK;
      }
      if state[taskID] == RUNNING {
        if OSSchedLock != 0 {
          return E_OS_IN_LOCK;
        }
      }
      DeleteNow(taskID);
      return E_OK;
    }

    method DelayNow(ticks: U32)
      requires Valid() && Enabled(State(), Delay(ticks)) && ticks > 0 && OSSchedLock == 0 && OSIntNesting == 0
      modifies this, TCBnext, TCBprev, state, delayTick
      ensures Valid() && State() == Do(old(State()), Delay(ticks))
    {
      ghost var r, d := DelayLocked(State(), ticks);
      OSSchedLock := OSSchedLock + 1;
      InsertDelayList(TCBRunning, ticks);
      assert State() == r;
      Leave(d);
    }

    method CoTickDelay(ticks: U32) returns (s: Status)
      requires Valid() && Enabled(State(), Delay(ticks))
      modifies this, TCBnext, TCBprev, state, delayTick
      ensures Valid() && State() == Do(old(State()), Delay(ticks))
      ensures s == if old(OSIntNesting) > 0 then E_CALL
                   else if ticks != 0 && old(OSSchedLock) != 0 then E_OS_IN_LOCK else E_OK
    {
      if OSIntNesting > 0 {
        return E_CALL;
      }
      if ticks == INVALID_VALUE {
        return E_INVALID_PARAMETER;
      }
      if ticks == 0 {
        return E_OK;
      }
      if OSSchedLock != 0 {
        return E_OS_IN_LOCK;
      }
      NestingKnown(State());
      DelayNow(ticks);
      return E_OK;
    }

    /** The delay list part of the tick interrupt. */
    method CountDown()
      requires Linked() && Current() && Marked()
      modifies TCBnext, TCBprev, state, delayTick, this`DlyList, this`TCBRdy, this`ready, this`sleeping
      modifies this`TaskSchedReq, this`OSCheckTime, this`TimeReq
      ensures Linked() && Current() && Marked() && State() == Count(old(State()))
    {
      if DlyList != NULL {
        ghost var k := State();
        if delayTick[DlyList] > 1 {
          delayTick[DlyList] := delayTick[DlyList] - 1;
        } else {
          delayTick[DlyList] := 0;
        }
        assert State() == k.(delay := Tick(k.delay));
        if delayTick[DlyList] == 0 {
          isr_TimeDispose();
        }
      }
    }

    method isr_TimeDispose()
      requires Linked() && Current() && Marked()
      modifies TCBnext, TCBprev, state, delayTick, this`DlyList, this`TCBRdy, this`ready, this`sleeping
      modifies this`TaskSchedReq, this`OSCheckTime, this`TimeReq
      ensures Linked() && Current() && Marked()
      ensures State() == if OSSchedLock > 1 then old(State()).(timeReq := true) else Release(old(State()))
    {
      if OSSchedLock > 1 {
        TimeReq := true;
      } else {
        TimeDispose();
      }
    }

    /** What the tick interrupt does while the scheduler is locked. */
    method TickUnderLock()
      requires Linked() && Current() && Marked()
      modifies TCBnext, TCBprev, state, delayTick, this`DlyList, this`TCBRdy, this`ready, this`sleeping
      modifies this`TaskSchedReq, this`OSCheckTime, this`TimeReq, this`OSSchedLock, this`OSTickCnt
      ensures Linked() && Current() && Marked() && State() == Counted(old(State())).(req := true)
    {
      CountOnce();
      TaskSchedReq := true;
    }

    method CountOnce()
      requires Linked() && Current() && Marked()
      modifies TCBnext, TCBprev, state, delayTick, this`DlyList, this`TCBRdy, this`ready, this`sleeping
      modifies this`TaskSchedReq, this`OSCheckTime, this`TimeReq, this`OSSchedLock, this`OSTickCnt
      ensures Linked() && Current() && Marked() && State() == Counted(old(State()))
    {
      Advance();
      CountDown();
    }

    method Advance()
      requires Linked() && Current() && Marked()
      modifies this`OSSchedLock, this`OSTickCnt
      ensures Linked() && Current() && Marked()
      ensures State() == old(State()).(lock := old(OSSchedLock) + 1, tick := old(OSTickCnt) + 1)
    {
      OSSchedLock := OSSchedLock + 1;
      OSTickCnt := OSTickCnt + 1;
    }

    method CoOS_SysTick_Handler()
      requires Valid()
      modifies this, TCBnext, TCBprev, state, delayTick
      ensures Valid() && State() == Do(old(State()), SysTick)
    {
      ghost var r, d := TickLocked(State());
      TickUnderLock();
      assert hand == {};
      Leave(d);
    }

    method CoSchedLock()
      requires Valid()
      modifies this`OSSchedLock
      ensures Valid() && State() == Do(old(State()), Lock)
    {
      ghost var d := Locked(State());
      OSSchedLock := OSSchedLock + 1;
      assert State() == d;
    }

    method CoSchedUnlock()
      requires Valid() && OSSchedLock > 0
      modifies this, TCBnext, TCBprev, state, delayTick
      ensures Valid() && State() == Do(old(State()), UnlockOp)
    {
      ghost var d := UnlockedSound(State());
      Leave(d);
    }

    method CoEnterISR()
      requires Valid()
      modifies this`OSIntNesting
      ensures Valid() && State() == Do(old(State()), EnterISR)
    {
      ghost var d := Entered(State());
      OSIntNesting := OSIntNesting + 1;
      assert State() == d;
    }

    method ScheduleOnExit()
      requires Linked() && Current() && Marked() && InHand() && Sound(State())
      modifies TCBnext, TCBprev, state, this`TCBRdy, this`ready, this`TCBNext, this`TaskSchedReq, this`OSCheckTime
      modifies this`OSSchedLock
      ensures Linked() && Current() && Marked() && State() == Resched(old(State()), old(OSSchedLock) + 1)
    {
      if TaskSchedReq {
        ghost var r := ExitLocked(State());
        LockSchedule(r);
        Reschedule();
        DropLock();
      }
    }

    method DropLock()
      requires Linked() && Current() && Marked()
      modifies this`OSSchedLock
      ensures Linked() && Current() && Marked() && State() == old(State()).(lock := old(OSSchedLock) - 1)
    {
      OSSchedLock := OSSchedLock - 1;
    }

    method LockSchedule(ghost r: K)
      requires Linked() && Current() && Marked() && InHand() && Sound(r) && r == State().(lock := OSSchedLock + 1)
      modifies this`OSSchedLock
      ensures Linked() && Current() && Marked() && InHand()
      ensures State() == r && Sound(State()) && OSSchedLock == old(OSSchedLock) + 1
    {
      OSSchedLock := OSSchedLock + 1;
    }

    method LeaveISR()
      requires Valid()
      modifies this`OSIntNesting
      ensures Linked() && Current() && Marked() && InHand() && hand == {}
      ensures State() == old(State()).(nesting := old(OSIntNesting) - 1)
    {
      OSIntNesting := OSIntNesting - 1;
    }

    method CoExitISR()
      requires Valid() && OSIntNesting > 0
      modifies this, TCBnext, TCBprev, state, delayTick
      ensures Valid() && State() == Do(old(State()), ExitISR)
    {
      ghost var r, d := ExitSound(State());
      LeaveISR();
      assert State() == r;
      if OSIntNesting == 0 {
        ScheduleOnExit();
      }
      assert State() == d;
    }

    /** The context switch: what was to run next is running. */
    method SwitchContext()
      requires Valid()
      modifies this`TCBRunning
      ensures Valid() && State() == Do(old(State()), Switch)
    {
      ghost var d := Switched(State());
      TCBRunning := TCBNext;
      assert State() == d;
    }

    method CoStartOS()
      requires Valid() && Enabled(State(), StartOS)
      modifies this, TCBnext, TCBprev, state, delayTick
      ensures Valid() && State() == Do(old(State()), StartOS)
    {
      ghost var r, d := StartLocked(State());
      RunIdle();
      assert State() == r;
      Leave(d);
    }

    /** Task 0 is running. */
    method RunIdle()
      requires Linked() && Current() && Marked() && hand == {} && 0 in ready
      modifies TCBnext, TCBprev, state, this`TCBRdy, this`ready, this`TCBRunning, this`TCBNext
      ensures Linked() && Current() && Marked() && State() == Idling(old(State()))
    {
      TCBRunning := 0;
      TCBNext := TCBRunning;
      state[TCBRunning] := RUNNING;
      RemoveFromTCBRdyList(TCBRunning);
    }

    /** Takes the first free task control block in hand. */
    method TakeFree() returns (ptcb: int)
      requires Linked() && Current() && Marked() && hand == {} && FreeTCB != NULL
      modifies this`FreeTCB, this`free, this`hand
      ensures Linked() && Marked() && ptcb == old(free)[0] && hand == {ptcb}
      ensures State() == old(State()).(free := old(free)[1..])
    {
      TaskLists.TakeFree(TCBnext[..], TCBprev[..], TCBRdy, ready, DlyList, sleeping, FreeTCB, free, hand);
      ptcb := FreeTCB;
      FreeTCB := TCBnext[FreeTCB];
      assert forall x :: x in free <==> x == ptcb || x in free[1..] by { assert free == [ptcb] + free[1..]; }
      free := free[1..];
      assert hand + {ptcb} == {ptcb};
      hand := {ptcb};
    }

    method AssignTCB() returns (ptcb: int)
      requires Valid()
      modifies this, TCBnext, TCBprev, state, delayTick
      ensures Linked() && Current() && Marked() && InHand() && Sound(State()) && State() == Do(old(State()), Assign)
      ensures ptcb == At(old(free), 0) && hand == if ptcb == NULL then {} else {ptcb}
    {
      ghost var r, d := AssignLocked(State());
      OSSchedLock := OSSchedLock + 1;
      if FreeTCB == NULL {
        ptcb := NULL;
      } else {
        ptcb := TakeFree();
      }
      assert State() == r;
      OsSchedUnlock();
      assert State() == d;
    }

    /** Sets up a task control block that was taken in hand. */
    method SetUp(ptcb: int, p: int, slice: int)
      requires Linked() && Current() && Marked() && hand == {ptcb} && 0 <= ptcb < TCBnext.Length
      modifies TCBnext, TCBprev, delayTick, prio, timeSlice, this`hand
      ensures Linked() && Current() && Marked() && hand == {}
      ensures var k := old(State()); State() == k.(prio := k.prio[ptcb := p], slice := k.slice[ptcb := slice])
    {
      ghost var nx, pv := TCBnext[..], TCBprev[..];
      TaskLists.SetUp(nx, pv, TCBRdy, ready, DlyList, sleeping, FreeTCB, free, hand, ptcb);
      prio[ptcb] := p;
      delayTick[ptcb] := INVALID_VALUE;
      TCBnext[ptcb] := NULL;
      TCBprev[ptcb] := NULL;
      timeSlice[ptcb] := slice;
      assert TCBnext[..] == nx[ptcb := NULL] && TCBprev[..] == pv[ptcb := NULL];
      assert hand - {ptcb} == {};
      hand := {};
    }

    /** What is done for a creation once a task control block is in hand. */
    method InitTCB(ptcb: int, p: int, slice: int, waiting: bool)
      requires Linked() && Current() && Marked() && hand == {ptcb} && Sound(State())
      requires Enabled(State(), Init(ptcb, p, slice, waiting))
      modifies this, TCBnext, TCBprev, state, delayTick, prio, timeSlice
      ensures Valid() && State() == Do(old(State()), Init(ptcb, p, slice, waiting))
    {
      ghost var k1, r, d := InitLocked(State(), ptcb, p, slice, waiting);
      SetUp(ptcb, p, slice);
      assert State() == k1;
      if !waiting {
        ReadyUnderLock(ptcb, r, d);
      } else {
        state[ptcb] := WAITING;
        assert State() == d;
      }
    }

    method CreateTask(p: int, slice: int, waiting: bool) returns (id: int)
      requires Valid()
      modifies this, TCBnext, TCBprev, state, delayTick, prio, timeSlice
      ensures Valid()
      ensures id == if p > CFG_LOWEST_PRIO then E_CREATE_FAIL else At(old(free), 0)
      ensures p > CFG_LOWEST_PRIO ==> State() == old(State())
      ensures p <= CFG_LOWEST_PRIO ==>
                var k := Do(old(State()), Assign);
                var op := Init(id, p, if slice == 0 then CFG_TIME_SLICE else slice, waiting);
                if id == E_CREATE_FAIL then State() == k else Enabled(k, op) && State() == Do(k, op)
    {
      if p > CFG_LOWEST_PRIO {
        return E_CREATE_FAIL;
      }
      id := AssignTCB();
      if id == NULL {
        return E_CREATE_FAIL;
      }
      InitTCB(id, p, if slice == 0 then CFG_TIME_SLICE else slice, waiting);
    }
  }

  /** The invariant of TaskModel, to be taken as a whole. */
  ghost predicate Sound(k: K) { Sized(k) && forall d: K :: d == k ==> Inv(d) }

  /** A change r made under the lock: the unlock that follows keeps the invariant. */
  lemma Unlocked(r: K) returns (d: K)
    requires Inv(r) && r.lock > 0
    ensures Sound(r) && d == Unlock(r) && Sound(d)
  {
    d := Unlock(r);
    UnlockInv(r);
  }

  lemma SuspendedLock(k: K, id: int, n: int)
    requires Sized(k) && 0 <= id < |k.st|
    ensures Suspended(k.(lock := n), id) == Suspended(k, id).(lock := n) && Suspended(k, id).lock == k.lock
  {
  }

  /** A change d that leaves the lock alone, made under the lock. */
  lemma Under(k: K, d: K) returns (r: K)
    requires Inv(d) && d.lock == k.lock
    ensures r == d.(lock := k.lock + 1) && Inv(r) && r.lock > 0 && Unlock(r) == Bracket(d)
  {
    r := d.(lock := k.lock + 1);
    LockInv(d);
  }

  lemma SuspendUnder(k: K, id: int) returns (r: K)
    requires Inv(k) && Enabled(k, Suspend(id)) && Suspendable(k, id)
    ensures r == Suspended(k.(lock := k.lock + 1), id) && Inv(r) && r.lock > 0 && Unlock(r) == Bracket(Suspended(k, id))
  {
    SuspendInv(k, id);
    SuspendedLock(k, id, k.lock + 1);
    r := Under(k, Suspended(k, id));
  }

  lemma SuspendLocked(k: K, id: int) returns (r: K, d: K)
    requires Sound(k) && Enabled(k, Suspend(id)) && Suspendable(k, id)
    ensures r == Suspended(k.(lock := k.lock + 1), id) && Sound(r) && r.lock > 0
    ensures d == Unlock(r) == Do(k, Suspend(id)) && Sound(d)
    ensures id != k.running ==> id in k.ready || (k.ready == [] && OffLists(k, id))
  {
    assert Inv(k);
    r := SuspendUnder(k, id);
    d := Unlocked(r);
  }

  lemma ReadyUnder(k: K, id: int) returns (r: K)
    requires Inv(k) && OffLists(k, id) && k.st[id] != RUNNING
    ensures r == RdyInsert(k.(lock := k.lock + 1), id) && Inv(r) && r.lock > 0 && Unlock(r) == Bracket(RdyInsert(k, id))
  {
    InsertSafe(k, id);
    r := RdyInsert(k.(lock := k.lock + 1), id);
    assert r == RdyInsert(k, id).(lock := k.lock + 1);
  }

  lemma AwakeLocked(k: K, id: int) returns (r: K, d: K)
    requires Sound(k) && Awakable(k, id)
    ensures OffLists(k, id) && r == RdyInsert(k.(lock := k.lock + 1), id) && Sound(r) && r.lock > 0
    ensures d == Unlock(r) == Do(k, Awake(id)) && Sound(d)
  {
    assert Inv(k);
    r := ReadyUnder(k, id);
    d := Unlocked(r);
  }

  lemma DeletedLock(k: K, id: int, n: int)
    requires Sized(k) && 0 <= id < |k.st|
    ensures Deleted(k.(lock := n), id) == Deleted(k, id).(lock := n) && Deleted(k, id).lock == k.lock
  {
  }

  lemma DeleteUnder(k: K, id: int) returns (r: K)
    requires Inv(k) && Deletable(k, id) && DelHarmless(k, id)
    ensures r == Deleted(k.(lock := k.lock + 1), id) && Inv(r) && r.lock > 0 && Unlock(r) == Bracket(Deleted(k, id))
  {
    DeleteInv(k, id);
    DeletedLock(k, id, k.lock + 1);
    r := Under(k, Deleted(k, id));
  }

  lemma DeleteLocked(k: K, id: int) returns (r: K, d: K)
    requires Sound(k) && Enabled(k, Del(id)) && Deletable(k, id)
    ensures r == Deleted(k.(lock := k.lock + 1), id) && Sound(r) && r.lock > 0
    ensures d == Unlock(r) == Do(k, Del(id)) && Sound(d)
  {
    assert Inv(k);
    r := DeleteUnder(k, id);
    d := Unlocked(r);
  }

  lemma OnItsList(k: K, x: int)
    requires Sound(k) && Deletable(k, x) && DelHarmless(k, x)
    ensures x !in k.free
    ensures (x in k.ready ==> k.st[x] == READY) && (k.st[x] == READY ==> x in k.ready || k.ready == [])
    ensures x in Ids(k.delay) ==> k.st[x] == WAITING
    ensures forall i :: 0 <= i < |k.delay| ==> k.delay[i].delta != INVALID_VALUE
  {
    assert Inv(k);
    forall i | 0 <= i < |k.delay|
      ensures k.delay[i].delta != INVALID_VALUE
    {
      DueMonotone(k.delay, i, |k.delay| - 1);
    }
  }

  lemma DelayUnder(k: K, ticks: U32) returns (r: K)
    requires Inv(k) && Enabled(k, Delay(ticks)) && ticks > 0 && k.lock == 0 && k.nesting == 0
    ensures r == DlyInsert(k.(lock := k.lock + 1), k.running, ticks) && Inv(r) && r.lock > 0
    ensures Unlock(r) == Do(k, Delay(ticks))
  {
    DlyInsertSized(k, k.running, ticks);
    DelayInv(k, k.running, ticks);
    DlyLock(k, k.running, ticks, k.lock + 1);
    r := Under(k, DlyInsert(k, k.running, ticks));
  }

  lemma DlyLock(k: K, id: int, ticks: U32, n: int)
    requires 0 <= id < |k.st|
    ensures DlyInsert(k.(lock := n), id, ticks) == DlyInsert(k, id, ticks).(lock := n)
    ensures DlyInsert(k, id, ticks).lock == k.lock
  {
  }

  lemma DelayLocked(k: K, ticks: U32) returns (r: K, d: K)
    requires Sound(k) && Enabled(k, Delay(ticks)) && ticks > 0 && k.lock == 0 && k.nesting == 0
    ensures OffLists(k, k.running) && r == DlyInsert(k.(lock := k.lock + 1), k.running, ticks) && Sound(r) && r.lock > 0
    ensures d == Unlock(r) == Do(k, Delay(ticks)) && Sound(d)
  {
    assert Inv(k);
    RunningOffLists(k);
    r := DelayUnder(k, ticks);
    d := Unlocked(r);
  }

  lemma NestingKnown(k: K)
    requires Sound(k)
    ensures k.nesting >= 0 && k.lock >= 0
  {
    assert Inv(k);
  }

  lemma TickLocked(k: K) returns (r: K, d: K)
    requires Sound(k)
    ensures r == Counted(k).(req := true) && Sound(r) && r.lock > 0
    ensures d == Unlock(r) == Do(k, SysTick) && Sound(d)
  {
    assert Inv(k);
    var k1 := CountedInv(k);
    r := Requested(k1);
    d := Unlocked(r);
  }

  lemma Locked(k: K) returns (d: K)
    requires Sound(k)
    ensures d == k.(lock := k.lock + 1) && Sound(d)
  {
    assert Inv(k);
    d := k.(lock := k.lock + 1);
    LockInv(k);
  }

  lemma UnlockedSound(k: K) returns (d: K)
    requires Sound(k) && k.lock > 0
    ensures d == Unlock(k) && Sound(d)
  {
    assert Inv(k);
    d := Unlocked(k);
  }

  lemma Entered(k: K) returns (d: K)
    requires Sound(k)
    ensures d == k.(nesting := k.nesting + 1) && Sound(d)
  {
    assert Inv(k);
    d := NestingInv(k, k.nesting + 1);
  }

  lemma ExitSound(k: K) returns (r: K, d: K)
    requires Sound(k) && k.nesting > 0
    ensures r == k.(nesting := k.nesting - 1) && Sound(r) && d == Exited(k) && Sound(d)
  {
    assert Inv(k);
    r := NestingInv(k, k.nesting - 1);
    d := Exited(k);
    ExitInv(k);
  }

  lemma SliceLock(k: K, n: int)
    requires Sized(k) && k.next >= 0
    ensures Slice(k.(lock := n)) == Slice(k).(lock := n)
  {
  }

  lemma TakeOverLock(k: K, rdy: int, n: int)
    requires Sized(k) && 0 <= rdy < |k.prio|
    ensures TakeOver(k.(lock := n), rdy) == TakeOver(k, rdy).(lock := n)
  {
  }

  lemma PreemptLock(k: K, rdy: int, n: int)
    requires Sized(k) && 0 <= rdy < |k.prio| && k.running >= 0
    ensures Preempt(k.(lock := n), rdy) == Preempt(k, rdy).(lock := n)
  {
    var k0 := k.(req := false, next := rdy);
    assert RdyInsert(k0.(lock := n), k.running) == RdyInsert(k0, k.running).(lock := n);
  }

  lemma TakenOverLock(k: K, rdy: int, n: int)
    requires Sized(k) && 0 <= rdy < |k.prio|
    ensures Slice(TakeOver(k.(lock := n), rdy)) == Slice(TakeOver(k, rdy)).(lock := n)
  {
    TakeOverLock(k, rdy, n);
    SliceLock(TakeOver(k, rdy), n);
  }

  lemma PreemptedLock(k: K, rdy: int, n: int)
    requires Sized(k) && 0 <= rdy < |k.prio| && k.running >= 0
    ensures Slice(Preempt(k.(lock := n), rdy)) == Slice(Preempt(k, rdy)).(lock := n)
  {
    PreemptLock(k, rdy, n);
    SliceLock(Preempt(k, rdy), n);
  }

  /** A schedule does not depend on the lock but through its argument. */
  lemma ScheduleLock(k: K, lock: int, n: int)
    requires Sized(k) && k.running >= 0
    ensures TaskModel.Schedule(k.(lock := n), lock) == TaskModel.Schedule(k, lock).(lock := n)
  {
    if !Refused(k, lock) {
      if k.st[k.running] != RUNNING {
        TakenOverLock(k, k.ready[0], n);
      } else {
        PreemptedLock(k, k.ready[0], n);
      }
    }
  }

  lemma ReschedLock(k: K, lock: int, n: int)
    requires Sized(k)
    ensures Resched(k.(lock := n), lock) == Resched(k, lock).(lock := n)
  {
    if k.req && k.running >= 0 { ScheduleLock(k, lock, n); }
  }

  lemma ExitLocked(k: K) returns (r: K)
    requires Sound(k)
    ensures r == k.(lock := k.lock + 1) && Sound(r) && Resched(r, r.lock).(lock := k.lock) == Resched(k, k.lock + 1)
  {
    r := Locked(k);
    ReschedLock(k, k.lock + 1, k.lock + 1);
    KeepsLock(k, k.lock + 1);
  }

  lemma KeepsLock(k: K, lock: int)
    requires Sized(k)
    ensures Resched(k, lock).lock == k.lock
  {
  }

  lemma Switched(k: K) returns (d: K)
    requires Sound(k)
    ensures d == k.(running := k.next) && Sound(d)
  {
    assert Inv(k);
    d := k.(running := k.next);
    SwitchInv(k);
  }

  lemma StartLocked(k: K) returns (r: K, d: K)
    requires Sound(k) && Enabled(k, StartOS)
    ensures r == Idling(k) && Sound(r) && r.lock > 0
    ensures d == Unlock(r) == Do(k, StartOS) && Sound(d)
  {
    assert Inv(k);
    r := StartUnder(k);
    d := Unlocked(r);
  }

  lemma AssignUnder(k: K) returns (r: K)
    requires Inv(k)
    ensures r == (if k.free == [] then k else k.(free := k.free[1..])).(lock := k.lock + 1) && Inv(r) && r.lock > 0
    ensures Unlock(r) == Assigned(k)
    ensures k.free != [] ==> k.st[k.free[0]] == DORMANT || k.st[k.free[0]] == READY
  {
    var k1 := k;
    if k.free != [] { k1 := TaskModel.TakeFree(k); }
    LockInv(k1);
    r := k1.(lock := k1.lock + 1);
  }

  lemma AssignLocked(k: K) returns (r: K, d: K)
    requires Sound(k)
    ensures r == (if k.free == [] then k else k.(free := k.free[1..])).(lock := k.lock + 1) && Sound(r) && r.lock > 0
    ensures d == Unlock(r) == Do(k, Assign) && Sound(d)
    ensures k.free != [] ==> k.st[k.free[0]] == DORMANT || k.st[k.free[0]] == READY
  {
    assert Inv(k);
    r := AssignUnder(k);
    d := Unlocked(r);
  }

  lemma InitLocked(k: K, id: int, p: int, slice: int, waiting: bool) returns (k1: K, r: K, d: K)
    requires Sound(k) && Enabled(k, Init(id, p, slice, waiting))
    ensures k1 == k.(prio := k.prio[id := p], slice := k.slice[id := slice]) && OffLists(k1, id)
    ensures d == Do(k, Init(id, p, slice, waiting)) && Sound(d)
    ensures !waiting ==> r == RdyInsert(k1.(lock := k1.lock + 1), id) && Sound(r) && r.lock > 0 && d == Unlock(r)
  {
    assert Inv(k);
    k1 := PrioInv(k, id, p, slice);
    r := ReadyUnder(k1, id);
    if waiting {
      InitInv(k, id, p, slice, waiting);
      d := Do(k, Init(id, p, slice, waiting));
    } else {
      d := Unlocked(r);
    }
  }

  lemma BootIs(n: nat, k: K)
    requires n > 0 && |k.st| == |k.prio| == |k.slice| == n && k.free == seq(n, i => i)
    requires forall j :: 0 <= j < n ==> k.prio[j] == 0 == k.slice[j] && k.st[j] == if j < n - 1 then DORMANT else READY
    requires k.ready == [] && k.delay == [] && k.running == k.next == NULL && k.lock == 1 && k.nesting == 0
    requires !k.req && !k.timeReq && k.tick == k.check == 0
    ensures k == Boot(n) && Sound(k)
  {
    BootInv(n);
    assert k.st == Boot(n).st && k.prio == Boot(n).prio && k.slice == Boot(n).slice;
  }

  lemma WaitingTask(k: K, x: int)
    requires Sound(k) && 0 <= x < |k.st| && k.st[x] == WAITING
    ensures x !in k.ready && x !in k.free
    ensures forall i :: 0 <= i < |k.delay| ==> k.delay[i].delta != INVALID_VALUE
  {
    assert Inv(k);
    forall i | 0 <= i < |k.delay|
      ensures k.delay[i].delta != INVALID_VALUE
    {
      DueMonotone(k.delay, i, |k.delay| - 1);
    }
  }

  lemma Responded(k: K) returns (r: K)
    requires Sound(k)
    ensures r == Respond(k) && Sound(r)
  {
    assert Inv(k);
    r := RespondInv(k);
  }

  lemma RunningOffLists(k: K)
    requires Sound(k) && k.running >= 0
    ensures Sized(k) && (k.st[k.running] == RUNNING ==> OffLists(k, k.running))
  {
    assert Inv(k);
  }

  /** Releasing what is due in k ends in done. */
  ghost predicate Releases(k: K, done: K)
  {
    Sized(k) && forall d: K :: d == k && Sized(d) ==> Release(d) == done
  }

  lemma ReleasesStep(k: K, r: K, done: K)
    requires Releases(k, done) && k.delay != [] && k.delay[0].delta == 0
    requires r == RdyInsert(k.(delay := k.delay[1..]), Ids(k.delay)[0])
    ensures Releases(r, done)
  {
    assert Release(k) == done;
  }

  lemma ReleasesDone(k: K, done: K)
    requires Releases(k, done) && (k.delay == [] || k.delay[0].delta != 0)
    ensures k == done
  {
    assert Release(k) == done;
  }
}
