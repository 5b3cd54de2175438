/** One mutex in memory, with the priorities of the tasks and the links of those that wait. */
module MutexControl {
  import opened Links
  import opened Mutexes
  import TaskLists

  class Control {
    const prio: array<int>
    const TCBnext: array<int>
    var mutexFlag: bool
    var taskID: int
    var originalPrio: int
    var hipriTaskID: int
    var waittingList: int
    ghost var waiting: seq<int>

    ghost function State(): System
      reads this, prio
    {
      System(prio[..], [Mutex(mutexFlag, taskID, originalPrio, hipriTaskID, waiting)])
    }

    ghost predicate Listed()
      reads `waittingList, `waiting, TCBnext
    {
      TCBnext.Length == prio.Length && TCBnext != prio && TaskLists.FreeChain(TCBnext[..], waittingList, waiting)
    }

    /** The tasks that may use the mutex are those of `uses`; base holds the starting priorities. */
    ghost predicate Valid(base: seq<int>, uses: seq<int>)
      reads this, prio, TCBnext
    {
      Listed() && Lawful(State(), base, uses)
    }

    constructor (prios: seq<int>)
      ensures prio[..] == prios && TCBnext.Length == prio.Length && fresh(prio) && fresh(TCBnext)
      ensures !mutexFlag && waiting == [] && Listed()
    {
      prio := new int[|prios|](i requires 0 <= i < |prios| => prios[i]);
      TCBnext := new int[|prios|](_ => NULL);
      mutexFlag, taskID, originalPrio, hipriTaskID, waittingList := false, NULL, 0xff, NULL, NULL;
      waiting := [];
    }

    /** Puts t behind the last waiter. */
    method Append(t: int)
      requires Listed() && 0 <= t < TCBnext.Length && t !in waiting
      modifies TCBnext, this`waittingList, this`waiting
      ensures Listed() && waiting == old(waiting) + [t]
    {
      ghost var nx := TCBnext[..];
      TCBnext[t] := NULL;
      ghost var nx1 := TCBnext[..];
      TaskLists.FrameFree(nx, nx1, waittingList, waiting);
      var ptcb := waittingList;
      if ptcb == NULL {
        waittingList := t;
        assert TaskLists.NextOk(TCBnext[..], [t], 0);
      } else {
        ptcb := FindLast();
        TCBnext[ptcb] := t;
        Appended(nx1, TCBnext[..], waittingList, waiting, t);
      }
      waiting := waiting + [t];
    }

    method FindLast() returns (ptcb: int)
      requires Listed() && waiting != []
      ensures ptcb == waiting[|waiting| - 1]
    {
      ptcb := waittingList;
      ghost var k := 0;
      assert TaskLists.NextOk(TCBnext[..], waiting, 0);
      while TCBnext[ptcb] != NULL
        invariant 0 <= k < |waiting| && ptcb == waiting[k] && TCBnext[ptcb] == At(waiting, k + 1)
        decreases |waiting| - k
      {
        ptcb := TCBnext[ptcb];
        k := k + 1;
        assert TaskLists.NextOk(TCBnext[..], waiting, k);
      }
    }

    /** Takes the mutex, or waits for it and lends the owner its priority. */
    method CoEnterMutexSection(t: int, ghost base: seq<int>, ghost uses: seq<int>)
      requires Valid(base, uses) && Enabled(State(), uses, Enter(0, t))
      modifies this, prio, TCBnext
      ensures Valid(base, uses) && State() == Do(old(State()), uses, Enter(0, t))
    {
      ghost var s := State();
      StepLawful(s, base, uses, Enter(0, t));
      ghost var d := Do(s, uses, Enter(0, t));
      InLine(s.tbl[0], t);
      OwnerKnown(s, base, uses);
      if !mutexFlag {
        originalPrio := prio[t];
        taskID := t;
        hipriTaskID := t;
        mutexFlag := true;
      } else {
        if prio[taskID] > prio[t] {
          prio[taskID] := prio[t];
          hipriTaskID := t;
        }
        Append(t);
      }
      assert State() == d;
    }

    /** The highest priority among the waiters. */
    method FindHighest() returns (p: int)
      requires Listed() && waiting != []
      modifies this`hipriTaskID
      ensures p == Least(prio[..], waiting, prio[waiting[0]])
      ensures hipriTaskID == Lowest(prio[..], waiting, prio[waiting[0]], old(hipriTaskID))
    {
      var ptcb := waittingList;
      p := prio[ptcb];
      ghost var k := 0;
      ghost var pr, first, h := prio[..], p, hipriTaskID;
      while ptcb != NULL
        invariant 0 <= k <= |waiting| && ptcb == At(waiting, k)
        invariant Least(pr, waiting[k..], p) == Least(pr, waiting, first)
        invariant Lowest(pr, waiting[k..], p, hipriTaskID) == Lowest(pr, waiting, first, h)
        decreases |waiting| - k
      {
        assert TaskLists.NextOk(TCBnext[..], waiting, k) && waiting[k..][1..] == waiting[k + 1..];
        if prio[ptcb] < p {
          p := prio[ptcb];
          hipriTaskID := ptcb;
        }
        ptcb := TCBnext[ptcb];
        k := k + 1;
      }
    }

    /** The reset of a priority; the idle task, number 0, is protected. */
    method CoSetPriority(t: int, priority: int)
      requires 0 <= t < prio.Length
      modifies prio
      ensures prio[..] == if t == 0 then old(prio[..]) else old(prio[..])[t := priority]
    {
      if t == 0 {
        return;
      }
      if prio[t] != priority {
        prio[t] := priority;
      }
    }

    /** Takes the first waiter off the list. */
    method PopFirst() returns (ptcb: int)
      requires Listed() && waiting != []
      modifies TCBnext, this`waittingList, this`waiting
      ensures Listed() && waiting == old(waiting)[1..] && ptcb == old(waiting)[0]
    {
      ptcb := waittingList;
      TailChain(TCBnext[..], waittingList, waiting);
      waittingList := TCBnext[ptcb];
      ghost var nx := TCBnext[..];
      TCBnext[ptcb] := NULL;
      waiting := waiting[1..];
      TaskLists.FrameFree(nx, TCBnext[..], waittingList, waiting);
    }

    /** Passes the mutex on to the first waiter. */
    method PassOn()
      requires Listed() && waiting != [] && mutexFlag && 0 < taskID < prio.Length
      modifies this, prio, TCBnext
      ensures Listed() && InTable(Line(old(State()).tbl[0]), prio.Length)
      ensures var pr, x := old(prio[..]), old(State()).tbl[0];
              State() == System(pr[x.owner := x.original][x.waiting[0] := NextPrio(pr, x)], [Passed(pr, x)])
    {
      ghost var x := State().tbl[0];
      LineInTable(x, prio.Length);
      var id := taskID;
      var p;
      if hipriTaskID == id {
        p := FindHighest();
      } else {
        p := prio[id];
      }
      taskID := NULL;
      CoSetPriority(id, originalPrio);
      var ptcb := PopFirst();
      originalPrio := prio[ptcb];
      taskID := ptcb;
      prio[ptcb] := p;
    }

    /** Gives the mutex up, or to the first waiter. */
    method CoLeaveMutexSection(ghost base: seq<int>, ghost uses: seq<int>)
      requires Valid(base, uses) && Enabled(State(), uses, Leave(0))
      modifies this, prio, TCBnext
      ensures Valid(base, uses) && State() == Do(old(State()), uses, Leave(0))
    {
      OwnerKnown(State(), base, uses);
      ghost var d := LeftIs(State(), base, uses);
      if waittingList == NULL {
        mutexFlag := false;
        taskID := NULL;
      } else {
        PassOn();
      }
      assert State() == d;
    }
  }

  lemma LineInTable(x: Mutex, n: int)
    requires InTable(x.waiting, n) && 0 <= x.owner < n
    ensures InTable(Line(x), n)
  {
  }

  lemma TailChain(nx: seq<int>, head: int, q: seq<int>)
    requires TaskLists.FreeChain(nx, head, q) && q != []
    ensures head == q[0] && 0 <= head < |nx| && TaskLists.FreeChain(nx, nx[head], q[1..]) && q[0] !in q[1..]
  {
    assert TaskLists.NextOk(nx, q, 0);
    forall i | 0 <= i < |q| - 1
      ensures TaskLists.NextOk(nx, q[1..], i)
    {
      assert TaskLists.NextOk(nx, q, i + 1);
    }
  }

  lemma Appended(nx: seq<int>, nx': seq<int>, head: int, q: seq<int>, t: int)
    requires TaskLists.FreeChain(nx, head, q) && q != [] && 0 <= t < |nx| && t !in q && nx[t] == NULL
    requires nx' == nx[q[|q| - 1] := t]
    ensures TaskLists.FreeChain(nx', head, q + [t])
  {
    var r := q + [t];
    InsertDistinct(q, |q|, t);
    assert r == InsertAt(q, |q|, t);
    forall i | 0 <= i < |r|
      ensures TaskLists.NextOk(nx', r, i)
    {
      if i < |q| { assert TaskLists.NextOk(nx, q, i); }
      assert i < |q| - 1 ==> q[i] != q[|q| - 1];
    }
  }

  lemma InLine(x: Mutex, t: int)
    requires t !in Line(x)
    ensures t !in x.waiting && (x.occupied ==> t != x.owner)
  {
  }

  lemma LeftIs(s: System, base: seq<int>, uses: seq<int>) returns (d: System)
    requires Lawful(s, base, uses) && |s.tbl| == 1 && Enabled(s, uses, Leave(0))
    ensures Sized(s) && d == Do(s, uses, Leave(0)) && Lawful(d, base, uses)
    ensures var x, pr := s.tbl[0], s.prio;
            if x.waiting == [] then d == System(pr, [x.(occupied := false, owner := NULL)])
            else && InTable(Line(x), |pr|) && 0 <= x.owner < |pr| && 0 <= x.waiting[0] < |pr|
                 && d == System(pr[x.owner := x.original][x.waiting[0] := NextPrio(pr, x)], [Passed(pr, x)])
  {
    StepLawful(s, base, uses, Leave(0));
    WaitersInTable(s.tbl[0], |s.prio|);
    d := Do(s, uses, Leave(0));
  }

  lemma OwnerKnown(s: System, base: seq<int>, uses: seq<int>)
    requires Lawful(s, base, uses) && |s.tbl| == 1
    ensures s.tbl[0].occupied ==> 0 < s.tbl[0].owner < |s.prio|
  {
    assert Fair(s.prio, base, uses, 0, s.tbl[0]);
    if s.tbl[0].occupied {
      assert Line(s.tbl[0])[0] == s.tbl[0].owner;
      assert s.tbl[0].owner in Line(s.tbl[0]);
    }
  }
}
