/** A mail queue in memory: the ring in its cells, the waiting tasks linked through their control blocks. */
module EventQueue {
  import opened Links
  import opened MailQueue
  import TaskModel

  datatype Status = E_OK | E_QUEUE_FULL | E_QUEUE_EMPTY | PENDING

  class Queue {
    const qStart: array<Mail>
    const waitNext: array<int>
    const waitPrev: array<int>
    const prio: array<int>
    const eventSortType: SortType
    var eventTCBList: int
    var head: int
    var tail: int
    var qSize: int
    ghost var waiting: seq<int>
    ghost var posted: seq<Mail>
    ghost var delivered: seq<Delivery>

    ghost predicate Tables() {
      && waitNext.Length == waitPrev.Length == prio.Length
      && waitNext != waitPrev && waitNext != prio && waitPrev != prio
      && qStart != waitNext && qStart != waitPrev && qStart != prio
    }

    /** The waiters, and no links on any other task. */
    ghost predicate Listed()
      reads `eventTCBList, `waiting, waitNext, waitPrev
    {
      && Tables()
      && Chain(waitNext[..], waitPrev[..], eventTCBList, waiting)
      && (forall x :: 0 <= x < waitNext.Length && x !in waiting ==> waitNext[x] == NULL && waitPrev[x] == NULL)
    }

    ghost function State(): Box
      reads this, qStart, prio
    {
      Box(eventSortType, prio[..], qStart[..], head, tail, qSize, waiting, posted, delivered)
    }

    ghost predicate Valid()
      reads this, qStart, waitNext, waitPrev, prio
    {
      Listed() && Exact(State())
    }

    /** An empty queue of so many mails, for tasks of the given priorities. */
    constructor (size: nat, prios: seq<int>, sortType: SortType)
      requires size > 0
      ensures Valid() && qStart.Length == size && prio[..] == prios && eventSortType == sortType
      ensures posted == [] && delivered == [] && waiting == []
      ensures fresh(qStart) && fresh(waitNext) && fresh(waitPrev) && fresh(prio)
    {
      qStart := new Mail[size](_ => 0);
      waitNext := new int[|prios|](_ => NULL);
      waitPrev := new int[|prios|](_ => NULL);
      prio := new int[|prios|](i requires 0 <= i < |prios| => prios[i]);
      eventSortType := sortType;
      eventTCBList, head, tail, qSize := NULL, 0, 0, 0;
      waiting, posted, delivered := [], [], [];
    }

    // ----- the list of waiters -----

    method LinkHead(x: int)
      requires Listed() && 0 <= x < waitNext.Length && x !in waiting
      modifies waitNext, waitPrev, this`eventTCBList
      ensures LinkedIn(old(waitNext[..]), old(waitPrev[..]), waitNext[..], waitPrev[..], waiting, 0, x)
              && eventTCBList == x
    {
      assert waiting != [] ==> LinkOk(waitNext[..], waitPrev[..], waiting, 0);
      var ptcb1 := eventTCBList;
      eventTCBList := x;
      if ptcb1 != NULL {
        waitNext[x] := ptcb1;
        waitPrev[ptcb1] := x;
      }
    }

    method LinkAfter(x: int, ptcb1: int, ptcb2: int, ghost k: nat)
      requires Listed() && 0 <= x < waitNext.Length && x !in waiting
      requires 0 < k <= |waiting| && ptcb1 == waiting[k - 1] && ptcb2 == At(waiting, k)
      modifies waitNext, waitPrev
      ensures LinkedIn(old(waitNext[..]), old(waitPrev[..]), waitNext[..], waitPrev[..], waiting, k, x)
    {
      assert LinkOk(waitNext[..], waitPrev[..], waiting, k - 1);
      waitNext[ptcb1] := x;
      waitPrev[x] := ptcb1;
      waitNext[x] := ptcb2;
      if ptcb2 != NULL {
        waitPrev[ptcb2] := x;
      }
    }

    /** The walk to the end of the list. */
    method FindLast() returns (ptcb1: int)
      requires Listed() && waiting != []
      ensures ptcb1 == waiting[|waiting| - 1]
    {
      ptcb1 := eventTCBList;
      ghost var k := 0;
      assert LinkOk(waitNext[..], waitPrev[..], waiting, 0);
      while waitNext[ptcb1] != NULL
        invariant 0 <= k < |waiting| && ptcb1 == waiting[k] && waitNext[ptcb1] == At(waiting, k + 1)
        decreases |waiting| - k
      {
        ptcb1 := waitNext[ptcb1];
        k := k + 1;
        assert LinkOk(waitNext[..], waitPrev[..], waiting, k);
      }
    }

    /** The walk by priority: behind ptcb1, before the first waiter of lower priority. */
    method FindPlace(p: int) returns (ptcb1: int, ptcb2: int, ghost k: nat)
      requires Listed() && waiting != [] && prio[waiting[0]] <= p
      ensures k == TaskModel.RdyPos(prio[..], waiting, p) && 0 < k <= |waiting|
      ensures ptcb1 == waiting[k - 1] && ptcb2 == At(waiting, k)
    {
      ptcb1 := eventTCBList;
      k := 1;
      assert LinkOk(waitNext[..], waitPrev[..], waiting, 0);
      ptcb2 := waitNext[ptcb1];
      while ptcb2 != NULL
        invariant 0 < k <= |waiting| && ptcb1 == waiting[k - 1] && ptcb2 == At(waiting, k)
        invariant forall j :: 0 <= j < k ==> prio[waiting[j]] <= p
        decreases |waiting| - k
      {
        if prio[ptcb2] > p {
          break;
        }
        assert LinkOk(waitNext[..], waitPrev[..], waiting, k);
        ptcb1 := ptcb2;
        ptcb2 := waitNext[ptcb2];
        k := k + 1;
      }
      TaskModel.RdyPosIs(prio[..], waiting, p, k);
    }

    /** The writes that put a task among the waiters. */
    method WriteIn(ptcb: int) returns (ghost k: nat)
      requires Listed() && 0 <= ptcb < waitNext.Length && ptcb !in waiting
      modifies waitNext, waitPrev, this`eventTCBList
      ensures k == WaitPos(State(), ptcb)
      ensures LinkedIn(old(waitNext[..]), old(waitPrev[..]), waitNext[..], waitPrev[..], waiting, k, ptcb)
      ensures eventTCBList == if k == 0 then ptcb else old(eventTCBList)
    {
      if eventTCBList == NULL {
        LinkHead(ptcb);
        k := 0;
      } else if eventSortType == FIFO {
        var ptcb1 := FindLast();
        k := |waiting|;
        LinkAfter(ptcb, ptcb1, NULL, k);
      } else if prio[eventTCBList] > prio[ptcb] {
        LinkHead(ptcb);
        k := 0;
      } else {
        var ptcb1, ptcb2, p := FindPlace(prio[ptcb]);
        k := p;
        LinkAfter(ptcb, ptcb1, ptcb2, k);
      }
    }

    method EventTaskToWait(ptcb: int)
      requires Listed() && 0 <= ptcb < waitNext.Length && ptcb !in waiting
      modifies waitNext, waitPrev, this`eventTCBList, this`waiting
      ensures Listed() && waiting == InsertAt(old(waiting), WaitPos(old(State()), ptcb), ptcb)
    {
      ghost var nx, pv, first := waitNext[..], waitPrev[..], eventTCBList;
      ghost var k := WriteIn(ptcb);
      InsertChain(nx, pv, waitNext[..], waitPrev[..], first, waiting, k, ptcb);
      InsertDistinct(waiting, k, ptcb);
      waiting := InsertAt(waiting, k, ptcb);
    }

    /** The writes that take a waiter off the list. */
    method WriteOut(ptcb: int, ghost k: nat)
      requires Listed() && k < |waiting| && ptcb == waiting[k]
      modifies waitNext, waitPrev, this`eventTCBList
      ensures LinkedOut(old(waitNext[..]), old(waitPrev[..]), waitNext[..], waitPrev[..], waiting, k)
      ensures eventTCBList == if k == 0 then At(waiting, 1) else old(eventTCBList)
    {
      assert LinkOk(waitNext[..], waitPrev[..], waiting, k);
      if waitNext[ptcb] == NULL && waitPrev[ptcb] == NULL {
        eventTCBList := NULL;
      } else if waitPrev[ptcb] == NULL {
        waitPrev[waitNext[ptcb]] := NULL;
        eventTCBList := waitNext[ptcb];
        waitNext[ptcb] := NULL;
      } else if waitNext[ptcb] == NULL {
        waitNext[waitPrev[ptcb]] := NULL;
        waitPrev[ptcb] := NULL;
      } else {
        waitNext[waitPrev[ptcb]] := waitNext[ptcb];
        waitPrev[waitNext[ptcb]] := waitPrev[ptcb];
        waitPrev[ptcb] := NULL;
        waitNext[ptcb] := NULL;
      }
    }

    method Unlink(ptcb: int, ghost k: nat)
      requires Listed() && k < |waiting| && ptcb == waiting[k]
      modifies waitNext, waitPrev, this`eventTCBList, this`waiting
      ensures Listed() && waiting == RemoveAt(old(waiting), k)
    {
      ghost var nx, pv, first := waitNext[..], waitPrev[..], eventTCBList;
      WriteOut(ptcb, k);
      RemoveChain(nx, pv, waitNext[..], waitPrev[..], first, waiting, k);
      RemoveDistinct(waiting, k);
      waiting := RemoveAt(waiting, k);
    }

    /** A waiter leaves the list because its time is over. */
    method RemoveEventWaittingList(ptcb: int)
      requires Valid() && ptcb in waiting
      modifies waitNext, waitPrev, this`eventTCBList, this`waiting
      ensures Valid() && State() == Do(old(State()), Timeout(ptcb)) && LeftLine(old(State()), State(), ptcb)
    {
      StepEffect(State(), Timeout(ptcb));
      Unlink(ptcb, IndexOf(waiting, ptcb));
    }

    // ----- mails -----

    /** The oldest mail leaves the ring for task t. */
    method Extract(t: int) returns (pmail: Mail)
      requires Tables() && Booked(State()) && qSize > 0
      modifies this`head, this`qSize, this`delivered
      ensures State() == TakeMail(old(State()), t) && pmail == qStart[old(head)]
    {
      pmail := qStart[head];
      head := head + 1;
      qSize := qSize - 1;
      if head == qStart.Length {
        head := 0;
      }
      delivered := delivered + [Delivery(t, pmail)];
    }

    /** The first waiter leaves the list. */
    method PopWaiter() returns (ptcb: int)
      requires Listed() && waiting != []
      modifies waitNext, waitPrev, this`eventTCBList, this`waiting
      ensures Listed() && waiting == old(waiting)[1..] && ptcb == old(waiting)[0]
    {
      ghost var nx, pv, first := waitNext[..], waitPrev[..], eventTCBList;
      assert LinkOk(nx, pv, waiting, 0);
      ptcb := eventTCBList;
      eventTCBList := waitNext[ptcb];
      if eventTCBList != NULL {
        waitPrev[eventTCBList] := NULL;
      }
      waitNext[ptcb] := NULL;
      RemoveChain(nx, pv, waitNext[..], waitPrev[..], first, waiting, 0);
      RemoveDistinct(waiting, 0);
      waiting := RemoveAt(waiting, 0);
    }

    method EventTaskToRdy()
      requires Listed() && Booked(State()) && qSize > 0
      modifies waitNext, waitPrev, this`eventTCBList, this`waiting, this`head, this`qSize, this`delivered
      ensures Listed() && State() == WakeFirst(old(State()))
    {
      if eventTCBList == NULL {
        return;
      }
      var ptcb := PopWaiter();
      var pmail := qStart[head];
      head := head + 1;
      qSize := qSize - 1;
      if head == qStart.Length {
        head := 0;
      }
      delivered := delivered + [Delivery(ptcb, pmail)];
    }

    method PutInRing(pmail: Mail)
      requires Listed() && Booked(State()) && qSize < qStart.Length
      modifies qStart, this`tail, this`qSize, this`posted
      ensures Listed() && State() == PutMail(old(State()), pmail)
    {
      ghost var was := qStart[..];
      qStart[tail] := pmail;
      assert qStart[..] == was[tail := pmail];
      tail := tail + 1;
      qSize := qSize + 1;
      if tail == qStart.Length {
        tail := 0;
      }
      posted := posted + [pmail];
    }

    method CoPostQueueMail(pmail: Mail) returns (s: Status)
      requires Valid()
      modifies this, qStart, waitNext, waitPrev
      ensures Valid() && State() == Do(old(State()), Post(pmail))
      ensures s == if old(qSize) == qStart.Length then E_QUEUE_FULL else E_OK
      ensures s == E_OK ==> posted == old(posted) + [pmail]
      ensures s == E_QUEUE_FULL ==> State() == old(State())
    {
      if qSize == qStart.Length {
        return E_QUEUE_FULL;
      }
      ghost var b := State();
      PostExact(b, pmail);
      ghost var c := PutBooked(b, pmail);
      PutInRing(pmail);
      EventTaskToRdy();
      return E_OK;
    }

    method CoAcceptQueueMail(task: int) returns (pmail: Mail, s: Status)
      requires Valid()
      modifies this`head, this`qSize, this`delivered
      ensures Valid() && State() == Do(old(State()), Accept(task))
      ensures s == (if old(qSize) != 0 then E_OK else E_QUEUE_EMPTY) && (s == E_OK ==> pmail == qStart[old(head)])
      ensures s == E_OK ==> delivered == old(delivered) + [Delivery(task, pmail)]
      ensures s == E_QUEUE_EMPTY ==> State() == old(State())
    {
      StepExact(State(), Accept(task));
      if qSize == 0 {
        return 0, E_QUEUE_EMPTY;
      }
      pmail := Extract(task);
      s := E_OK;
    }

    /** A mail at once if there is one; otherwise the task is put among the waiters. */
    method CoPendQueueMail(task: int) returns (pmail: Mail, s: Status)
      requires Valid() && 0 <= task < prio.Length && task !in waiting
      modifies this, waitNext, waitPrev
      ensures Valid() && State() == Do(old(State()), Pend(task))
      ensures s == (if old(qSize) != 0 then E_OK else PENDING) && (s == E_OK ==> pmail == qStart[old(head)])
      ensures s == E_OK ==> delivered == old(delivered) + [Delivery(task, pmail)] && waiting == old(waiting)
      ensures s == PENDING ==> delivered == old(delivered) && Joined(old(waiting), waiting, task)
    {
      StepEffect(State(), Pend(task));
      if qSize != 0 {
        pmail := Extract(task);
        return pmail, E_OK;
      }
      EventTaskToWait(task);
      return 0, PENDING;
    }
  }
}
