/** The binary-scheduling form of the ready list: a sorted table of the priorities in use, for each the last ready
    task and a bit that says whether there is one.  It finds the place of a task without walking the list. */
module PrioIndex {
  import opened Links
  import opened ReadyBits
  import opened ReadyTable
  import TaskModel

  /** Where p is, or belongs, in an increasing table. */
  ghost predicate Slot(pri: seq<int>, p: int, k: int) {
    0 <= k <= |pri| && (forall i :: 0 <= i < k ==> pri[i] < p) && (forall i :: k <= i < |pri| ==> p <= pri[i])
  }

  /** What the bits are to say: those below n what they said, the others whether there is a ready task. */
  function Marks(info: seq<Word>, rdy: seq<int>, n: nat): (m: seq<bool>)
    requires |rdy| <= 32 * |info|
    ensures |m| == |rdy| && forall k: nat :: k < |rdy| ==> m[k] == if k < n then Marked(info, k)
            else rdy[k] != INVALID_ID
  {
    seq(|rdy|, k requires 0 <= k < |rdy| => if k < n then Marked(info, k) else rdy[k] != INVALID_ID)
  }

  /** b is a[..n] with the entries from k on moved up by one; entry k is free. */
  predicate MovedUp(a: seq<int>, b: seq<int>, k: nat, n: int) {
    |a| == |b| && k <= n < |a| && b[..k] == a[..k] && b[k + 1..n + 1] == a[k..n]
  }

  lemma MoveUp(a: seq<int>, b: seq<int>, k: nat, n: int, c: seq<int>)
    requires MovedUp(a, b, k, n) && k > 0 && c == b[k := b[k - 1]]
    ensures MovedUp(a, c, k - 1, n)
  {
    assert b[k - 1] == a[..k][k - 1];
    assert c[k..n + 1] == [b[k - 1]] + b[k + 1..n + 1];
  }

  lemma PutAt(a: seq<int>, b: seq<int>, k: nat, n: int, x: int, c: seq<int>)
    requires MovedUp(a, b, k, n) && c == b[k := x]
    ensures c[..n + 1] == InsertAt(a[..n], k, x)
  {
    assert c[..n + 1] == b[..k] + [x] + b[k + 1..n + 1];
  }

  /** b is a[..n] with the entries behind s up to k moved down by one; those behind k have not moved yet. */
  predicate MovedDown(a: seq<int>, b: seq<int>, s: nat, k: int, n: int) {
    |a| == |b| && s <= k < n <= |a| && b[..s] == a[..s] && b[s..k] == a[s + 1..k + 1] && b[k..n] == a[k..n]
  }

  lemma MoveDown(a: seq<int>, b: seq<int>, s: nat, k: int, n: int, c: seq<int>)
    requires MovedDown(a, b, s, k, n) && k + 1 < n && c == b[k := b[k + 1]]
    ensures MovedDown(a, c, s, k + 1, n)
  {
    assert b[k + 1] == b[k..n][1] == a[k + 1];
    assert c[s..k + 1] == b[s..k] + [b[k + 1]];
    assert c[k + 1..n] == b[k..n][1..];
  }

  lemma TakenOut(a: seq<int>, b: seq<int>, s: nat, n: int)
    requires MovedDown(a, b, s, n - 1, n)
    ensures b[..n - 1] == RemoveAt(a[..n], s)
  {
    assert b[..n - 1] == b[..s] + b[s..n - 1];
  }

  class ReadyIndex {
    const ActivePri: array<int>
    const TaskNumPerPri: array<int>
    const RdyTaskPri: array<int>
    const RdyTaskPriInfo: array<Word>
    var PriNum: int
    const TCBnext: array<int>
    const TCBprev: array<int>
    const prio: array<int>
    var TCBRdy: int
    var TaskSchedReq: bool
    ghost var ready: seq<int>
    ghost var tasks: set<int>

    ghost predicate Tables()
      reads `PriNum
    {
      && TaskNumPerPri.Length == RdyTaskPri.Length == ActivePri.Length < INVALID_ID
      && ActivePri != TaskNumPerPri && ActivePri != RdyTaskPri && TaskNumPerPri != RdyTaskPri
      && RdyTaskPriInfo as object != ActivePri && RdyTaskPriInfo as object != TaskNumPerPri
      && RdyTaskPriInfo as object != RdyTaskPri && RdyTaskPriInfo as object != prio
      && RdyTaskPriInfo as object != TCBnext && RdyTaskPriInfo as object != TCBprev
      && ActivePri.Length <= 32 * RdyTaskPriInfo.Length
      && 0 <= PriNum <= ActivePri.Length
      && TCBnext.Length == TCBprev.Length == prio.Length == ActivePri.Length
      && TCBnext != TCBprev && TCBnext != prio && TCBprev != prio
      && TCBnext != ActivePri && TCBnext != TaskNumPerPri && TCBnext != RdyTaskPri
      && TCBprev != ActivePri && TCBprev != TaskNumPerPri && TCBprev != RdyTaskPri
      && prio != ActivePri && prio != TaskNumPerPri && prio != RdyTaskPri
    }

    /** The ready list, in order of priority. */
    ghost predicate Listed()
      reads `PriNum, `TCBRdy, `ready, TCBnext, TCBprev, prio
    {
      && Tables()
      && Chain(TCBnext[..], TCBprev[..], TCBRdy, ready)
      && (forall x :: 0 <= x < TCBnext.Length && x !in ready ==> TCBnext[x] == NULL && TCBprev[x] == NULL)
      && TaskModel.Sorted(prio[..], ready)
    }

    /** The table for list q: the priorities in use, and for each how many tasks have it and the last ready one. */
    ghost predicate Tabled(q: seq<int>)
      reads `PriNum, `tasks, ActivePri, TaskNumPerPri, RdyTaskPri, prio
    {
      && Tables()
      && Indexed(ActivePri[..PriNum], TaskNumPerPri[..PriNum], RdyTaskPri[..PriNum], prio[..], q, tasks)
    }

    /** A bit of the map is set if and only if its priority has a ready task. */
    ghost predicate Mirrored()
      reads `PriNum, RdyTaskPri, RdyTaskPriInfo
    {
      && Tables()
      && forall k: nat :: k < PriNum ==> (Marked(RdyTaskPriInfo[..], k) <==> RdyTaskPri[k] != INVALID_ID)
    }

    ghost predicate Valid()
      reads this, TCBnext, TCBprev, prio, ActivePri, TaskNumPerPri, RdyTaskPri, RdyTaskPriInfo
    {
      Listed() && Tabled(ready) && Mirrored()
    }

    constructor (n: nat)
      requires n < INVALID_ID
      ensures Valid() && ready == [] && tasks == {} && prio.Length == n
      ensures fresh(ActivePri) && fresh(TaskNumPerPri) && fresh(RdyTaskPri) && fresh(RdyTaskPriInfo)
      ensures fresh(TCBnext) && fresh(TCBprev) && fresh(prio)
    {
      ActivePri := new int[n](_ => INVALID_ID);
      TaskNumPerPri := new int[n](_ => 0);
      RdyTaskPri := new int[n](_ => INVALID_ID);
      RdyTaskPriInfo := new Word[(n + 31) / 32](_ => ZERO);
      PriNum := 0;
      TCBnext := new int[n](_ => NULL);
      TCBprev := new int[n](_ => NULL);
      prio := new int[n](_ => 0);
      TCBRdy := NULL;
      TaskSchedReq := false;
      ready := [];
      tasks := {};
    }

    /** Binary search in the table of priorities. */
    method GetPriSeqNum(pri: int) returns (found: bool, seqNum: int)
      requires Tables() && Increasing(ActivePri[..PriNum])
      ensures Slot(ActivePri[..PriNum], pri, seqNum)
      ensures found <==> seqNum < PriNum && ActivePri[seqNum] == pri
    {
      var num := 0;
      seqNum := PriNum;
      while num != seqNum
        invariant 0 <= num <= seqNum <= PriNum
        invariant forall i :: 0 <= i < num ==> ActivePri[i] < pri
        invariant forall i :: seqNum <= i < PriNum ==> pri < ActivePri[i]
        decreases seqNum - num
      {
        var tmpNum := num;
        num := (num + seqNum) / 2;
        if pri == ActivePri[num] {
          return true, num;
        } else if pri < ActivePri[num] {
          seqNum := num;
          num := tmpNum;
        } else {
          num := num + 1;
        }
      }
      return false, num;
    }

    /** The greatest sequence number up to seqNum that is marked ready. */
    method GetRdyPriSeqNum(seqNum: nat) returns (r: int)
      requires Tables() && seqNum < ActivePri.Length
      ensures r == INVALID_ID || 0 <= r <= seqNum
      ensures HighestMark(RdyTaskPriInfo[..], seqNum, if r == INVALID_ID then -1 else r)
    {
      var i, j := seqNum / 32, seqNum % 32;
      while true
        invariant 0 <= i <= seqNum / 32 && j == if i == seqNum / 32 then seqNum % 32 else 31
        invariant forall k: nat :: 32 * i + j < k <= seqNum ==> !Marked(RdyTaskPriInfo[..], k)
        decreases i
      {
        var cnt := ScanWord(RdyTaskPriInfo[i], j);
        WordMarks(RdyTaskPriInfo[..], i, j, cnt);
        if cnt != -1 {
          return 32 * i + cnt;
        }
        if i == 0 {
          return INVALID_ID;
        }
        i, j := i - 1, 31;
      }
    }

    /** Rebuilds the bit map from sequence number seqNum on, keeping the bits below. */
    method PrioRemap(seqNum: nat)
      requires Tables() && seqNum <= PriNum && seqNum < ActivePri.Length
      modifies RdyTaskPriInfo
      ensures forall k: nat :: k < PriNum ==>
                (Marked(RdyTaskPriInfo[..], k) <==>
                 if k < seqNum then Marked(old(RdyTaskPriInfo[..]), k) else RdyTaskPri[k] != INVALID_ID)
    {
      ghost var rdy := RdyTaskPri[..PriNum];
      ghost var marks := Marks(RdyTaskPriInfo[..], rdy, seqNum);
      var j := seqNum / 32;
      var tmp := LowBits(seqNum % 32);
      tmp := And(tmp, RdyTaskPriInfo[j]);
      RemapStart(RdyTaskPriInfo[..], marks, seqNum);
      var i := seqNum;
      while i < PriNum
        invariant seqNum <= i <= PriNum && Mapped(RdyTaskPriInfo[..], j, tmp, marks, i)
        invariant if i == seqNum then j == seqNum / 32 else i > 32 * j
      {
        if i % 32 == 0 && i != seqNum {
          RemapFlush(RdyTaskPriInfo[..], j, tmp, marks, i);
          WriteWord(j, tmp);
          j := j + 1;
          tmp := ZERO;
        }
        tmp := NextMark(i, j, tmp, marks);
        i := i + 1;
      }
      RemapEnd(RdyTaskPriInfo[..], j, tmp, marks);
      WriteWord(j, tmp);
      assert RdyTaskPri[..PriNum] == rdy;
    }

    method NextMark(i: nat, j: nat, tmp: Word, ghost marks: seq<bool>) returns (v: Word)
      requires Tables() && i < PriNum == |marks| && i < 32 * j + 32 && marks[i] == (RdyTaskPri[i] != INVALID_ID)
      requires Mapped(RdyTaskPriInfo[..], j, tmp, marks, i)
      ensures Mapped(RdyTaskPriInfo[..], j, v, marks, i + 1)
    {
      RemapStep(RdyTaskPriInfo[..], j, tmp, marks, i);
      v := tmp;
      if RdyTaskPri[i] != INVALID_ID {
        v := Or(tmp, Ones(i % 32, 1));
      }
    }

    method WriteWord(j: nat, tmp: Word)
      requires j < RdyTaskPriInfo.Length
      modifies RdyTaskPriInfo
      ensures RdyTaskPriInfo[..] == old(RdyTaskPriInfo[..])[j := tmp]
    {
      RdyTaskPriInfo[j] := tmp;
    }

    method GetPrioSeqNumStatus(seqNum: nat) returns (b: bool)
      requires Tables() && seqNum < ActivePri.Length
      ensures b == Marked(RdyTaskPriInfo[..], seqNum)
    {
      TestBit(RdyTaskPriInfo[seqNum / 32], seqNum % 32);
      return And(RdyTaskPriInfo[seqNum / 32], Ones(seqNum % 32, 1)) != ZERO;
    }

    method SetPrioSeqNumStatus(seqNum: nat, isRdy: bool)
      requires Tables() && seqNum < ActivePri.Length
      modifies RdyTaskPriInfo
      ensures forall k: nat :: k < ActivePri.Length ==>
                (Marked(RdyTaskPriInfo[..], k) <==> if k == seqNum then isRdy else Marked(old(RdyTaskPriInfo[..]), k))
    {
      var tmp := RdyTaskPriInfo[seqNum / 32];
      SetBit(tmp, seqNum % 32);
      tmp := And(tmp, Not(Ones(seqNum % 32, 1)));
      SetBit(tmp, seqNum % 32);
      tmp := Or(tmp, if isRdy then Ones(seqNum % 32, 1) else ZERO);
      assert tmp == RdyTaskPriInfo[seqNum / 32][seqNum % 32 := isRdy];
      WriteWord(seqNum / 32, tmp);
    }

    // ----- the ready list -----

    /** The entry of the priority of a task t. */
    method FindEntry(pri: int, ghost t: int) returns (seqNum: nat)
      requires Tabled(ready) && t in tasks && pri == prio[t]
      ensures seqNum < PriNum && ActivePri[seqNum] == pri
    {
      var found, k := GetPriSeqNum(pri);
      SlotOf(ActivePri[..PriNum], pri, k);
      seqNum := k;
    }

    /** There is a ready task of t's priority: t goes behind the last one, and is now the last. */
    method BehindEquals(t: int, seqNum: nat) returns (ptcb: int, ghost pos: nat)
      requires Valid() && t in tasks && t !in ready
      requires seqNum < PriNum && ActivePri[seqNum] == prio[t] && RdyTaskPri[seqNum] != INVALID_ID
      modifies RdyTaskPri
      ensures 0 < pos <= |ready| && pos == TaskModel.RdyPos(prio[..], ready, prio[t]) && ptcb == ready[pos - 1]
      ensures Tabled(InsertAt(ready, pos, t)) && Mirrored()
    {
      ghost var pri, cnt, last := ActivePri[..PriNum], TaskNumPerPri[..PriNum], RdyTaskPri[..PriNum];
      assert Entered(pri, cnt, last, prio[..], ready, tasks, seqNum);
      ptcb := RdyTaskPri[seqNum];
      PlaceBehindEquals(prio[..], ready, prio[t], ptcb);
      pos := IndexOf(ready, ptcb) + 1;
      InsertIndexed(pri, cnt, last, prio[..], ready, tasks, t, seqNum, pos);
      RdyTaskPri[seqNum] := t;
      assert RdyTaskPri[..PriNum] == last[seqNum := t];
    }

    /** t is the first ready task of its priority: it goes behind the last one of the next higher priority that
        has one, or to the head. */
    method BehindHigher(t: int, seqNum: nat) returns (ptcb: int, ghost pos: nat)
      requires Valid() && t in tasks && t !in ready
      requires seqNum < PriNum && ActivePri[seqNum] == prio[t] && RdyTaskPri[seqNum] == INVALID_ID
      modifies RdyTaskPri, RdyTaskPriInfo
      ensures pos <= |ready| && pos == TaskModel.RdyPos(prio[..], ready, prio[t]) && ptcb == At(ready, pos - 1)
      ensures Tabled(InsertAt(ready, pos, t)) && Mirrored()
    {
      ghost var pri, cnt, last, pr := ActivePri[..PriNum], TaskNumPerPri[..PriNum], RdyTaskPri[..PriNum], prio[..];
      RdyTaskPri[seqNum] := t;
      assert RdyTaskPri[..PriNum] == last[seqNum := t];
      var rdyTaskSeqNum := GetRdyPriSeqNum(seqNum);
      ghost var r := if rdyTaskSeqNum == INVALID_ID then -1 else rdyTaskSeqNum;
      HighestLast(RdyTaskPriInfo[..], last, seqNum, r);
      pos := PlaceBehind(pri, cnt, last, pr, ready, tasks, r, seqNum);
      InsertIndexed(pri, cnt, last, pr, ready, tasks, t, seqNum, pos);
      SetPrioSeqNumStatus(seqNum, true);
      if rdyTaskSeqNum == INVALID_ID {
        ptcb := NULL;
      } else {
        ptcb := RdyTaskPri[rdyTaskSeqNum];
      }
    }

    /** InsertToTCBRdyList of the binary-scheduling form. */
    method NoteReady(t: int) returns (ptcb: int, ghost pos: nat)
      requires Valid() && t in tasks && t !in ready
      modifies RdyTaskPri, RdyTaskPriInfo
      ensures pos <= |ready| && pos == TaskModel.RdyPos(prio[..], ready, prio[t]) && ptcb == At(ready, pos - 1)
      ensures Tabled(InsertAt(ready, pos, t)) && Mirrored()
    {
      var seqNum := FindEntry(prio[t], t);
      var status := GetPrioSeqNumStatus(seqNum);
      if status {
        ptcb, pos := BehindEquals(t, seqNum);
      } else {
        ptcb, pos := BehindHigher(t, seqNum);
      }
    }

    method LinkHead(x: int)
      requires Listed() && 0 <= x < TCBnext.Length && x !in ready
      modifies TCBnext, TCBprev, this`TCBRdy
      ensures LinkedIn(old(TCBnext[..]), old(TCBprev[..]), TCBnext[..], TCBprev[..], ready, 0, x) && TCBRdy == x
    {
      assert ready != [] ==> LinkOk(TCBnext[..], TCBprev[..], ready, 0);
      if TCBRdy != NULL {
        TCBnext[x] := TCBRdy;
        TCBprev[TCBRdy] := x;
      }
      TCBRdy := x;
    }

    method LinkAfter(x: int, ptcb: int, ghost k: nat)
      requires Listed() && 0 <= x < TCBnext.Length && x !in ready && 0 < k <= |ready| && ptcb == ready[k - 1]
      modifies TCBnext, TCBprev
      ensures LinkedIn(old(TCBnext[..]), old(TCBprev[..]), TCBnext[..], TCBprev[..], ready, k, x)
    {
      assert LinkOk(TCBnext[..], TCBprev[..], ready, k - 1);
      var ptcbNext := TCBnext[ptcb];
      TCBnext[x] := ptcbNext;
      TCBnext[ptcb] := x;
      TCBprev[x] := ptcb;
      if ptcbNext != NULL {
        TCBprev[ptcbNext] := x;
      }
    }

    /** The list with x linked in where a walk would put it. */
    method LinkIn(x: int, ptcb: int, ghost k: nat)
      requires Listed() && 0 <= x < TCBnext.Length && x !in ready
      requires k <= |ready| && k == TaskModel.RdyPos(prio[..], ready, prio[x]) && ptcb == At(ready, k - 1)
      modifies TCBnext, TCBprev, this`TCBRdy, this`ready, this`TaskSchedReq
      ensures Listed() && ready == InsertAt(old(ready), k, x)
      ensures TaskSchedReq == (old(TaskSchedReq) || k == 0)
    {
      ghost var nx, pv, head := TCBnext[..], TCBprev[..], TCBRdy;
      if ptcb == NULL {
        TaskSchedReq := true;
        LinkHead(x);
      } else {
        LinkAfter(x, ptcb, k);
      }
      InsertChain(nx, pv, TCBnext[..], TCBprev[..], head, ready, k, x);
      InsertDistinct(ready, k, x);
      TaskModel.InsertSorted(prio[..], ready, x);
      ready := InsertAt(ready, k, x);
    }

    /** The insertion puts a task exactly where the walk of the plain form does, and asks for a schedule when that
        form does. */
    method InsertToTCBRdyList(t: int)
      requires Valid() && t in tasks && t !in ready
      modifies TCBnext, TCBprev, RdyTaskPri, RdyTaskPriInfo, this`TCBRdy, this`ready, this`TaskSchedReq
      ensures Valid()
      ensures var pos := TaskModel.RdyPos(prio[..], old(ready), prio[t]);
              ready == InsertAt(old(ready), pos, t) && TaskSchedReq == (old(TaskSchedReq) || pos == 0)
    {
      var ptcb, pos := NoteReady(t);
      LinkIn(t, ptcb, pos);
    }

    /** The writes that link out entry k of the ready list, and what the links tell about the last ready task of
        its priority: isChange, there is none left; otherwise the table entry is brought up to date. */
    method WriteOut(ptcb: int, seqNum: nat, ghost k: nat) returns (isChange: bool)
      requires Listed() && k < |ready| && ptcb == ready[k] && seqNum < PriNum
      requires RdyTaskPri[seqNum] != INVALID_ID
      modifies TCBnext, TCBprev, RdyTaskPri, this`TCBRdy
      ensures LinkedOut(old(TCBnext[..]), old(TCBprev[..]), TCBnext[..], TCBprev[..], ready, k)
      ensures TCBRdy == if k == 0 then At(ready, 1) else old(TCBRdy)
      ensures var after := LastAfter(prio[..], ready, k, old(RdyTaskPri[seqNum]));
              && (isChange <==> after == INVALID_ID)
              && RdyTaskPri[..] == if isChange then old(RdyTaskPri[..]) else old(RdyTaskPri[..])[seqNum := after]
    {
      isChange := false;
      assert LinkOk(TCBnext[..], TCBprev[..], ready, k);
      if TCBnext[ptcb] == NULL && TCBprev[ptcb] == NULL {
        TCBRdy := NULL;
        isChange := true;
      } else if TCBprev[ptcb] == NULL {
        TCBRdy := TCBnext[ptcb];
        TCBnext[ptcb] := NULL;
        TCBprev[TCBRdy] := NULL;
        if prio[TCBRdy] != prio[ptcb] {
          isChange := true;
        }
      } else if TCBnext[ptcb] == NULL {
        if prio[TCBprev[ptcb]] != prio[ptcb] {
          isChange := true;
        } else {
          RdyTaskPri[seqNum] := TCBprev[ptcb];
        }
        TCBnext[TCBprev[ptcb]] := NULL;
        TCBprev[ptcb] := NULL;
      } else {
        if prio[TCBprev[ptcb]] != prio[ptcb] && prio[TCBnext[ptcb]] != prio[ptcb] {
          isChange := true;
        } else if prio[TCBprev[ptcb]] == prio[ptcb] && prio[TCBnext[ptcb]] != prio[ptcb] {
          RdyTaskPri[seqNum] := TCBprev[ptcb];
        }
        TCBnext[TCBprev[ptcb]] := TCBnext[ptcb];
        TCBprev[TCBnext[ptcb]] := TCBprev[ptcb];
        TCBnext[ptcb] := NULL;
        TCBprev[ptcb] := NULL;
      }
    }

    /** Links entry k out of the ready list. */
    method LinkOut(ptcb: int, seqNum: nat, ghost k: nat) returns (isChange: bool)
      requires Listed() && k < |ready| && ptcb == ready[k] && seqNum < PriNum
      requires RdyTaskPri[seqNum] != INVALID_ID
      modifies TCBnext, TCBprev, RdyTaskPri, this`TCBRdy, this`ready
      ensures Listed() && ready == RemoveAt(old(ready), k)
      ensures var after := LastAfter(prio[..], old(ready), k, old(RdyTaskPri[seqNum]));
              && (isChange <==> after == INVALID_ID)
              && RdyTaskPri[..] == if isChange then old(RdyTaskPri[..]) else old(RdyTaskPri[..])[seqNum := after]
    {
      ghost var nx, pv, head := TCBnext[..], TCBprev[..], TCBRdy;
      isChange := WriteOut(ptcb, seqNum, k);
      RemoveChain(nx, pv, TCBnext[..], TCBprev[..], head, ready, k);
      RemoveDistinct(ready, k);
      TaskModel.RemoveSorted(prio[..], ready, k);
      ready := RemoveAt(ready, k);
    }

    /** The removal takes the task off the list and keeps the table and the bit map. */
    method RemoveFromTCBRdyList(ptcb: int)
      requires Valid() && ptcb in ready
      modifies TCBnext, TCBprev, RdyTaskPri, RdyTaskPriInfo, this`TCBRdy, this`ready
      ensures Valid() && ready == RemoveAt(old(ready), IndexOf(old(ready), ptcb))
    {
      var seqNum := FindEntry(prio[ptcb], ptcb);
      ghost var k := IndexOf(ready, ptcb);
      ghost var pri, cnt, last, q := ActivePri[..PriNum], TaskNumPerPri[..PriNum], RdyTaskPri[..PriNum], ready;
      LastKnown(pri, cnt, last, prio[..], q, tasks, seqNum, k);
      RemoveIndexed(pri, cnt, last, prio[..], q, tasks, seqNum, k);
      var isChange := LinkOut(ptcb, seqNum, k);
      if isChange {
        RdyTaskPri[seqNum] := INVALID_ID;
        SetPrioSeqNumStatus(seqNum, false);
      }
      assert RdyTaskPri[..PriNum] == last[seqNum := LastAfter(prio[..], q, k, last[seqNum])];
    }

    // ----- priorities that come into use and go out of use -----

    /** Moves the entries from seqNum on up by one. */
    method ShiftUp(seqNum: nat)
      requires Tables() && seqNum <= PriNum < ActivePri.Length
      modifies ActivePri, TaskNumPerPri, RdyTaskPri
      ensures MovedUp(old(ActivePri[..]), ActivePri[..], seqNum, PriNum)
      ensures MovedUp(old(TaskNumPerPri[..]), TaskNumPerPri[..], seqNum, PriNum)
      ensures MovedUp(old(RdyTaskPri[..]), RdyTaskPri[..], seqNum, PriNum)
    {
      var num: nat := PriNum;
      while num > seqNum
        invariant seqNum <= num <= PriNum
        invariant MovedUp(old(ActivePri[..]), ActivePri[..], num, PriNum)
        invariant MovedUp(old(TaskNumPerPri[..]), TaskNumPerPri[..], num, PriNum)
        invariant MovedUp(old(RdyTaskPri[..]), RdyTaskPri[..], num, PriNum)
      {
        ghost var ap, tn, rt := ActivePri[..], TaskNumPerPri[..], RdyTaskPri[..];
        ActivePri[num] := ActivePri[num - 1];
        TaskNumPerPri[num] := TaskNumPerPri[num - 1];
        RdyTaskPri[num] := RdyTaskPri[num - 1];
        MoveUp(old(ActivePri[..]), ap, num, PriNum, ActivePri[..]);
        MoveUp(old(TaskNumPerPri[..]), tn, num, PriNum, TaskNumPerPri[..]);
        MoveUp(old(RdyTaskPri[..]), rt, num, PriNum, RdyTaskPri[..]);
        num := num - 1;
      }
    }

    /** Moves the entries behind seqNum down by one. */
    method ShiftDown(seqNum: nat)
      requires Tables() && seqNum < PriNum
      modifies ActivePri, TaskNumPerPri, RdyTaskPri
      ensures MovedDown(old(ActivePri[..]), ActivePri[..], seqNum, PriNum - 1, PriNum)
      ensures MovedDown(old(TaskNumPerPri[..]), TaskNumPerPri[..], seqNum, PriNum - 1, PriNum)
      ensures MovedDown(old(RdyTaskPri[..]), RdyTaskPri[..], seqNum, PriNum - 1, PriNum)
    {
      var num := seqNum;
      while num < PriNum - 1
        invariant seqNum <= num <= PriNum - 1
        invariant MovedDown(old(ActivePri[..]), ActivePri[..], seqNum, num, PriNum)
        invariant MovedDown(old(TaskNumPerPri[..]), TaskNumPerPri[..], seqNum, num, PriNum)
        invariant MovedDown(old(RdyTaskPri[..]), RdyTaskPri[..], seqNum, num, PriNum)
      {
        ghost var ap, tn, rt := ActivePri[..], TaskNumPerPri[..], RdyTaskPri[..];
        ActivePri[num] := ActivePri[num + 1];
        TaskNumPerPri[num] := TaskNumPerPri[num + 1];
        RdyTaskPri[num] := RdyTaskPri[num + 1];
        MoveDown(old(ActivePri[..]), ap, seqNum, num, PriNum, ActivePri[..]);
        MoveDown(old(TaskNumPerPri[..]), tn, seqNum, num, PriNum, TaskNumPerPri[..]);
        MoveDown(old(RdyTaskPri[..]), rt, seqNum, num, PriNum, RdyTaskPri[..]);
        num := num + 1;
      }
    }

    /** Puts in entry seqNum for a priority without ready tasks. */
    method NewEntry(pri: int, seqNum: nat)
      requires Tables() && seqNum <= PriNum < ActivePri.Length
      modifies ActivePri, TaskNumPerPri, RdyTaskPri, this`PriNum
      ensures Tables() && PriNum == old(PriNum) + 1
      ensures ActivePri[..PriNum] == InsertAt(old(ActivePri[..PriNum]), seqNum, pri)
      ensures TaskNumPerPri[..PriNum] == InsertAt(old(TaskNumPerPri[..PriNum]), seqNum, 1)
      ensures RdyTaskPri[..PriNum] == InsertAt(old(RdyTaskPri[..PriNum]), seqNum, INVALID_ID)
    {
      ShiftUp(seqNum);
      ghost var ap, tn, rt := ActivePri[..], TaskNumPerPri[..], RdyTaskPri[..];
      ActivePri[seqNum] := pri;
      TaskNumPerPri[seqNum] := 1;
      RdyTaskPri[seqNum] := INVALID_ID;
      PutAt(old(ActivePri[..]), ap, seqNum, PriNum, pri, ActivePri[..]);
      PutAt(old(TaskNumPerPri[..]), tn, seqNum, PriNum, 1, TaskNumPerPri[..]);
      PutAt(old(RdyTaskPri[..]), rt, seqNum, PriNum, INVALID_ID, RdyTaskPri[..]);
      PriNum := PriNum + 1;
    }

    /** Takes out entry seqNum. */
    method DropEntry(seqNum: nat)
      requires Tables() && seqNum < PriNum
      modifies ActivePri, TaskNumPerPri, RdyTaskPri, this`PriNum
      ensures Tables() && PriNum == old(PriNum) - 1
      ensures ActivePri[..PriNum] == RemoveAt(old(ActivePri[..PriNum]), seqNum)
      ensures TaskNumPerPri[..PriNum] == RemoveAt(old(TaskNumPerPri[..PriNum]), seqNum)
      ensures RdyTaskPri[..PriNum] == RemoveAt(old(RdyTaskPri[..PriNum]), seqNum)
    {
      ShiftDown(seqNum);
      TakenOut(old(ActivePri[..]), ActivePri[..], seqNum, PriNum);
      TakenOut(old(TaskNumPerPri[..]), TaskNumPerPri[..], seqNum, PriNum);
      TakenOut(old(RdyTaskPri[..]), RdyTaskPri[..], seqNum, PriNum);
      PriNum := PriNum - 1;
    }

    /** A task t that was created brings its priority into use. */
    method ActiveTaskPri(pri: int, ghost t: int)
      requires Valid() && 0 <= t < prio.Length && t !in tasks && pri == prio[t]
      modifies ActivePri, TaskNumPerPri, RdyTaskPri, RdyTaskPriInfo, this`PriNum, this`tasks
      ensures Valid() && tasks == old(tasks) + {t}
    {
      ghost var ap, tn, rt := ActivePri[..PriNum], TaskNumPerPri[..PriNum], RdyTaskPri[..PriNum];
      RoomLeft(ap, tn, rt, prio[..], ready, tasks, t);
      var found, seqNum := GetPriSeqNum(pri);
      if !found {
        SlotBefore(ap, pri, seqNum);
        PutIn(ap, tn, rt, prio[..], ready, tasks, seqNum, t);
        tasks := tasks + {t};
        NewEntry(pri, seqNum);
        RemapNew(seqNum, rt);
      } else {
        CountUp(ap, tn, rt, prio[..], ready, tasks, seqNum, t);
        tasks := tasks + {t};
        TaskNumPerPri[seqNum] := TaskNumPerPri[seqNum] + 1;
        assert TaskNumPerPri[..PriNum] == tn[seqNum := tn[seqNum] + 1];
      }
    }

    /** A task that is being created gets its priority, which is brought into use. */
    method SetNewPrio(t: int, pri: int)
      requires Valid() && 0 <= t < prio.Length && t !in tasks
      modifies prio, ActivePri, TaskNumPerPri, RdyTaskPri, RdyTaskPriInfo, this`PriNum, this`tasks
      ensures Valid() && tasks == old(tasks) + {t} && prio[..] == old(prio[..])[t := pri]
    {
      ghost var pr := prio[..];
      PrioOfOther(ActivePri[..PriNum], TaskNumPerPri[..PriNum], RdyTaskPri[..PriNum], pr, ready, tasks, t, pri);
      prio[t] := pri;
      assert prio[..] == pr[t := pri];
      assert forall i :: 0 <= i < |ready| ==> ready[i] in ready;
      ActiveTaskPri(pri, t);
    }

    /** A task t that is deleted, and is not ready, takes its priority out of use when it was the last one. */
    method DeleteTaskPri(pri: int, ghost t: int)
      requires Valid() && t in tasks && t !in ready && pri == prio[t]
      modifies ActivePri, TaskNumPerPri, RdyTaskPri, RdyTaskPriInfo, this`PriNum, this`tasks
      ensures Valid() && tasks == old(tasks) - {t}
    {
      ghost var ap, tn, rt := ActivePri[..PriNum], TaskNumPerPri[..PriNum], RdyTaskPri[..PriNum];
      var seqNum := FindEntry(pri, t);
      assert Entered(ap, tn, rt, prio[..], ready, tasks, seqNum);
      TaskNumPerPri[seqNum] := TaskNumPerPri[seqNum] - 1;
      ghost var tn' := TaskNumPerPri[..PriNum];
      assert tn' == tn[seqNum := tn[seqNum] - 1];
      if TaskNumPerPri[seqNum] == 0 {
        TakeOut(ap, tn, rt, prio[..], ready, tasks, seqNum, t);
        assert RemoveAt(tn', seqNum) == RemoveAt(tn, seqNum);
        tasks := tasks - {t};
        DropEntry(seqNum);
        RemapNew(seqNum, rt);
      } else {
        CountDown(ap, tn, rt, prio[..], ready, tasks, seqNum, t);
        tasks := tasks - {t};
      }
    }

    /** Rebuilds the bit map after entries from seqNum on have moved. */
    method RemapNew(seqNum: nat, ghost rt: seq<int>)
      requires Tables() && seqNum <= PriNum && seqNum < ActivePri.Length && seqNum <= |rt| <= ActivePri.Length
      requires RdyTaskPri[..seqNum] == rt[..seqNum]
      requires forall k: nat :: k < |rt| ==> (Marked(RdyTaskPriInfo[..], k) <==> rt[k] != INVALID_ID)
      modifies RdyTaskPriInfo
      ensures Mirrored()
    {
      ghost var was := RdyTaskPriInfo[..];
      PrioRemap(seqNum);
      forall k: nat | k < PriNum
        ensures Marked(RdyTaskPriInfo[..], k) <==> RdyTaskPri[k] != INVALID_ID
      {
        if k < seqNum { assert RdyTaskPri[..seqNum][k] == rt[..seqNum][k]; }
      }
    }
  }

  lemma SlotBefore(pri: seq<int>, p: int, k: int)
    requires Increasing(pri) && Slot(pri, p, k) && !(k < |pri| && pri[k] == p)
    ensures forall i :: k <= i < |pri| ==> p < pri[i]
  {
  }

  /** The priority of a ready task has a last ready task. */
  lemma LastKnown(pri: seq<int>, cnt: seq<int>, last: seq<int>, prio: seq<int>, q: seq<int>, tasks: set<int>, s: int,
                  k: nat)
    requires Indexed(pri, cnt, last, prio, q, tasks) && 0 <= s < |pri| && k < |q| && pri[s] == prio[q[k]]
    ensures last[s] != INVALID_ID
  {
    assert Entered(pri, cnt, last, prio, q, tasks, s);
  }

  /** The place behind the last ready task of entry r, or at the head. */
  lemma PlaceBehind(pri: seq<int>, cnt: seq<int>, last: seq<int>, prio: seq<int>, q: seq<int>, tasks: set<int>,
                    r: int, s: int)
      returns (pos: nat)
    requires Indexed(pri, cnt, last, prio, q, tasks) && TaskModel.Sorted(prio, q) && 0 <= s < |pri|
    requires forall k :: 0 <= k <= s && r < k ==> last[k] == INVALID_ID
    requires r == -1 || (0 <= r < s && last[r] != INVALID_ID)
    ensures pos <= |q| && pos == TaskModel.RdyPos(prio, q, pri[s])
    ensures if r == -1 then pos == 0 else pos > 0 && q[pos - 1] == last[r]
    ensures forall j :: pos <= j < |q| ==> prio[q[j]] != pri[s]
  {
    if r == -1 {
      PlaceAtHead(pri, cnt, last, prio, q, tasks, s);
      pos := 0;
    } else {
      PlaceBehindLower(pri, cnt, last, prio, q, tasks, r, s);
      pos := IndexOf(q, last[r]) + 1;
    }
  }

  lemma SlotOf(pri: seq<int>, p: int, k: int)
    requires Increasing(pri) && Slot(pri, p, k) && p in pri
    ensures k < |pri| && pri[k] == p
  {
  }

  /** What the highest mark says about the last ready tasks. */
  lemma HighestLast(info: seq<Word>, last: seq<int>, s: nat, r: int)
    requires s < |last| <= 32 * |info| && HighestMark(info, s, r) && last[s] == INVALID_ID
    requires forall k: nat :: k < |last| ==> (Marked(info, k) <==> last[k] != INVALID_ID)
    ensures forall k :: 0 <= k <= s && r < k ==> last[k] == INVALID_ID
    ensures r != -1 ==> 0 <= r < s && last[r] != INVALID_ID
  {
    forall k | 0 <= k <= s && r < k
      ensures last[k] == INVALID_ID
    {
      assert !Marked(info, k);
    }
  }
}
