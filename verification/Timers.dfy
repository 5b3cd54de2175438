/** The software timers: a table of timers whose running members form a delta list.  The ghost clock records
    what the list means; every method says which step of the clock it performs. */
module Timers {
  import opened DeltaList
  import opened DeltaClock
  import opened DeltaTable
  import opened Links

  datatype TmrType = ONE_SHOT | PERIODIC
  datatype TmrState = RUNNING | STOPPED
  datatype Status = E_OK | E_INVALID_ID

  lemma EntriesArmed(q: seq<int>, cnt: seq<U32>, id: int)
    requires InTable(q, |cnt|)
    ensures Armed(Entries(q, cnt), id) <==> id in q
  {
    var l := Entries(q, cnt);
    if id in q {
      var i :| 0 <= i < |q| && q[i] == id;
      assert l[i].id == id;
    }
    if Armed(l, id) {
      var i :| 0 <= i < |l| && l[i].id == id;
      assert q[i] == id;
    }
  }

  /** In terms of table indices: the due timers behind the head stay where they are. */
  lemma FiredIds(c: Clock, d: Clock, q: seq<int>, cnt: seq<U32>, r: seq<int>, cnt': seq<U32>)
    requires InTable(q, |cnt|) && c.l == Entries(q, cnt) && InTable(r, |cnt'|) && d.l == Entries(r, cnt')
    requires HeadFired(c, d) && DueNow(c.l, 0) > 0
    ensures var n := DueNow(c.l, 0); n <= |q| && n - 1 <= |r| && r[..n - 1] == q[1..n]
  {
    var n := DueNow(c.l, 0);
    forall i | 0 <= i < n - 1
      ensures r[i] == q[i + 1]
    {
      assert d.l[i].id == r[i] && c.l[i + 1].id == q[i + 1];
    }
  }

  /** Of the n timers at the front of q, those in `fired` have fired and the m others are at the front of r. */
  ghost predicate FiredSome(q: seq<int>, n: nat, fired: seq<int>, r: seq<int>, m: nat) {
    n <= |q| && m <= n && m <= |r| && m + |fired| == n && r[..m] == q[n - m..n] && fired == q[..n - m]
  }

  lemma FiredNext(q: seq<int>, n: nat, fired: seq<int>, r: seq<int>, m: nat, x: int, r': seq<int>)
    requires FiredSome(q, n, fired, r, m) && 0 < m && r[0] == x
    requires m - 1 <= |r'| && r'[..m - 1] == r[1..m]
    ensures FiredSome(q, n, fired + [x], r', m - 1)
  {
    assert r[..m][0] == q[n - m];
    assert r[1..m] == r[..m][1..];
  }

  class TimerTable {
    const tmrNext: array<int>
    const tmrPrev: array<int>
    const tmrCnt: array<U32>
    const tmrReload: array<U32>
    const tmrType: array<TmrType>
    const tmrState: array<TmrState>
    const tmrUsed: array<bool>
    var TmrList: int
    var TimerReq: bool
    ghost var ids: seq<int>
    ghost var clock: Clock

    ghost predicate Tables() {
      && tmrPrev.Length == tmrCnt.Length == tmrReload.Length == tmrNext.Length
      && tmrType.Length == tmrState.Length == tmrUsed.Length == tmrNext.Length
      && tmrNext != tmrPrev && tmrCnt != tmrReload
    }

    ghost predicate Linked()
      reads `TmrList, `ids, tmrNext, tmrPrev
    {
      && Tables()
      && Chain(tmrNext[..], tmrPrev[..], TmrList, ids)
      && (forall x :: 0 <= x < tmrNext.Length && x !in ids ==> tmrNext[x] == NULL && tmrPrev[x] == NULL)
    }

    ghost function List(): seq<Entry>
      requires Tables() && InTable(ids, tmrCnt.Length)
      reads `ids, tmrCnt
    {
      Entries(ids, tmrCnt[..])
    }

    /** Listed timers are in use and running, and the clock knows their reload values. */
    ghost predicate Running()
      reads `ids, `clock, tmrReload, tmrType, tmrState, tmrUsed
    {
      && Tables()
      && (forall x :: 0 <= x < tmrNext.Length && x in ids ==> tmrUsed[x] && tmrState[x] == RUNNING)
      && (forall x :: 0 <= x < tmrNext.Length && x in ids ==> x in clock.jobs && clock.jobs[x].reload == Reload(x))
    }

    /** The links, the delta list and the clock agree. */
    ghost predicate Valid()
      reads this, tmrNext, tmrPrev, tmrCnt, tmrReload, tmrType, tmrState, tmrUsed
    {
      && Linked() && Running()
      && Lawful(clock) && clock.l == List() && clock.pending == TimerReq
    }

    /** The reload value that counts: none for a one-shot timer. */
    ghost function Reload(x: int): U32
      requires Tables() && 0 <= x < tmrNext.Length
      reads tmrReload, tmrType
    {
      if tmrType[x] == PERIODIC then tmrReload[x] else 0
    }

    constructor (n: nat)
      ensures Valid() && fresh(tmrNext) && fresh(tmrPrev) && fresh(tmrCnt) && fresh(tmrReload) && fresh(tmrType)
      ensures fresh(tmrState) && fresh(tmrUsed) && tmrNext.Length == n
      ensures ids == [] && TmrList == NULL && Inv(clock) && clock.now == 0 && clock.log == []
      ensures forall x :: 0 <= x < n ==> !tmrUsed[x]
    {
      tmrNext := new int[n](_ => NULL);
      tmrPrev := new int[n](_ => NULL);
      tmrCnt := new U32[n](_ => 0);
      tmrReload := new U32[n](_ => 0);
      tmrType := new TmrType[n](_ => ONE_SHOT);
      tmrState := new TmrState[n](_ => STOPPED);
      tmrUsed := new bool[n](_ => false);
      TmrList := NULL;
      TimerReq := false;
      ids := [];
      clock := Clock(0, 0, false, [], map[], []);
    }

    // ----- the list -----

    /** Links x in before pTmr, at position k. */
    method LinkBefore(x: int, pTmr: int, ghost k: nat)
      requires Linked() && k < |ids| && pTmr == ids[k] && 0 <= x < tmrNext.Length && x !in ids
      modifies tmrNext, tmrPrev, this`TmrList, this`ids
      ensures Linked() && ids == InsertAt(old(ids), k, x)
      ensures tmrNext[x] == pTmr
    {
      ghost var nx, pv := tmrNext[..], tmrPrev[..];
      assert LinkOk(nx, pv, ids, k);
      if tmrPrev[pTmr] != NULL {
        tmrNext[tmrPrev[pTmr]] := x;
        tmrPrev[x] := tmrPrev[pTmr];
        tmrNext[x] := pTmr;
        tmrPrev[pTmr] := x;
      } else {
        tmrNext[x] := TmrList;
        tmrPrev[TmrList] := x;
        TmrList := x;
      }
      InsertChain(nx, pv, tmrNext[..], tmrPrev[..], old(TmrList), ids, k, x);
      InsertDistinct(ids, k, x);
      ids := InsertAt(ids, k, x);
    }

    /** deltaTicks < 0: x becomes due -deltaTicks ticks before pTmr, the entry at position k. */
    method InsertBefore(x: int, pTmr: int, deltaTicks: S32, ghost k: nat)
      requires Linked() && k < |ids| && pTmr == ids[k] && 0 <= x < tmrNext.Length && x !in ids
      modifies tmrNext, tmrPrev, tmrCnt, this`TmrList, this`ids
      ensures Linked() && ids == InsertAt(old(ids), k, x)
      ensures forall y :: y in ids <==> y in old(ids) || y == x
      ensures var l := old(List()); var delta := (l[k].delta + deltaTicks) % U32_SIZE;
              List() == InsertEntry(l, k, Entry(x, delta), (l[k].delta - delta) % U32_SIZE)
    {
      ghost var cnt := tmrCnt[..];
      InsertDistinct(ids, k, x);
      LinkBefore(x, pTmr, k);
      tmrCnt[x] := (tmrCnt[tmrNext[x]] + deltaTicks) % U32_SIZE;
      tmrCnt[tmrNext[x]] := (tmrCnt[tmrNext[x]] - tmrCnt[x]) % U32_SIZE;
      EntriesInsert(old(ids), cnt, tmrCnt[..], k, x, tmrCnt[pTmr]);
    }

    /** deltaTicks >= 0 at the end of the list: x is linked in after pTmr, the last entry. */
    method InsertLast(x: int, pTmr: int, deltaTicks: S32)
      requires Linked() && ids != [] && pTmr == ids[|ids| - 1] && 0 <= x < tmrNext.Length && x !in ids
      requires deltaTicks >= 0
      modifies tmrNext, tmrPrev, tmrCnt, this`ids
      ensures Linked() && ids == InsertAt(old(ids), |old(ids)|, x)
      ensures forall y :: y in ids <==> y in old(ids) || y == x
      ensures List() == old(List()) + [Entry(x, deltaTicks)]
    {
      ghost var nx, pv, cnt := tmrNext[..], tmrPrev[..], tmrCnt[..];
      tmrPrev[x] := pTmr;
      tmrNext[pTmr] := x;
      tmrCnt[x] := deltaTicks;
      InsertChain(nx, pv, tmrNext[..], tmrPrev[..], TmrList, ids, |ids|, x);
      InsertDistinct(ids, |ids|, x);
      EntriesInsert(ids, cnt, tmrCnt[..], |ids|, x, 0);
      ids := InsertAt(ids, |ids|, x);
    }

    /** The walk of the insertion, in signed 32-bit arithmetic: it stops before pTmr, or past the end. */
    method FindPlace(ticks: U32) returns (pTmr: int, deltaTicks: S32, ghost k: nat)
      requires Linked() && TmrList != NULL
      ensures k < |ids| && pTmr == ids[k] && (deltaTicks >= 0 ==> k == |ids| - 1)
      ensures Walk(List(), 0, ToS32(ticks)) == (if deltaTicks < 0 then k else |ids|, deltaTicks)
    {
      ghost var l := List();
      pTmr := TmrList;
      deltaTicks := ToS32(ticks);
      k := 0;
      ghost var start := deltaTicks;
      while true
        invariant 0 <= k < |ids| && pTmr == ids[k]
        invariant Walk(l, k, deltaTicks) == Walk(l, 0, start)
        decreases |ids| - k
      {
        assert LinkOk(tmrNext[..], tmrPrev[..], ids, k);
        assert l[k].delta == tmrCnt[pTmr];
        deltaTicks := ToS32(deltaTicks - tmrCnt[pTmr]);
        if deltaTicks < 0 || tmrNext[pTmr] == NULL {
          return;
        }
        pTmr := tmrNext[pTmr];
        k := k + 1;
      }
    }

    method InsertWalked(tmrID: int, ticks: U32)
      requires Linked() && 0 <= tmrID < tmrNext.Length && tmrID !in ids && TmrList != NULL
      modifies tmrNext, tmrPrev, tmrCnt, this`TmrList, this`ids
      ensures Linked()
      ensures List() == Insert(old(List()), tmrID, ticks)
      ensures forall x :: x in ids <==> x in old(ids) || x == tmrID
    {
      var pTmr, deltaTicks, k := FindPlace(ticks);
      if deltaTicks < 0 {
        InsertBefore(tmrID, pTmr, deltaTicks, k);
      } else {
        InsertLast(tmrID, pTmr, deltaTicks);
      }
    }

    method InsertTmrList(tmrID: int)
      requires Linked() && 0 <= tmrID < tmrNext.Length && tmrID !in ids
      modifies tmrNext, tmrPrev, tmrCnt, this`TmrList, this`ids
      ensures Linked()
      ensures if old(tmrCnt[tmrID]) == 0
              then ids == old(ids) && tmrCnt[..] == old(tmrCnt[..])
              else List() == Insert(old(List()), tmrID, old(tmrCnt[tmrID]))
      ensures forall x :: x in ids <==> x in old(ids) || (x == tmrID && old(tmrCnt[tmrID]) != 0)
    {
      var ticks := tmrCnt[tmrID];
      if ticks == 0 {
        return;
      }
      if TmrList == NULL {
        TmrList := tmrID;
        ids := [tmrID];
        return;
      }
      InsertWalked(tmrID, ticks);
    }

    /** The writes that link out a timer with a neighbour and give its ticks to the one after it. */
    method WriteOut(x: int, ghost k: nat)
      requires Linked() && k < |ids| && |ids| > 1 && x == ids[k]
      modifies tmrNext, tmrPrev, tmrCnt, this`TmrList
      ensures LinkedOut(old(tmrNext[..]), old(tmrPrev[..]), tmrNext[..], tmrPrev[..], ids, k)
      ensures TmrList == if k == 0 then ids[1] else old(TmrList)
      ensures forall j :: 0 <= j < tmrCnt.Length ==>
                tmrCnt[j] == if j == At(ids, k + 1) then (old(tmrCnt[j]) + old(tmrCnt[x])) % U32_SIZE
                    else old(tmrCnt[j])
    {
      assert LinkOk(tmrNext[..], tmrPrev[..], ids, k);
      if tmrPrev[x] == NULL {
        TmrList := tmrNext[x];
        tmrPrev[TmrList] := NULL;
        tmrCnt[tmrNext[x]] := (tmrCnt[tmrNext[x]] + tmrCnt[x]) % U32_SIZE;
        tmrNext[x] := NULL;
      } else if tmrNext[x] == NULL {
        tmrNext[tmrPrev[x]] := NULL;
        tmrPrev[x] := NULL;
      } else {
        tmrNext[tmrPrev[x]] := tmrNext[x];
        tmrPrev[tmrNext[x]] := tmrPrev[x];
        tmrCnt[tmrNext[x]] := (tmrCnt[tmrNext[x]] + tmrCnt[x]) % U32_SIZE;
        tmrNext[x] := NULL;
        tmrPrev[x] := NULL;
      }
    }

    method Unlink(x: int, ghost k: nat)
      requires Linked() && k < |ids| && |ids| > 1 && x == ids[k]
      modifies tmrNext, tmrPrev, tmrCnt, this`TmrList, this`ids
      ensures Linked() && ids == RemoveAt(old(ids), k)
      ensures List() == Remove(old(List()), k)
      ensures tmrCnt[x] == old(tmrCnt[x])
    {
      ghost var nx, pv, cnt := tmrNext[..], tmrPrev[..], tmrCnt[..];
      WriteOut(x, k);
      RemoveChain(nx, pv, tmrNext[..], tmrPrev[..], old(TmrList), ids, k);
      RemoveDistinct(ids, k);
      EntriesRemove(ids, cnt, tmrCnt[..], k);
      ids := RemoveAt(ids, k);
    }

    /** Takes a timer off the list.  The first test also succeeds for a timer that is on no list: then the
        kernel drops the whole list. */
    method RemoveTmrList(tmrID: int)
      requires Linked() && 0 <= tmrID < tmrNext.Length
      modifies tmrNext, tmrPrev, tmrCnt, this`TmrList, this`ids
      ensures tmrID in old(ids) ==>
                && Linked() && ids == RemoveAt(old(ids), IndexOf(old(ids), tmrID))
                && List() == Remove(old(List()), IndexOf(old(ids), tmrID))
                && tmrCnt[tmrID] == old(tmrCnt[tmrID]) && tmrID !in ids
      ensures forall x :: x in ids ==> x in old(ids)
      ensures tmrID !in old(ids) ==>
                TmrList == NULL && ids == old(ids)
                && tmrNext[..] == old(tmrNext[..]) && tmrPrev[..] == old(tmrPrev[..]) && tmrCnt[..] == old(tmrCnt[..])
    {
      if tmrPrev[tmrID] == NULL && tmrNext[tmrID] == NULL {
        TmrList := NULL;
        ghost var listed := tmrID in ids;
        if listed {
          OnlyEntry(tmrNext[..], tmrPrev[..], old(TmrList), ids, tmrID);
          ids := [];
        }
      } else {
        ghost var k := IndexOf(ids, tmrID);
        assert LinkOk(tmrNext[..], tmrPrev[..], ids, k);
        RemoveDistinct(ids, k);
        Unlink(tmrID, k);
      }
    }

    // ----- the interface -----

    /** The first unused timer is set up and left stopped; -1 when all are in use. */
    method CoCreateTmr(kind: TmrType, cnt: U32, reload: U32) returns (id: int)
      requires Valid()
      modifies tmrNext, tmrPrev, tmrCnt, tmrReload, tmrType, tmrState, tmrUsed
      ensures Valid() && List() == old(List())
      ensures id == -1 <==> forall x :: 0 <= x < tmrUsed.Length ==> old(tmrUsed[x])
      ensures id != -1 ==>
                && 0 <= id < tmrUsed.Length && !old(tmrUsed[id]) && (forall x :: 0 <= x < id ==> old(tmrUsed[x]))
                && tmrUsed[..] == old(tmrUsed[..])[id := true] && tmrState[..] == old(tmrState[..])[id := STOPPED]
                && tmrCnt[..] == old(tmrCnt[..])[id := cnt] && tmrReload[..] == old(tmrReload[..])[id := reload]
                && tmrType[..] == old(tmrType[..])[id := kind]
    {
      id := 0;
      while id < tmrUsed.Length
        invariant 0 <= id <= tmrUsed.Length
        invariant forall x :: 0 <= x < id ==> tmrUsed[x]
      {
        if !tmrUsed[id] {
          break;
        }
        id := id + 1;
      }
      if id == tmrUsed.Length {
        return -1;
      }
      InitTimer(id, kind, cnt, reload);
    }

    method InitTimer(id: int, kind: TmrType, cnt: U32, reload: U32)
      requires Valid() && 0 <= id < tmrUsed.Length && !tmrUsed[id]
      modifies tmrNext, tmrPrev, tmrCnt, tmrReload, tmrType, tmrState, tmrUsed
      ensures Valid() && List() == old(List())
      ensures tmrUsed[..] == old(tmrUsed[..])[id := true] && tmrState[..] == old(tmrState[..])[id := STOPPED]
      ensures tmrCnt[..] == old(tmrCnt[..])[id := cnt] && tmrReload[..] == old(tmrReload[..])[id := reload]
      ensures tmrType[..] == old(tmrType[..])[id := kind]
    {
      ghost var nx, pv := tmrNext[..], tmrPrev[..];
      tmrUsed[id] := true;
      tmrType[id] := kind;
      tmrState[id] := STOPPED;
      tmrCnt[id] := cnt;
      tmrReload[id] := reload;
      tmrPrev[id] := NULL;
      tmrNext[id] := NULL;
      assert tmrNext[..] == nx && tmrPrev[..] == pv;
    }

    method Arming(tmrID: int, ghost d: Clock)
      requires Valid() && 0 <= tmrID < tmrCnt.Length && tmrID !in ids
      requires tmrUsed[tmrID] && tmrState[tmrID] == RUNNING && tmrCnt[tmrID] != 0
      requires Lawful(d) && d.l == Insert(clock.l, tmrID, tmrCnt[tmrID]) && d.pending == clock.pending
      requires d.jobs.Keys == clock.jobs.Keys + {tmrID} && d.jobs[tmrID].reload == Reload(tmrID)
      requires forall x :: x in clock.jobs && x != tmrID ==> d.jobs[x] == clock.jobs[x]
      modifies tmrNext, tmrPrev, tmrCnt, this`TmrList, this`ids, this`clock
      ensures Valid() && clock == d
    {
      InsertTmrList(tmrID);
      clock := d;
    }

    /** Puts a running timer on the list, unless its count is 0. */
    method PutOn(tmrID: int)
      requires Valid() && 0 <= tmrID < tmrCnt.Length && tmrID !in ids
      requires tmrUsed[tmrID] && tmrState[tmrID] == RUNNING
      requires tmrCnt[tmrID] < S32_LIMIT && Reload(tmrID) < S32_LIMIT
      modifies tmrNext, tmrPrev, tmrCnt, this`TmrList, this`ids, this`clock
      ensures Valid()
      ensures clock == if old(tmrCnt[tmrID]) == 0 then old(clock)
              else Arm(old(clock), tmrID, old(tmrCnt[tmrID]), Reload(tmrID))
      ensures old(tmrCnt[tmrID]) == 0 ==> tmrCnt[..] == old(tmrCnt[..])
    {
      if tmrCnt[tmrID] == 0 {
        InsertTmrList(tmrID);
        return;
      }
      EntriesArmed(ids, tmrCnt[..], tmrID);
      ArmLawful(clock, tmrID, tmrCnt[tmrID], Reload(tmrID));
      Arming(tmrID, Arm(clock, tmrID, tmrCnt[tmrID], Reload(tmrID)));
    }

    /** Starting a stopped timer arms it for its count; a count of 0 leaves it off the list. */
    method CoStartTmr(tmrID: nat) returns (s: Status)
      requires Valid()
      requires tmrID < tmrCnt.Length ==> tmrCnt[tmrID] < S32_LIMIT && Reload(tmrID) < S32_LIMIT
      modifies tmrNext, tmrPrev, tmrCnt, tmrState, this`TmrList, this`ids, this`clock
      ensures Valid()
      ensures s == E_OK <==> tmrID < tmrCnt.Length && tmrUsed[tmrID]
      ensures clock == if s == E_OK && old(tmrState[tmrID]) == STOPPED && old(tmrCnt[tmrID]) > 0
                       then Step(old(clock), Start(tmrID, old(tmrCnt[tmrID]),
                                                   if tmrType[tmrID] == PERIODIC then tmrReload[tmrID] else 0))
                       else old(clock)
      ensures tmrState[..] == if s == E_OK then old(tmrState[..])[tmrID := RUNNING] else old(tmrState[..])
      ensures clock == old(clock) ==> tmrCnt[..] == old(tmrCnt[..])
    {
      if tmrID >= tmrCnt.Length {
        return E_INVALID_ID;
      }
      if !tmrUsed[tmrID] {
        return E_INVALID_ID;
      }
      if tmrState[tmrID] == RUNNING {
        return E_OK;
      }
      tmrState[tmrID] := RUNNING;
      PutOn(tmrID);
      return E_OK;
    }

    lemma FindIsIndex(q: seq<int>, cnt: seq<U32>, x: int)
      requires InTable(q, |cnt|)
      ensures Find(Entries(q, cnt), x, 0) == IndexOf(q, x)
    {
      var l, i, j := Entries(q, cnt), Find(Entries(q, cnt), x, 0), IndexOf(q, x);
      assert i < |l| ==> l[i].id == q[i];
      assert j < |q| ==> l[j].id == q[j];
    }

    /** Timer x has no neighbours and is not the head of the list, but there is a list: to RemoveTmrList it looks
        like the only entry. */
    predicate Severs(x: int)
      requires Tables() && 0 <= x < tmrNext.Length
      reads `TmrList, tmrNext, tmrPrev
    {
      tmrPrev[x] == NULL && tmrNext[x] == NULL && TmrList != NULL && TmrList != x
    }

    lemma SeversIff(x: int)
      requires Linked() && 0 <= x < tmrNext.Length
      ensures Severs(x) <==> x !in ids && ids != []
    {
      if x in ids {
        var k := IndexOf(ids, x);
        assert LinkOk(tmrNext[..], tmrPrev[..], ids, k);
      }
    }

    /** The clock without timer x. */
    lemma Disarmed(x: int) returns (d: Clock)
      requires Valid()
      ensures d == Disarm(clock, x) && Lawful(d) && d.jobs == clock.jobs && d.pending == clock.pending
      ensures if x in ids
              then d.l == Remove(clock.l, IndexOf(ids, x))
              else d == clock
    {
      d := Disarm(clock, x);
      FindIsIndex(ids, tmrCnt[..], x);
      if x in ids { RemoveLawful(clock, IndexOf(ids, x)); }
    }

    ghost method SetClock(d: Clock)
      requires Linked() && Running() && Lawful(d) && d.l == List() && d.pending == TimerReq && d.jobs == clock.jobs
      modifies this`clock
      ensures Valid() && clock == d
    {
      clock := d;
    }

    /** Takes a timer off the list, if it is on it. */
    method TakeOff(x: int)
      requires Valid() && 0 <= x < tmrNext.Length
      modifies tmrNext, tmrPrev, tmrCnt, this`TmrList, this`ids, this`clock
      ensures tmrCnt[x] == old(tmrCnt[x])
      ensures x in old(ids) ==>
                && Valid() && clock == Disarm(old(clock), x) && clock.l == Remove(old(clock).l, IndexOf(old(ids), x))
                && ids == RemoveAt(old(ids), IndexOf(old(ids), x)) && x !in ids
      ensures x !in old(ids) ==>
                TmrList == NULL && ids == old(ids) && clock == old(clock)
                && tmrNext[..] == old(tmrNext[..]) && tmrPrev[..] == old(tmrPrev[..]) && tmrCnt[..] == old(tmrCnt[..])
    {
      ghost var listed := x in ids;
      ghost var d := Disarmed(x);
      RemoveTmrList(x);
      if listed { SetClock(d); }
    }

    /** Marks a timer stopped; one that is off the list may be. */
    method MarkStopped(x: int)
      requires 0 <= x < tmrState.Length
      modifies tmrState
      ensures tmrState[..] == old(tmrState[..])[x := STOPPED]
      ensures old(Valid()) && x !in ids ==> Valid()
    {
      tmrState[x] := STOPPED;
    }

    method StopRunning(tmrID: int)
      requires Valid() && 0 <= tmrID < tmrNext.Length
      modifies tmrNext, tmrPrev, tmrCnt, tmrState, this`TmrList, this`ids, this`clock
      ensures tmrState[..] == old(tmrState[..])[tmrID := STOPPED]
      ensures tmrCnt[tmrID] == old(tmrCnt[tmrID])
      ensures !old(Severs(tmrID)) ==> Valid() && clock == Disarm(old(clock), tmrID)
      ensures old(Severs(tmrID)) ==>
                !Valid() && TmrList == NULL && ids == old(ids) && ids != [] && clock == old(clock)
                && tmrNext[..] == old(tmrNext[..]) && tmrPrev[..] == old(tmrPrev[..]) && tmrCnt[..] == old(tmrCnt[..])
    {
      SeversIff(tmrID);
      EntriesArmed(ids, tmrCnt[..], tmrID);
      TakeOff(tmrID);
      MarkStopped(tmrID);
    }

    /** Stopping a running timer disarms it and changes nothing else, if and only if it does not look like the only
        entry of the list.  If it does, because it runs off the list (its count or its reload value was 0) while
        others are listed, the head of the list is lost and with it every listed timer, still marked running. */
    method CoStopTmr(tmrID: nat) returns (s: Status)
      requires Valid()
      modifies tmrNext, tmrPrev, tmrCnt, tmrState, this`TmrList, this`ids, this`clock
      ensures s == E_OK <==> tmrID < tmrCnt.Length && tmrUsed[tmrID]
      ensures tmrState[..] == if s == E_OK then old(tmrState[..])[tmrID := STOPPED] else old(tmrState[..])
      ensures s == E_INVALID_ID || old(tmrState[tmrID]) == STOPPED ==>
              Valid() && clock == old(clock) && tmrCnt[..] == old(tmrCnt[..])
      ensures s == E_OK && old(tmrState[tmrID]) == RUNNING ==>
                (Valid() && clock == Step(old(clock), Stop(tmrID)) <==> !old(Severs(tmrID)))
                   && tmrCnt[tmrID] == old(tmrCnt[tmrID])
      ensures s == E_OK && old(tmrState[tmrID]) == RUNNING && old(Severs(tmrID)) ==>
                TmrList == NULL && ids == old(ids) && ids != [] && clock == old(clock)
    {
      if tmrID >= tmrCnt.Length {
        return E_INVALID_ID;
      }
      if !tmrUsed[tmrID] {
        return E_INVALID_ID;
      }
      if tmrState[tmrID] == STOPPED {
        return E_OK;
      }
      StopRunning(tmrID);
      return E_OK;
    }

    // ----- due timers -----

    ghost method Record(r: Release)
      requires Valid() && ReleasedOnTime(r) && r.at <= clock.now
      modifies this`clock
      ensures Valid() && clock == old(clock).(log := old(clock).log + [r])
    {
      RecordLawful(clock, r);
      clock := clock.(log := clock.log + [r]);
    }

    /** Takes the due head off the list and records its release. */
    method TakeHead(pTmr: int)
      requires Valid() && pTmr == TmrList && pTmr != NULL && tmrCnt[pTmr] == 0
      modifies tmrNext, tmrPrev, tmrCnt, this`TmrList, this`ids, this`clock
      ensures Valid() && pTmr !in ids
      ensures var c := old(clock);
              && c.l != [] && c.l[0].id == pTmr && pTmr in c.jobs && c.jobs[pTmr].reload == Reload(pTmr) < S32_LIMIT
              && clock == c.(l := Remove(c.l, 0), log := c.log + [Release(pTmr, c.now, c.jobs[pTmr], c.lost)])
    {
      ghost var c := clock;
      HeadOnTime(c);
      assert IndexOf(ids, pTmr) == 0;
      TakeOff(pTmr);
      Record(ReleaseOf(c, c.l[0]));
    }

    method FireOne(pTmr: int)
      requires Valid() && pTmr == TmrList && pTmr != NULL && tmrCnt[pTmr] == 0
      modifies tmrNext, tmrPrev, tmrCnt, tmrState, this`TmrList, this`ids, this`clock
      ensures Valid() && clock == FireHead(old(clock))
      ensures tmrState[..] == if tmrType[pTmr] == ONE_SHOT then old(tmrState[..])[pTmr := STOPPED]
              else old(tmrState[..])
    {
      TakeHead(pTmr);
      if tmrType[pTmr] == ONE_SHOT {
        MarkStopped(pTmr);
      } else {
        tmrCnt[pTmr] := tmrReload[pTmr];
        PutOn(pTmr);
      }
    }

    method FireNext(pTmr: int, ghost done: Clock)
      requires Valid() && Finishes(clock, done)
      requires pTmr == TmrList && pTmr != NULL && tmrCnt[pTmr] == 0
      modifies tmrNext, tmrPrev, tmrCnt, tmrState, this`TmrList, this`ids, this`clock
      ensures Valid() && Finishes(clock, done)
      ensures var n := DueNow(old(clock).l, 0);
              && 0 < n <= |old(ids)| && old(ids)[0] == pTmr && DueNow(clock.l, 0) == n - 1
              && n - 1 <= |ids| && ids[..n - 1] == old(ids)[1..n]
      ensures tmrState[..] == if tmrType[pTmr] == ONE_SHOT then old(tmrState[..])[pTmr := STOPPED]
              else old(tmrState[..])
    {
      ghost var c, q, cnt := clock, ids, tmrCnt[..];
      ghost var d := FinishesStep(c, done);
      FireOne(pTmr);
      FiredIds(c, d, q, cnt, ids, tmrCnt[..]);
    }

    /** Fired one-shot timers are stopped, and no other timer. */
    predicate StoppedBy(was: seq<TmrState>, fired: seq<int>)
      requires Tables()
      reads tmrType, tmrState
    {
      && |was| == tmrState.Length
      && forall x :: 0 <= x < tmrState.Length ==> tmrState[x] == if x in fired && tmrType[x] == ONE_SHOT then STOPPED
          else was[x]
    }

    /** One round of the disposal: of the n due timers at the front of q, one more has fired. */
    method FireRound(pTmr: int, so: seq<int>, ghost done: Clock, ghost q: seq<int>, ghost n: nat,
                     ghost was: seq<TmrState>)
      returns (fired: seq<int>)
      requires Valid() && Finishes(clock, done) && pTmr == TmrList && pTmr != NULL && tmrCnt[pTmr] == 0
      requires FiredSome(q, n, so, ids, DueNow(clock.l, 0)) && StoppedBy(was, so)
      modifies tmrNext, tmrPrev, tmrCnt, tmrState, this`TmrList, this`ids, this`clock
      ensures Valid() && Finishes(clock, done) && DueNow(clock.l, 0) < DueNow(old(clock).l, 0)
      ensures FiredSome(q, n, fired, ids, DueNow(clock.l, 0)) && StoppedBy(was, fired)
    {
      ghost var r, m := ids, DueNow(clock.l, 0);
      FireNext(pTmr, done);
      FiredNext(q, n, so, r, m, pTmr, ids);
      fired := so + [pTmr];
    }

    /** Fires every timer that is due, once each and in list order; it ends although it arms timers again. */
    method TmrDispose() returns (fired: seq<int>)
      requires Valid()
      modifies tmrNext, tmrPrev, tmrCnt, tmrState, this`TmrList, this`ids, this`clock
      ensures Valid() && clock == FireDue(old(clock))
      ensures fired == old(ids)[..DueNow(old(List()), 0)] && StoppedBy(old(tmrState[..]), fired)
    {
      ghost var n, done := DueNow(clock.l, 0), FireDue(clock);
      fired := [];
      var pTmr := TmrList;
      while pTmr != NULL && tmrCnt[pTmr] == 0
        invariant Valid() && pTmr == TmrList && Finishes(clock, done)
        invariant FiredSome(old(ids), n, fired, ids, DueNow(clock.l, 0)) && StoppedBy(old(tmrState[..]), fired)
        decreases DueNow(clock.l, 0)
      {
        fired := FireRound(pTmr, fired, done, old(ids), n, old(tmrState[..]));
        pTmr := TmrList;
      }
      Finished(clock, done);
    }

    /** The count-down of the tick: the head goes down to 0 and stays there. */
    method CountDown(ghost c1: Clock)
      requires Valid()
      requires c1.l == Tick(clock.l) && c1.jobs == clock.jobs && c1.pending == clock.pending && Lawful(c1)
      modifies tmrCnt, this`clock
      ensures Valid() && clock == c1
    {
      if TmrList != NULL {
        if tmrCnt[TmrList] > 1 {
          tmrCnt[TmrList] := tmrCnt[TmrList] - 1;
        } else {
          tmrCnt[TmrList] := 0;
        }
      }
      assert List() == Tick(clock.l);
      clock := c1;
    }

    /** TimerReq asks for a disposal when the scheduler is unlocked. */
    method SetTimerReq(b: bool)
      requires Valid()
      modifies this`TimerReq, this`clock
      ensures Valid() && clock == old(clock).(pending := b)
    {
      PendingLawful(clock, b);
      TimerReq := b;
      clock := clock.(pending := b);
    }

    /** What follows from the count-down c1. */
    method TickTo(locked: bool, ghost c1: Clock) returns (fired: seq<int>)
      requires Valid()
      requires c1.l == Tick(clock.l) && c1.jobs == clock.jobs && c1.pending == clock.pending && Lawful(c1)
      modifies tmrNext, tmrPrev, tmrCnt, tmrState, this`TmrList, this`TimerReq, this`ids, this`clock
      ensures Valid()
      ensures clock == if c1.l == [] || c1.l[0].delta != 0 then c1
                       else if locked then c1.(pending := true) else FireDue(c1)
      ensures fired == (if locked then [] else old(ids)[..DueNow(c1.l, 0)]) && StoppedBy(old(tmrState[..]), fired)
    {
      fired := [];
      CountDown(c1);
      if TmrList == NULL || tmrCnt[TmrList] != 0 {
        return;
      }
      if locked {
        SetTimerReq(true);
      } else {
        fired := TmrDispose();
      }
    }

    /** The timer part of the tick interrupt; locked says that the scheduler lock was held. */
    method TmrTick(locked: bool) returns (fired: seq<int>)
      requires Valid()
      modifies tmrNext, tmrPrev, tmrCnt, tmrState, this`TmrList, this`TimerReq, this`ids, this`clock
      ensures Valid() && clock == Step(old(clock), TickOp(locked))
      ensures DueNow(Tick(old(List())), 0) <= |old(ids)|
      ensures fired == (if locked then [] else old(ids)[..DueNow(Tick(old(List())), 0)])
              && StoppedBy(old(tmrState[..]), fired)
    {
      TickedLawful(clock);
      ghost var c1 := TickCases(clock, locked);
      fired := TickTo(locked, c1);
    }

    /** What the kernel does for a deferred disposal when the scheduler is unlocked. */
    method RespondTimerReq() returns (fired: seq<int>)
      requires Valid()
      modifies tmrNext, tmrPrev, tmrCnt, tmrState, this`TmrList, this`TimerReq, this`ids, this`clock
      ensures Valid() && clock == Step(old(clock), Respond)
      ensures fired == (if old(TimerReq) then old(ids)[..DueNow(old(List()), 0)] else [])
              && StoppedBy(old(tmrState[..]), fired)
    {
      fired := [];
      if TimerReq {
        fired := TmrDispose();
        SetTimerReq(false);
      }
    }
  }

  method CreateTwo() returns (t: TimerTable)
    ensures fresh(t) && fresh(t.tmrNext) && fresh(t.tmrPrev) && fresh(t.tmrCnt) && fresh(t.tmrState)
    ensures t.Valid() && t.ids == [] && t.tmrState[..] == [STOPPED, STOPPED] && t.tmrUsed[..] == [true, true]
    ensures t.tmrCnt[..] == [0, 5] && t.tmrReload[..] == [0, 0]
  {
    t := new TimerTable(2);
    assert !t.tmrUsed[0] && !t.tmrUsed[1];
    var x := t.CoCreateTmr(ONE_SHOT, 0, 0);
    assert x == 0 && t.tmrUsed[0] && !t.tmrUsed[1];
    var y := t.CoCreateTmr(ONE_SHOT, 5, 0);
    assert y == 1;
  }

  /** Two timers are started; the first one, with count 0, runs off the list. */
  method StartTwo() returns (t: TimerTable)
    ensures fresh(t) && fresh(t.tmrNext) && fresh(t.tmrPrev) && fresh(t.tmrCnt) && fresh(t.tmrState)
    ensures t.Valid() && t.ids == [1] && t.tmrState[..] == [RUNNING, RUNNING] && t.tmrUsed[0] && t.tmrUsed[1]
  {
    t := CreateTwo();
    var s := t.CoStartTmr(0);
    assert t.clock.l == [] && t.tmrCnt[1] == 5;
    s := t.CoStartTmr(1);
    assert t.clock.l[0].id == t.ids[0];
  }

  /** Stopping a timer can drop others: the second one stays marked running, and will never fire. */
  method StopDropsOthers() returns (t: TimerTable)
    ensures fresh(t) && |t.tmrState[..]| == 2 && t.tmrState[1] == RUNNING && t.TmrList == NULL && t.ids == [1]
            && !t.Valid()
  {
    t := StartTwo();
    t.SeversIff(0);
    var s := t.CoStopTmr(0);
  }
}
