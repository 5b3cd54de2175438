/** What the table of priorities says about the tasks and the ready list, and how far that makes it find the
    place in the list that a walk would find. */
module ReadyTable {
  import opened Links
  import opened TaskModel

  const INVALID_ID: int := 255

  ghost predicate Increasing(pri: seq<int>) { forall i, j :: 0 <= i < j < |pri| ==> pri[i] < pri[j] }

  /** x is the last task of priority p on q; INVALID_ID says that there is none. */
  ghost predicate LastIs(prio: seq<int>, q: seq<int>, p: int, x: int)
    requires InTable(q, |prio|)
  {
    if x == INVALID_ID then forall j :: 0 <= j < |q| ==> prio[q[j]] != p
    else x in q && prio[x] == p && forall j :: IndexOf(q, x) < j < |q| ==> prio[q[j]] != p
  }

  function OfTasks(prio: seq<int>, tasks: set<int>, p: int): set<int>
    requires forall x :: x in tasks ==> 0 <= x < |prio|
  {
    set x | x in tasks && prio[x] == p
  }

  /** How many tasks have priority p. */
  function Num(prio: seq<int>, tasks: set<int>, p: int): int
    requires forall x :: x in tasks ==> 0 <= x < |prio|
  {
    |OfTasks(prio, tasks, p)|
  }

  ghost predicate InTasks(prio: seq<int>, q: seq<int>, tasks: set<int>) {
    && InTable(q, |prio|) && |prio| < INVALID_ID
    && (forall x :: x in tasks ==> 0 <= x < |prio|) && (forall x :: x in q ==> x in tasks)
  }

  /** Entry k of the table: how many tasks have its priority, and the last ready one of them. */
  ghost predicate Entered(pri: seq<int>, cnt: seq<int>, last: seq<int>, prio: seq<int>, q: seq<int>, tasks: set<int>,
                          k: int)
    requires 0 <= k < |pri| == |cnt| == |last| && InTasks(prio, q, tasks)
  {
    cnt[k] == Num(prio, tasks, pri[k]) && cnt[k] > 0 && LastIs(prio, q, pri[k], last[k])
  }

  ghost predicate Indexed(pri: seq<int>, cnt: seq<int>, last: seq<int>, prio: seq<int>, q: seq<int>, tasks: set<int>) {
    && |pri| == |cnt| == |last| && InTasks(prio, q, tasks)
    && Increasing(pri)
    && (forall k :: 0 <= k < |pri| ==> Entered(pri, cnt, last, prio, q, tasks, k))
    && (forall x :: x in tasks ==> prio[x] in pri)
  }

  // ----- insertion -----

  lemma LastInsert(prio: seq<int>, q: seq<int>, pos: nat, t: int, p: int, x: int)
    requires InTable(q, |prio|) && Distinct(q) && pos <= |q| && 0 <= t < |prio| && t !in q && x != t
    requires LastIs(prio, q, p, x) && prio[t] != p
    ensures InTable(InsertAt(q, pos, t), |prio|) && LastIs(prio, InsertAt(q, pos, t), p, x)
  {
    var r := InsertAt(q, pos, t);
    assert forall i {:trigger r[i]} :: 0 <= i < |r| ==>
             r[i] == if i < pos then q[i] else if i == pos then t else q[i - 1];
    if x != INVALID_ID {
      var k := IndexOf(q, x);
      var k' := if k < pos then k else k + 1;
      assert r[k'] == x;
      InsertDistinct(q, pos, t);
      assert IndexOf(r, x) == k';
    }
  }

  /** A task put behind the last of its own priority is now the last. */
  lemma LastIsNew(prio: seq<int>, q: seq<int>, pos: nat, t: int)
    requires InTable(q, |prio|) && Distinct(q) && pos <= |q| && 0 <= t < |prio| < INVALID_ID && t !in q
    requires forall j :: pos <= j < |q| ==> prio[q[j]] != prio[t]
    ensures InTable(InsertAt(q, pos, t), |prio|) && LastIs(prio, InsertAt(q, pos, t), prio[t], t)
  {
    var r := InsertAt(q, pos, t);
    assert forall i {:trigger r[i]} :: 0 <= i < |r| ==>
             r[i] == if i < pos then q[i] else if i == pos then t else q[i - 1];
    InsertDistinct(q, pos, t);
    assert r[pos] == t;
    assert IndexOf(r, t) == pos;
  }

  lemma InsertIndexed(pri: seq<int>, cnt: seq<int>, last: seq<int>, prio: seq<int>, q: seq<int>, tasks: set<int>,
                      t: int, s: int, pos: nat)
    requires Indexed(pri, cnt, last, prio, q, tasks) && Distinct(q)
    requires t in tasks && t !in q && 0 <= s < |pri| && pri[s] == prio[t]
    requires pos <= |q| && forall j :: pos <= j < |q| ==> prio[q[j]] != prio[t]
    ensures Indexed(pri, cnt, last[s := t], prio, InsertAt(q, pos, t), tasks)
  {
    var r, last' := InsertAt(q, pos, t), last[s := t];
    InsertDistinct(q, pos, t);
    LastIsNew(prio, q, pos, t);
    forall k | 0 <= k < |pri|
      ensures Entered(pri, cnt, last', prio, r, tasks, k)
    {
      assert Entered(pri, cnt, last, prio, q, tasks, k);
      if k != s { LastInsert(prio, q, pos, t, pri[k], last[k]); }
    }
  }

  /** Behind the last ready task of the task's own priority is the place that a walk finds. */
  lemma PlaceBehindEquals(prio: seq<int>, q: seq<int>, p: int, x: int)
    requires InTable(q, |prio|) && Sorted(prio, q) && x != INVALID_ID && LastIs(prio, q, p, x)
    ensures RdyPos(prio, q, p) == IndexOf(q, x) + 1
  {
    RdyPosIs(prio, q, p, IndexOf(q, x) + 1);
  }

  /** Every ready task has an entry, and that entry has a last ready task. */
  lemma ReadyEntry(pri: seq<int>, cnt: seq<int>, last: seq<int>, prio: seq<int>, q: seq<int>, tasks: set<int>, j: int)
    returns (k: int)
    requires Indexed(pri, cnt, last, prio, q, tasks) && 0 <= j < |q|
    ensures 0 <= k < |pri| && pri[k] == prio[q[j]] && last[k] != INVALID_ID
  {
    assert q[j] in q;
    k :| 0 <= k < |pri| && pri[k] == prio[q[j]];
    assert Entered(pri, cnt, last, prio, q, tasks, k);
  }

  /** Without a ready task at entry s or before, the task goes to the head. */
  lemma PlaceAtHead(pri: seq<int>, cnt: seq<int>, last: seq<int>, prio: seq<int>, q: seq<int>, tasks: set<int>, s: int)
    requires Indexed(pri, cnt, last, prio, q, tasks) && 0 <= s < |pri|
    requires forall k :: 0 <= k <= s ==> last[k] == INVALID_ID
    ensures RdyPos(prio, q, pri[s]) == 0
    ensures forall j :: 0 <= j < |q| ==> prio[q[j]] != pri[s]
  {
    forall j | 0 <= j < |q|
      ensures prio[q[j]] > pri[s]
    {
      var k := ReadyEntry(pri, cnt, last, prio, q, tasks, j);
    }
  }

  /** Entry r < s is the next before s with a ready task: the task goes behind the last one there. */
  lemma PlaceBehindLower(pri: seq<int>, cnt: seq<int>, last: seq<int>, prio: seq<int>, q: seq<int>, tasks: set<int>,
                         r: int, s: int)
    requires Indexed(pri, cnt, last, prio, q, tasks) && Sorted(prio, q) && 0 <= r < s < |pri|
    requires last[r] != INVALID_ID && forall k :: r < k <= s ==> last[k] == INVALID_ID
    ensures last[r] in q && RdyPos(prio, q, pri[s]) == IndexOf(q, last[r]) + 1
    ensures forall j :: IndexOf(q, last[r]) < j < |q| ==> prio[q[j]] != pri[s]
  {
    assert Entered(pri, cnt, last, prio, q, tasks, r);
    var i := IndexOf(q, last[r]);
    forall j | i < j < |q|
      ensures prio[q[j]] > pri[s]
    {
      var k := ReadyEntry(pri, cnt, last, prio, q, tasks, j);
      assert prio[q[i]] <= prio[q[j]];
    }
    RdyPosIs(prio, q, pri[s], i + 1);
  }

  // ----- removal -----

  lemma LastRemove(prio: seq<int>, q: seq<int>, k: nat, p: int, x: int)
    requires InTable(q, |prio|) && Distinct(q) && k < |q|
    requires LastIs(prio, q, p, x) && (x == INVALID_ID || x != q[k])
    ensures InTable(RemoveAt(q, k), |prio|) && LastIs(prio, RemoveAt(q, k), p, x)
  {
    var r := RemoveAt(q, k);
    assert forall i {:trigger r[i]} :: 0 <= i < |r| ==> r[i] == q[if i < k then i else i + 1];
    if x != INVALID_ID {
      var i := IndexOf(q, x);
      var i' := if i < k then i else i - 1;
      assert r[i'] == x;
      RemoveDistinct(q, k);
      assert IndexOf(r, x) == i';
    }
  }

  /** Entry k of the list was the last of its priority: the one before it takes over, if it has that priority. */
  lemma LastBefore(prio: seq<int>, q: seq<int>, k: nat)
    requires InTable(q, |prio|) && Distinct(q) && Sorted(prio, q) && k < |q| && |prio| < INVALID_ID
    requires k + 1 < |q| ==> prio[q[k + 1]] != prio[q[k]]
    ensures InTable(RemoveAt(q, k), |prio|)
    ensures LastIs(prio, RemoveAt(q, k), prio[q[k]],
                   if k > 0 && prio[q[k - 1]] == prio[q[k]] then q[k - 1] else INVALID_ID)
  {
    var r := RemoveAt(q, k);
    RemoveDistinct(q, k);
    assert forall i {:trigger r[i]} :: 0 <= i < |r| ==> r[i] == q[if i < k then i else i + 1];
    if k > 0 && prio[q[k - 1]] == prio[q[k]] {
      assert r[k - 1] == q[k - 1];
      assert IndexOf(r, q[k - 1]) == k - 1;
    }
  }

  /** What the table holds for the priority of entry k of the list once that entry is gone. */
  function LastAfter(prio: seq<int>, q: seq<int>, k: nat, last: int): int
    requires InTable(q, |prio|) && k < |q|
  {
    if k + 1 < |q| && prio[q[k + 1]] == prio[q[k]] then last
    else if k > 0 && prio[q[k - 1]] == prio[q[k]] then q[k - 1] else INVALID_ID
  }

  lemma LastAfterIs(prio: seq<int>, q: seq<int>, k: nat, x: int)
    requires InTable(q, |prio|) && Distinct(q) && Sorted(prio, q) && k < |q| && |prio| < INVALID_ID
    requires LastIs(prio, q, prio[q[k]], x)
    ensures InTable(RemoveAt(q, k), |prio|) && LastIs(prio, RemoveAt(q, k), prio[q[k]], LastAfter(prio, q, k, x))
  {
    if k + 1 < |q| && prio[q[k + 1]] == prio[q[k]] {
      assert x != q[k] by { assert q[k] in q && IndexOf(q, q[k]) == k; }
      LastRemove(prio, q, k, prio[q[k]], x);
    } else {
      LastBefore(prio, q, k);
    }
  }

  lemma RemoveIndexed(pri: seq<int>, cnt: seq<int>, last: seq<int>, prio: seq<int>, q: seq<int>, tasks: set<int>,
                      s: int, k: nat)
    requires Indexed(pri, cnt, last, prio, q, tasks) && Distinct(q) && Sorted(prio, q)
    requires k < |q| && 0 <= s < |pri| && pri[s] == prio[q[k]]
    ensures Indexed(pri, cnt, last[s := LastAfter(prio, q, k, last[s])], prio, RemoveAt(q, k), tasks)
  {
    var r, last' := RemoveAt(q, k), last[s := LastAfter(prio, q, k, last[s])];
    RemoveDistinct(q, k);
    assert Entered(pri, cnt, last, prio, q, tasks, s);
    LastAfterIs(prio, q, k, last[s]);
    forall i | 0 <= i < |pri|
      ensures Entered(pri, cnt, last', prio, r, tasks, i)
    {
      assert Entered(pri, cnt, last, prio, q, tasks, i);
      if i != s { LastRemove(prio, q, k, pri[i], last[i]); }
    }
  }

  // ----- priorities that come into use and go out of use -----

  lemma NumWith(prio: seq<int>, tasks: set<int>, t: int, p: int)
    requires (forall x :: x in tasks ==> 0 <= x < |prio|) && 0 <= t < |prio| && t !in tasks
    ensures Num(prio, tasks + {t}, p) == Num(prio, tasks, p) + if prio[t] == p then 1 else 0
  {
    if prio[t] == p {
      assert OfTasks(prio, tasks + {t}, p) == OfTasks(prio, tasks, p) + {t};
    } else {
      assert OfTasks(prio, tasks + {t}, p) == OfTasks(prio, tasks, p);
    }
  }

  /** The priority of a task that is not counted does not matter. */
  lemma PrioOfOther(pri: seq<int>, cnt: seq<int>, last: seq<int>, prio: seq<int>, q: seq<int>, tasks: set<int>,
                    t: int, p: int)
    requires Indexed(pri, cnt, last, prio, q, tasks) && 0 <= t < |prio| && t !in tasks
    ensures Indexed(pri, cnt, last, prio[t := p], q, tasks)
  {
    var prio' := prio[t := p];
    assert forall j :: 0 <= j < |q| ==> q[j] in q;
    forall k | 0 <= k < |pri|
      ensures Entered(pri, cnt, last, prio', q, tasks, k)
    {
      assert Entered(pri, cnt, last, prio, q, tasks, k);
      assert OfTasks(prio', tasks, pri[k]) == OfTasks(prio, tasks, pri[k]);
    }
  }

  /** One more task of a priority in use. */
  lemma CountUp(pri: seq<int>, cnt: seq<int>, last: seq<int>, prio: seq<int>, q: seq<int>, tasks: set<int>, s: int,
                t: int)
    requires Indexed(pri, cnt, last, prio, q, tasks) && 0 <= s < |pri|
    requires 0 <= t < |prio| && t !in tasks && prio[t] == pri[s]
    ensures Indexed(pri, cnt[s := cnt[s] + 1], last, prio, q, tasks + {t})
  {
    var cnt' := cnt[s := cnt[s] + 1];
    forall k | 0 <= k < |pri|
      ensures Entered(pri, cnt', last, prio, q, tasks + {t}, k)
    {
      assert Entered(pri, cnt, last, prio, q, tasks, k);
      NumWith(prio, tasks, t, pri[k]);
    }
  }

  /** The first task of a priority: entry s is put in. */
  lemma PutIn(pri: seq<int>, cnt: seq<int>, last: seq<int>, prio: seq<int>, q: seq<int>, tasks: set<int>, s: nat,
              t: int)
    requires Indexed(pri, cnt, last, prio, q, tasks) && s <= |pri|
    requires 0 <= t < |prio| && t !in tasks
    requires (forall i :: 0 <= i < s ==> pri[i] < prio[t]) && (forall i :: s <= i < |pri| ==> prio[t] < pri[i])
    ensures Indexed(InsertAt(pri, s, prio[t]), InsertAt(cnt, s, 1), InsertAt(last, s, INVALID_ID), prio, q, tasks + {t})
  {
    var pri', cnt', last' := InsertAt(pri, s, prio[t]), InsertAt(cnt, s, 1), InsertAt(last, s, INVALID_ID);
    forall k | 0 <= k < |pri'|
      ensures Entered(pri', cnt', last', prio, q, tasks + {t}, k)
    {
      NumWith(prio, tasks, t, pri'[k]);
      if k != s {
        assert Entered(pri, cnt, last, prio, q, tasks, if k < s then k else k - 1);
      } else {
        assert OfTasks(prio, tasks, prio[t]) == {};
      }
    }
    forall x | x in tasks + {t}
      ensures prio[x] in pri'
    {
      if x != t {
        var k :| 0 <= k < |pri| && pri[k] == prio[x];
        assert pri'[if k < s then k else k + 1] == prio[x];
      } else {
        assert pri'[s] == prio[t];
      }
    }
  }

  /** One task fewer of a priority that stays in use. */
  lemma CountDown(pri: seq<int>, cnt: seq<int>, last: seq<int>, prio: seq<int>, q: seq<int>, tasks: set<int>, s: int,
                  t: int)
    requires Indexed(pri, cnt, last, prio, q, tasks) && 0 <= s < |pri|
    requires t in tasks && t !in q && prio[t] == pri[s] && cnt[s] > 1
    ensures Indexed(pri, cnt[s := cnt[s] - 1], last, prio, q, tasks - {t})
  {
    assert (tasks - {t}) + {t} == tasks;
    var cnt' := cnt[s := cnt[s] - 1];
    forall k | 0 <= k < |pri|
      ensures Entered(pri, cnt', last, prio, q, tasks - {t}, k)
    {
      assert Entered(pri, cnt, last, prio, q, tasks, k);
      NumWith(prio, tasks - {t}, t, pri[k]);
    }
  }

  /** The last task of a priority: entry s is taken out. */
  lemma TakeOut(pri: seq<int>, cnt: seq<int>, last: seq<int>, prio: seq<int>, q: seq<int>, tasks: set<int>, s: nat,
                t: int)
    requires Indexed(pri, cnt, last, prio, q, tasks) && s < |pri|
    requires t in tasks && t !in q && prio[t] == pri[s] && cnt[s] == 1
    ensures Indexed(RemoveAt(pri, s), RemoveAt(cnt, s), RemoveAt(last, s), prio, q, tasks - {t})
  {
    var pri', cnt', last' := RemoveAt(pri, s), RemoveAt(cnt, s), RemoveAt(last, s);
    assert (tasks - {t}) + {t} == tasks;
    assert Entered(pri, cnt, last, prio, q, tasks, s);
    OnlyOne(prio, tasks, t);
    forall k | 0 <= k < |pri'|
      ensures Entered(pri', cnt', last', prio, q, tasks - {t}, k)
    {
      NumWith(prio, tasks - {t}, t, pri'[k]);
      assert Entered(pri, cnt, last, prio, q, tasks, if k < s then k else k + 1);
    }
    forall x | x in tasks - {t}
      ensures prio[x] in pri'
    {
      var k :| 0 <= k < |pri| && pri[k] == prio[x];
      assert pri'[if k < s then k else k - 1] == prio[x];
    }
  }

  lemma OnlyOne(prio: seq<int>, tasks: set<int>, t: int)
    requires (forall x :: x in tasks ==> 0 <= x < |prio|) && t in tasks && Num(prio, tasks, prio[t]) == 1
    ensures forall x :: x in tasks && prio[x] == prio[t] ==> x == t
  {
    var u := OfTasks(prio, tasks, prio[t]);
    forall x | x in tasks && prio[x] == prio[t]
      ensures x == t
    {
      assert x in u && t in u;
      if x != t { assert {x, t} <= u && |{x, t}| == 2; Subset({x, t}, u); }
    }
  }

  lemma Subset(a: set<int>, b: set<int>)
    requires a <= b
    ensures |a| <= |b|
  {
    assert b == a + (b - a);
  }

  /** The table has no more entries than there are tasks. */
  lemma {:induction false} TableFits(pri: seq<int>, prio: seq<int>, tasks: set<int>)
    requires Increasing(pri) && forall x :: x in tasks ==> 0 <= x < |prio|
    requires forall k :: 0 <= k < |pri| ==> Num(prio, tasks, pri[k]) > 0
    ensures |pri| <= |tasks|
  {
    if pri != [] {
      var n := |pri| - 1;
      var u := OfTasks(prio, tasks, pri[n]);
      var x :| x in u;
      forall k | 0 <= k < n
        ensures Num(prio, tasks - {x}, pri[..n][k]) > 0
      {
        NumWith(prio, tasks - {x}, x, pri[k]);
        assert (tasks - {x}) + {x} == tasks;
      }
      TableFits(pri[..n], prio, tasks - {x});
    }
  }

  /** The table indices below n. */
  function Below(n: nat): (r: set<int>)
    ensures |r| == n && forall x :: x in r <==> 0 <= x < n
  {
    if n == 0 then {} else Below(n - 1) + {n - 1}
  }

  /** With a task that is not counted yet there is room for one more priority. */
  lemma RoomLeft(pri: seq<int>, cnt: seq<int>, last: seq<int>, prio: seq<int>, q: seq<int>, tasks: set<int>, t: int)
    requires Indexed(pri, cnt, last, prio, q, tasks) && 0 <= t < |prio| && t !in tasks
    ensures |pri| < |prio|
  {
    forall k | 0 <= k < |pri|
      ensures Num(prio, tasks, pri[k]) > 0
    {
      assert Entered(pri, cnt, last, prio, q, tasks, k);
    }
    TableFits(pri, prio, tasks);
    Subset(tasks + {t}, Below(|prio|));
  }
}
