/** Mutexes with priority inheritance, for tasks that use one mutex each.  A smaller number is a higher priority. */
module Mutexes {
  import opened Links

  /** hipri is the task whose priority the owner was given, or the owner itself. */
  datatype Mutex = Mutex(occupied: bool, owner: int, original: int, hipri: int, waiting: seq<int>)

  datatype System = System(prio: seq<int>, tbl: seq<Mutex>)

  datatype Action = Enter(m: int, t: int) | Leave(m: int)

  /** The task that holds the mutex, followed by those that wait for it. */
  function Line(m: Mutex): seq<int> { (if m.occupied then [m.owner] else []) + m.waiting }

  /** The smallest of p and the priorities of the tasks in q. */
  function Least(prio: seq<int>, q: seq<int>, p: int): (r: int)
    requires InTable(q, |prio|)
    ensures r <= p && forall i :: 0 <= i < |q| ==> r <= prio[q[i]]
    ensures r == p || exists i :: 0 <= i < |q| && r == prio[q[i]]
  {
    if q == [] then p else Least(prio, q[1..], if prio[q[0]] < p then prio[q[0]] else p)
  }

  /** The task that lowered the minimum last, h if none did. */
  function Lowest(prio: seq<int>, q: seq<int>, p: int, h: int): int
    requires InTable(q, |prio|)
  {
    if q == [] then h
    else if prio[q[0]] < p then Lowest(prio, q[1..], prio[q[0]], q[0])
    else Lowest(prio, q[1..], p, h)
  }

  predicate Sized(s: System) {
    forall m :: 0 <= m < |s.tbl| ==> InTable(Line(s.tbl[m]), |s.prio|)
  }

  lemma WaitersInTable(x: Mutex, n: int)
    requires InTable(Line(x), n)
    ensures InTable(x.waiting, n) && (x.occupied ==> 0 <= x.owner < n)
  {
    if x.occupied {
      assert Line(x)[0] == x.owner;
      forall i | 0 <= i < |x.waiting|
        ensures 0 <= x.waiting[i] < n
      {
        assert Line(x)[i + 1] == x.waiting[i];
      }
    } else {
      assert Line(x) == x.waiting;
    }
  }

  /** CoEnterMutexSection by task t. */
  function Entered(s: System, m: int, t: int): System
    requires Sized(s) && 0 <= m < |s.tbl| && 0 <= t < |s.prio|
  {
    var x := s.tbl[m];
    WaitersInTable(x, |s.prio|);
    if !x.occupied then s.(tbl := s.tbl[m := Mutex(true, t, s.prio[t], t, x.waiting)])
    else if s.prio[x.owner] > s.prio[t] then
      System(s.prio[x.owner := s.prio[t]], s.tbl[m := x.(hipri := t, waiting := x.waiting + [t])])
    else s.(tbl := s.tbl[m := x.(waiting := x.waiting + [t])])
  }

  /** The priority that the next owner gets: the highest among the waiters if the owner was not promoted, the
      owner's otherwise. */
  function NextPrio(prio: seq<int>, x: Mutex): int
    requires InTable(Line(x), |prio|) && x.occupied && x.waiting != []
  {
    WaitersInTable(x, |prio|);
    if x.hipri == x.owner then Least(prio, x.waiting, prio[x.waiting[0]]) else prio[x.owner]
  }

  /** The mutex in the hands of its first waiter. */
  function Passed(prio: seq<int>, x: Mutex): Mutex
    requires InTable(Line(x), |prio|) && x.occupied && x.waiting != []
  {
    WaitersInTable(x, |prio|);
    var first := x.waiting[0];
    var hipri := if x.hipri == x.owner then Lowest(prio, x.waiting, prio[first], x.hipri) else x.hipri;
    Mutex(true, first, prio[x.owner := x.original][first], hipri, x.waiting[1..])
  }

  /** CoLeaveMutexSection. */
  function Left(s: System, m: int): System
    requires Sized(s) && 0 <= m < |s.tbl| && s.tbl[m].occupied
  {
    var x := s.tbl[m];
    WaitersInTable(x, |s.prio|);
    if x.waiting == [] then s.(tbl := s.tbl[m := x.(occupied := false, owner := NULL)])
    else System(s.prio[x.owner := x.original][x.waiting[0] := NextPrio(s.prio, x)], s.tbl[m := Passed(s.prio, x)])
  }

  predicate Enabled(s: System, uses: seq<int>, a: Action) {
    match a
    case Enter(m, t) => 0 <= m < |s.tbl| && 0 < t < |uses| && uses[t] == m && t !in Line(s.tbl[m])
    case Leave(m) => 0 <= m < |s.tbl| && s.tbl[m].occupied
  }

  function Do(s: System, uses: seq<int>, a: Action): System
    requires Sized(s) && |uses| == |s.prio| && Enabled(s, uses, a)
  {
    match a
    case Enter(m, t) => Entered(s, m, t)
    case Leave(m) => Left(s, m)
  }

  /** What holds of mutex number m: the tasks in its line are different tasks that use it, the idle task is not
      among them, only an occupied mutex is waited for, and its owner has a priority at least as high as every
      waiter's. */
  ghost predicate Fair(prio: seq<int>, base: seq<int>, uses: seq<int>, m: int, x: Mutex) {
    && |base| == |uses| == |prio| && InTable(Line(x), |prio|) && Distinct(Line(x))
    && (forall t :: t in Line(x) ==> 0 < t < |uses| && uses[t] == m)
    && (!x.occupied ==> x.waiting == [])
    && (x.occupied ==> 0 <= x.owner < |prio| && x.original <= base[x.owner])
    && (x.occupied ==> forall w :: w in x.waiting ==> 0 <= w < |prio| && prio[x.owner] <= prio[w])
  }

  /** ... and no task is below its starting priority. */
  ghost predicate Lawful(s: System, base: seq<int>, uses: seq<int>) {
    && |base| == |uses| == |s.prio|
    && (forall m :: 0 <= m < |s.tbl| ==> Fair(s.prio, base, uses, m, s.tbl[m]))
    && (forall t :: 0 <= t < |base| ==> s.prio[t] <= base[t])
  }

  lemma LawfulSized(s: System, base: seq<int>, uses: seq<int>)
    requires Lawful(s, base, uses)
    ensures Sized(s)
  {
    forall m | 0 <= m < |s.tbl|
      ensures InTable(Line(s.tbl[m]), |s.prio|)
    {
      assert Fair(s.prio, base, uses, m, s.tbl[m]);
    }
  }

  /** A mutex does not notice priorities of tasks that use another one. */
  lemma OthersFair(prio: seq<int>, prio': seq<int>, base: seq<int>, uses: seq<int>, m: int, x: Mutex)
    requires Fair(prio, base, uses, m, x) && |prio'| == |prio|
    requires forall t :: 0 <= t < |prio| && uses[t] == m ==> prio'[t] == prio[t]
    ensures Fair(prio', base, uses, m, x)
  {
    if x.occupied {
      assert Line(x)[0] == x.owner && x.owner in Line(x);
      forall w | w in x.waiting
        ensures 0 <= w < |prio'| && prio'[x.owner] <= prio'[w]
      {
        assert w in Line(x);
      }
    }
  }

  lemma LineWith(x: Mutex, y: Mutex, t: int)
    requires Distinct(Line(x)) && t !in Line(x) && Line(y) == Line(x) + [t]
    ensures Distinct(Line(y)) && forall u :: u in Line(y) <==> u in Line(x) || u == t
  {
    InsertDistinct(Line(x), |Line(x)|, t);
    assert Line(y) == InsertAt(Line(x), |Line(x)|, t);
  }

  lemma EnterFair(s: System, base: seq<int>, uses: seq<int>, m: int, t: int)
    requires Lawful(s, base, uses) && Enabled(s, uses, Enter(m, t))
    ensures Sized(s)
    ensures var d := Entered(s, m, t); Fair(d.prio, base, uses, m, d.tbl[m]) && Line(d.tbl[m]) == Line(s.tbl[m]) + [t]
  {
    LawfulSized(s, base, uses);
    var x, d := s.tbl[m], Entered(s, m, t);
    var y := d.tbl[m];
    assert Fair(s.prio, base, uses, m, x);
    assert Line(y) == Line(x) + [t];
    LineWith(x, y, t);
  }

  lemma LineTail(x: Mutex)
    requires x.occupied && Distinct(Line(x))
    ensures Line(x)[1..] == x.waiting && Distinct(x.waiting) && x.owner !in x.waiting
    ensures forall t :: t in Line(x) <==> t == x.owner || t in x.waiting
  {
    assert Line(x) == [x.owner] + x.waiting;
    RemoveDistinct(Line(x), 0);
    assert RemoveAt(Line(x), 0) == x.waiting;
  }

  /** The next owner is given a priority at least as high as its own and every other waiter's. */
  lemma NextPrioTop(prio: seq<int>, base: seq<int>, uses: seq<int>, m: int, x: Mutex)
    requires Fair(prio, base, uses, m, x) && x.occupied && x.waiting != []
    ensures InTable(x.waiting, |prio|) && forall i :: 0 <= i < |x.waiting| ==> NextPrio(prio, x) <= prio[x.waiting[i]]
  {
    WaitersInTable(x, |prio|);
    assert forall i :: 0 <= i < |x.waiting| ==> x.waiting[i] in x.waiting;
  }

  lemma PassFair(s: System, base: seq<int>, uses: seq<int>, m: int)
    requires Lawful(s, base, uses) && Enabled(s, uses, Leave(m)) && s.tbl[m].waiting != []
    ensures Sized(s)
    ensures var d := Left(s, m); Fair(d.prio, base, uses, m, d.tbl[m]) && Line(d.tbl[m]) == Line(s.tbl[m])[1..]
  {
    LawfulSized(s, base, uses);
    var x, d := s.tbl[m], Left(s, m);
    var y := d.tbl[m];
    assert Fair(s.prio, base, uses, m, x);
    LineTail(x);
    NextPrioTop(s.prio, base, uses, m, x);
    assert Line(y) == x.waiting;
    forall w | w in y.waiting
      ensures 0 <= w < |s.prio| && d.prio[y.owner] <= d.prio[w]
    {
      var i := IndexOf(x.waiting, w);
      assert w in x.waiting;
    }
    assert x.waiting[0] in x.waiting;
  }

  lemma LeaveFair(s: System, base: seq<int>, uses: seq<int>, m: int)
    requires Lawful(s, base, uses) && Enabled(s, uses, Leave(m))
    ensures Sized(s)
    ensures var d := Left(s, m); Fair(d.prio, base, uses, m, d.tbl[m]) && Line(d.tbl[m]) == Line(s.tbl[m])[1..]
  {
    LawfulSized(s, base, uses);
    if s.tbl[m].waiting != [] {
      PassFair(s, base, uses, m);
    } else {
      assert Fair(s.prio, base, uses, m, s.tbl[m]);
    }
  }

  /** A step on mutex m changes the priority of tasks that use m only, and lowers none below its start. */
  lemma StepPrio(s: System, base: seq<int>, uses: seq<int>, a: Action)
    requires Lawful(s, base, uses) && Enabled(s, uses, a)
    ensures Sized(s) && |Do(s, uses, a).prio| == |s.prio|
    ensures forall t :: 0 <= t < |s.prio| ==> Do(s, uses, a).prio[t] <= base[t]
    ensures forall t :: 0 <= t < |s.prio| && uses[t] != a.m ==> Do(s, uses, a).prio[t] == s.prio[t]
  {
    LawfulSized(s, base, uses);
    var x := s.tbl[a.m];
    assert Fair(s.prio, base, uses, a.m, x);
    if x.occupied {
      LineTail(x);
      if a.Leave? && x.waiting != [] {
        NextPrioTop(s.prio, base, uses, a.m, x);
        assert x.waiting[0] in x.waiting;
      }
    }
  }

  lemma StepFair(s: System, base: seq<int>, uses: seq<int>, a: Action)
    requires Lawful(s, base, uses) && Enabled(s, uses, a)
    ensures Sized(s)
    ensures var d := Do(s, uses, a);
            Fair(d.prio, base, uses, a.m, d.tbl[a.m]) && Line(d.tbl[a.m]) == LineAfter(s, a, a.m)
  {
    LawfulSized(s, base, uses);
    match a {
      case Enter(m, t) => EnterFair(s, base, uses, m, t);
      case Leave(m) => LeaveFair(s, base, uses, m);
    }
  }

  lemma OtherKept(s: System, uses: seq<int>, a: Action, m: int) returns (d: System)
    requires Sized(s) && |uses| == |s.prio| && Enabled(s, uses, a) && 0 <= m < |s.tbl| && m != a.m
    ensures d == Do(s, uses, a) && |d.tbl| == |s.tbl| && d.tbl[m] == s.tbl[m]
  {
    d := Do(s, uses, a);
  }

  /** The other mutexes stay as they are, and fair. */
  lemma StepOthers(s: System, base: seq<int>, uses: seq<int>, a: Action, m: int) returns (d: System)
    requires Lawful(s, base, uses) && Enabled(s, uses, a) && 0 <= m < |s.tbl| && m != a.m
    ensures Sized(s) && d == Do(s, uses, a) && |d.tbl| == |s.tbl|
    ensures Fair(d.prio, base, uses, m, d.tbl[m]) && d.tbl[m] == s.tbl[m]
  {
    StepPrio(s, base, uses, a);
    d := OtherKept(s, uses, a, m);
    assert Fair(s.prio, base, uses, m, s.tbl[m]);
    OthersFair(s.prio, d.prio, base, uses, m, s.tbl[m]);
  }

  lemma StepLawful(s: System, base: seq<int>, uses: seq<int>, a: Action)
    requires Lawful(s, base, uses) && Enabled(s, uses, a)
    ensures Sized(s) && Lawful(Do(s, uses, a), base, uses)
    ensures forall m :: 0 <= m < |s.tbl| ==> Line(Do(s, uses, a).tbl[m]) == LineAfter(s, a, m)
  {
    StepPrio(s, base, uses, a);
    StepFair(s, base, uses, a);
    var d := Do(s, uses, a);
    forall m | 0 <= m < |d.tbl|
      ensures Fair(d.prio, base, uses, m, d.tbl[m]) && Line(d.tbl[m]) == LineAfter(s, a, m)
    {
      if m != a.m { var e := StepOthers(s, base, uses, a, m); }
    }
  }

  /** What a step makes of the line of mutex m. */
  function LineAfter(s: System, a: Action, m: int): seq<int>
    requires 0 <= m < |s.tbl| && (a.Leave? && a.m == m ==> s.tbl[m].occupied)
  {
    if a.m != m then Line(s.tbl[m])
    else if a.Enter? then Line(s.tbl[m]) + [a.t]
    else Line(s.tbl[m])[1..]
  }

  // ----- whole runs -----

  ghost predicate CanRun(s: System, uses: seq<int>, run: seq<Action>)
    decreases |run|
  {
    run == [] || (&& Sized(s) && |uses| == |s.prio| && Enabled(s, uses, run[0])
                  && CanRun(Do(s, uses, run[0]), uses, run[1..]))
  }

  ghost function Run(s: System, uses: seq<int>, run: seq<Action>): System
    requires CanRun(s, uses, run)
    decreases |run|
  {
    if run == [] then s else Run(Do(s, uses, run[0]), uses, run[1..])
  }

  /** The tasks that enter mutex m in the run, in order. */
  function Entrants(run: seq<Action>, m: int): seq<int> {
    if run == [] then [] else (if run[0].Enter? && run[0].m == m then [run[0].t] else []) + Entrants(run[1..], m)
  }

  /** How often mutex m is left in the run. */
  function Leaves(run: seq<Action>, m: int): nat {
    if run == [] then 0 else (if run[0].Leave? && run[0].m == m then 1 else 0) + Leaves(run[1..], m)
  }

  /** r is q with e appended and n entries gone from the front, in some order of doing so. */
  ghost predicate Moved(q: seq<int>, e: seq<int>, n: nat, r: seq<int>) { n <= |q| + |e| && r == (q + e)[n..] }

  lemma MovedEnter(q: seq<int>, t: int, e: seq<int>, n: nat, r: seq<int>)
    requires Moved(q + [t], e, n, r)
    ensures Moved(q, [t] + e, n, r)
  {
    assert (q + [t]) + e == q + ([t] + e);
  }

  lemma MovedLeave(q: seq<int>, e: seq<int>, n: nat, r: seq<int>)
    requires q != [] && Moved(q[1..], e, n, r)
    ensures Moved(q, e, n + 1, r)
  {
    assert q[1..] + e == (q + e)[1..];
    assert (q + e)[1..][n..] == (q + e)[n + 1..];
  }

  lemma MovedStep(s: System, run: seq<Action>, m: int, r: seq<int>)
    requires 0 <= m < |s.tbl| && run != [] && (run[0].Leave? && run[0].m == m ==> s.tbl[m].occupied)
    requires Moved(LineAfter(s, run[0], m), Entrants(run[1..], m), Leaves(run[1..], m), r)
    ensures Moved(Line(s.tbl[m]), Entrants(run, m), Leaves(run, m), r)
  {
    var q, e, n := Line(s.tbl[m]), Entrants(run[1..], m), Leaves(run[1..], m);
    assert [] + e == e;
    if run[0].m == m {
      if run[0].Enter? { MovedEnter(q, run[0].t, e, n, r); } else { MovedLeave(q, e, n, r); }
    }
  }

  /** Who has not reached the front yet is as many places behind it as leaves are missing. */
  lemma MovedAt(q: seq<int>, e: seq<int>, n: nat, r: seq<int>, k: nat)
    requires Moved(q, e, n, r) && n <= k < |q|
    ensures k - n < |r| && r[k - n] == q[k]
  {
  }

  /** Over every run: the owner of a mutex is one task with a priority at least as high as every waiter's, no task
      is below its starting priority, and every mutex serves its tasks first come, first served. */
  lemma {:induction false} RunLawful(s: System, base: seq<int>, uses: seq<int>, run: seq<Action>, m: int)
    requires Lawful(s, base, uses) && CanRun(s, uses, run) && 0 <= m < |s.tbl|
    ensures var r := Run(s, uses, run);
            && Lawful(r, base, uses) && |r.tbl| == |s.tbl|
            && Moved(Line(s.tbl[m]), Entrants(run, m), Leaves(run, m), Line(r.tbl[m]))
    decreases |run|
  {
    if run != [] {
      StepLawful(s, base, uses, run[0]);
      var d := Do(s, uses, run[0]);
      RunLawful(d, base, uses, run[1..], m);
      MovedStep(s, run, m, Line(Run(d, uses, run[1..]).tbl[m]));
    }
  }

  lemma LineAt(x: Mutex, i: nat)
    requires Distinct(Line(x)) && i < |Line(x)| && (!x.occupied ==> x.waiting == [])
    ensures x.occupied
    ensures x.owner == Line(x)[i] <==> i == 0
    ensures Line(x)[i] in x.waiting <==> i > 0
  {
    LineTail(x);
  }

  lemma RunLine(s: System, base: seq<int>, uses: seq<int>, run: seq<Action>, m: int) returns (r: System, y: Mutex)
    requires Lawful(s, base, uses) && CanRun(s, uses, run) && 0 <= m < |s.tbl|
    ensures r == Run(s, uses, run) && |r.tbl| == |s.tbl| && y == r.tbl[m]
    ensures Moved(Line(s.tbl[m]), Entrants(run, m), Leaves(run, m), Line(y))
    ensures Distinct(Line(y)) && (!y.occupied ==> y.waiting == [])
  {
    RunLawful(s, base, uses, run, m);
    r := Run(s, uses, run);
    y := r.tbl[m];
    assert Fair(r.prio, base, uses, m, y);
  }

  /** The k-th waiter gets the mutex with the k-th leave, whatever else happens, and waits until then. */
  lemma KthWaiter(s: System, base: seq<int>, uses: seq<int>, run: seq<Action>, m: int, k: nat)
    requires Lawful(s, base, uses) && CanRun(s, uses, run) && 0 <= m < |s.tbl| && s.tbl[m].occupied
    requires 1 <= k <= |s.tbl[m].waiting| && Leaves(run, m) <= k
    ensures var t, r := s.tbl[m].waiting[k - 1], Run(s, uses, run);
            && |r.tbl| == |s.tbl| && r.tbl[m].occupied
            && (r.tbl[m].owner == t <==> Leaves(run, m) == k)
            && (t in r.tbl[m].waiting <==> Leaves(run, m) < k)
  {
    var r, y := RunLine(s, base, uses, run, m);
    assert Line(s.tbl[m])[k] == s.tbl[m].waiting[k - 1];
    MovedAt(Line(s.tbl[m]), Entrants(run, m), Leaves(run, m), Line(y), k);
    LineAt(y, k - Leaves(run, m));
  }

  // ----- priorities are not always restored -----

  /** A leave gives the owner back the priority it had when it got the mutex if and only if somebody waits, or the
      priority was not raised: without waiters the code restores nothing. */
  lemma LeaveRestoresIff(s: System, base: seq<int>, uses: seq<int>, m: int)
    requires Lawful(s, base, uses) && Enabled(s, uses, Leave(m))
    ensures Sized(s) && InTable(Line(s.tbl[m]), |s.prio|)
    ensures var x := s.tbl[m];
            0 <= x.owner < |s.prio| && |Left(s, m).prio| == |s.prio|
            && (Left(s, m).prio[x.owner] == x.original <==> x.waiting != [] || s.prio[x.owner] == x.original)
  {
    LawfulSized(s, base, uses);
    var x := s.tbl[m];
    assert Fair(s.prio, base, uses, m, x);
    LineTail(x);
    if x.waiting != [] { assert x.waiting[0] in x.waiting; }
  }

  /** The task that a leave hands the mutex to gets the highest priority among the waiters, as priority inheritance
      asks, if and only if hipri names the owner or a waiter has the owner's priority.  Otherwise hipri is stale, and
      the task gets the leaving owner's priority, which is higher than that of every waiter. */
  lemma HandOverPrioIff(s: System, base: seq<int>, uses: seq<int>, m: int)
    requires Lawful(s, base, uses) && Enabled(s, uses, Leave(m)) && s.tbl[m].waiting != []
    ensures Sized(s) && InTable(s.tbl[m].waiting, |s.prio|) && 0 <= s.tbl[m].owner < |s.prio|
    ensures var x, r := s.tbl[m], Left(s, m); var high := Least(s.prio, x.waiting, s.prio[x.waiting[0]]);
            && |r.prio| == |s.prio| && r.prio[x.waiting[0]] <= high
            && (r.prio[x.waiting[0]] == if x.hipri == x.owner then high else s.prio[x.owner])
            && (r.prio[x.waiting[0]] == high <==>
                  x.hipri == x.owner || exists w :: w in x.waiting && s.prio[w] == s.prio[x.owner])
  {
    LawfulSized(s, base, uses);
    var x := s.tbl[m];
    assert Fair(s.prio, base, uses, m, x);
    LineTail(x);
    WaitersInTable(x, |s.prio|);
    HighestWaiter(s.prio, x.waiting);
  }

  lemma HighestWaiter(prio: seq<int>, q: seq<int>)
    requires InTable(q, |prio|) && q != []
    ensures var high := Least(prio, q, prio[q[0]]);
            && (exists w :: w in q && 0 <= w < |prio| && prio[w] == high)
            && forall w :: w in q ==> 0 <= w < |prio| && high <= prio[w]
  {
    var high := Least(prio, q, prio[q[0]]);
    forall w | w in q
      ensures 0 <= w < |prio| && high <= prio[w]
    {
      var i :| 0 <= i < |q| && q[i] == w;
      assert high <= prio[q[i]];
    }
    assert q[0] in q;
  }

  lemma ThreeEnter() returns (s: System, s3: System)
    ensures s == System([9, 1, 2, 3], [Mutex(false, NULL, 0, NULL, [])])
    ensures s3 == System([9, 1, 2, 3], [Mutex(true, 1, 1, 1, [2, 3])])
    ensures var run := [Enter(0, 1), Enter(0, 2), Enter(0, 3)]; var uses := [0, 0, 0, 0];
            CanRun(s, uses, run) && Run(s, uses, run) == s3
  {
    var uses := [0, 0, 0, 0];
    s := System([9, 1, 2, 3], [Mutex(false, NULL, 0, NULL, [])]);
    var s1 := System([9, 1, 2, 3], [Mutex(true, 1, 1, 1, [])]);
    var s2 := System([9, 1, 2, 3], [Mutex(true, 1, 1, 1, [2])]);
    s3 := System([9, 1, 2, 3], [Mutex(true, 1, 1, 1, [2, 3])]);
    assert Do(s, uses, Enter(0, 1)) == s1;
    assert [] + [2] == [2] && [2] + [3] == [2, 3];
    assert Do(s1, uses, Enter(0, 2)) == s2;
    assert Do(s2, uses, Enter(0, 3)) == s3;
    var run := [Enter(0, 1), Enter(0, 2), Enter(0, 3)];
    assert run[1..] == [Enter(0, 2), Enter(0, 3)] && run[1..][1..] == [Enter(0, 3)] && run[1..][1..][1..] == [];
    assert CanRun(s3, uses, []);
    assert CanRun(s2, uses, run[1..][1..]) && Run(s2, uses, run[1..][1..]) == s3;
    assert CanRun(s1, uses, run[1..]) && Run(s1, uses, run[1..]) == s3;
  }

  lemma ThreeLeave(s: System) returns (s3: System)
    requires s == System([9, 1, 2, 3], [Mutex(true, 1, 1, 1, [2, 3])])
    ensures s3 == System([9, 1, 2, 2], [Mutex(false, NULL, 3, 1, [])])
    ensures var run := [Leave(0), Leave(0), Leave(0)]; var uses := [0, 0, 0, 0];
            CanRun(s, uses, run) && Run(s, uses, run) == s3
  {
    var uses := [0, 0, 0, 0];
    var s1 := System([9, 1, 2, 3], [Mutex(true, 2, 2, 1, [3])]);
    var s2 := System([9, 1, 2, 2], [Mutex(true, 3, 3, 1, [])]);
    s3 := System([9, 1, 2, 2], [Mutex(false, NULL, 3, 1, [])]);
    FirstLeave(s, s1);
    assert [3][1..] == [];
    assert Do(s1, uses, Leave(0)) == s2;
    assert Do(s2, uses, Leave(0)) == s3;
    var run := [Leave(0), Leave(0), Leave(0)];
    assert run[1..] == [Leave(0), Leave(0)] && run[1..][1..] == [Leave(0)] && run[1..][1..][1..] == [];
    assert CanRun(s3, uses, []);
    assert CanRun(s2, uses, run[1..][1..]) && Run(s2, uses, run[1..][1..]) == s3;
    assert CanRun(s1, uses, run[1..]) && Run(s1, uses, run[1..]) == s3;
  }

  lemma FirstLeave(s: System, s1: System)
    requires s == System([9, 1, 2, 3], [Mutex(true, 1, 1, 1, [2, 3])])
    requires s1 == System([9, 1, 2, 3], [Mutex(true, 2, 2, 1, [3])])
    ensures Sized(s) && Do(s, [0, 0, 0, 0], Leave(0)) == s1
  {
    assert [2, 3][1..] == [3] && [3][1..] == [];
    assert Least(s.prio, [2, 3], 2) == 2 && Lowest(s.prio, [2, 3], 2, 1) == 1;
  }

  /** Tasks 1, 2 and 3, with priorities in this order, enter in turn and leave in turn, and nobody has to be
      promoted.  Task 3 is given the priority of task 2 all the same, and keeps it when the mutex is free again. */
  lemma StaysRaised() returns (s: System, r: System)
    ensures var uses := [0, 0, 0, 0];
            var enter, leave := [Enter(0, 1), Enter(0, 2), Enter(0, 3)], [Leave(0), Leave(0), Leave(0)];
            && Lawful(s, s.prio, uses) && CanRun(s, uses, enter) && CanRun(Run(s, uses, enter), uses, leave)
            && r == Run(Run(s, uses, enter), uses, leave)
    ensures s.prio == [9, 1, 2, 3] && r.prio == [9, 1, 2, 2] && |r.tbl| == 1 && !r.tbl[0].occupied
  {
    var s3;
    s, s3 := ThreeEnter();
    r := ThreeLeave(s3);
    assert Line(s.tbl[0]) == [];
  }
}
