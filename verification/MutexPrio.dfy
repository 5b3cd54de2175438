/** The priority of the task that holds a mutex, from the step with which it got the mutex to the leave. */
module MutexPrio {
  import opened Links
  import opened Mutexes

  /** Step a gives mutex m to task t: t finds it free, or it is passed on to t. */
  predicate Acquires(s: System, uses: seq<int>, a: Action, m: int, t: int) {
    && Enabled(s, uses, a) && a.m == m && 0 <= m < |s.tbl|
    && if a.Enter? then a.t == t && !s.tbl[m].occupied else s.tbl[m].waiting != [] && s.tbl[m].waiting[0] == t
  }

  /** Task t holds mutex m, which has saved priority p; t was given priority q with the mutex, and has the highest of
      q and the priorities of those that wait. */
  ghost predicate Holds(s: System, base: seq<int>, uses: seq<int>, m: int, t: int, p: int, q: int) {
    && Lawful(s, base, uses) && 0 <= m < |s.tbl| && 0 < t < |s.prio| && uses[t] == m
    && InTable(s.tbl[m].waiting, |s.prio|) && t !in s.tbl[m].waiting
    && s.tbl[m].occupied && s.tbl[m].owner == t && s.tbl[m].original == p
    && s.prio[t] == Least(s.prio, s.tbl[m].waiting, q)
  }

  lemma {:induction false} LeastIsFirst(prio: seq<int>, w: seq<int>, q: int)
    requires InTable(w, |prio|) && forall i :: 0 <= i < |w| ==> q <= prio[w[i]]
    ensures Least(prio, w, q) == q
  {
    if w != [] { LeastIsFirst(prio, w[1..], q); }
  }

  lemma {:induction false} LeastAppend(prio: seq<int>, w: seq<int>, u: int, q: int)
    requires InTable(w, |prio|) && 0 <= u < |prio|
    ensures InTable(w + [u], |prio|)
    ensures var r := Least(prio, w, q); Least(prio, w + [u], q) == if prio[u] < r then prio[u] else r
    decreases |w|
  {
    if w == [] {
      assert [] + [u] == [u] && [u][1..] == [];
    } else {
      LeastAppend(prio, w[1..], u, if prio[w[0]] < q then prio[w[0]] else q);
      assert (w + [u])[1..] == w[1..] + [u];
    }
  }

  lemma {:induction false} LeastSame(prio: seq<int>, prio': seq<int>, w: seq<int>, q: int)
    requires InTable(w, |prio|) && |prio'| == |prio| && forall i :: 0 <= i < |w| ==> prio'[w[i]] == prio[w[i]]
    ensures Least(prio', w, q) == Least(prio, w, q)
  {
    if w != [] { LeastSame(prio, prio', w[1..], if prio[w[0]] < q then prio[w[0]] else q); }
  }

  lemma WaitersUse(s: System, base: seq<int>, uses: seq<int>, m: int)
    requires Lawful(s, base, uses) && 0 <= m < |s.tbl|
    ensures InTable(s.tbl[m].waiting, |s.prio|)
    ensures forall i :: 0 <= i < |s.tbl[m].waiting| ==>
              0 < s.tbl[m].waiting[i] < |uses| && uses[s.tbl[m].waiting[i]] == m
    ensures !s.tbl[m].occupied ==> s.tbl[m].waiting == []
    ensures s.tbl[m].occupied ==>
              var x := s.tbl[m];
              && 0 < x.owner < |s.prio| && uses[x.owner] == m && x.owner !in x.waiting && Distinct(x.waiting)
              && forall i :: 0 <= i < |x.waiting| ==> s.prio[x.owner] <= s.prio[x.waiting[i]]
  {
    var x := s.tbl[m];
    assert Fair(s.prio, base, uses, m, x);
    WaitersInTable(x, |s.prio|);
    if x.occupied {
      LineTail(x);
      assert x.owner in Line(x);
      forall i | 0 <= i < |x.waiting|
        ensures 0 < x.waiting[i] < |uses| && uses[x.waiting[i]] == m && s.prio[x.owner] <= s.prio[x.waiting[i]]
      {
        assert x.waiting[i] in x.waiting;
      }
    }
  }

  // ----- getting the mutex -----

  /** The saved priority is the one that t had before the step. */
  lemma AcquiredHolds(s: System, base: seq<int>, uses: seq<int>, a: Action, m: int, t: int) returns (d: System)
    requires Lawful(s, base, uses) && Acquires(s, uses, a, m, t)
    ensures Sized(s) && d == Do(s, uses, a) && 0 <= t < |s.prio| == |d.prio|
    ensures Holds(d, base, uses, m, t, s.prio[t], d.prio[t])
  {
    StepLawful(s, base, uses, a);
    WaitersUse(s, base, uses, m);
    d := Do(s, uses, a);
    if a.Leave? { PassedFields(s, uses, m); }
    WaitersUse(d, base, uses, m);
    LeastIsFirst(d.prio, d.tbl[m].waiting, d.prio[t]);
  }

  lemma PassedFields(s: System, uses: seq<int>, m: int)
    requires Sized(s) && |uses| == |s.prio| && Enabled(s, uses, Leave(m)) && s.tbl[m].waiting != []
    requires s.tbl[m].owner !in s.tbl[m].waiting
    ensures var d, x := Do(s, uses, Leave(m)), s.tbl[m];
            && |d.prio| == |s.prio| && |d.tbl| == |s.tbl| && d.tbl[m].occupied && d.tbl[m].owner == x.waiting[0]
            && 0 <= x.waiting[0] < |s.prio| && d.tbl[m].original == s.prio[x.waiting[0]]
  {
    WaitersInTable(s.tbl[m], |s.prio|);
    assert s.tbl[m].waiting[0] in s.tbl[m].waiting;
  }

  // ----- holding it -----

  /** Every step but the leave of the mutex: the saved priority stays, and the holder's follows those that wait. */
  lemma StepHolds(s: System, base: seq<int>, uses: seq<int>, a: Action, m: int, t: int, p: int, q: int)
    returns (d: System)
    requires Holds(s, base, uses, m, t, p, q) && Enabled(s, uses, a) && a != Leave(m)
    ensures Sized(s) && d == Do(s, uses, a) && Holds(d, base, uses, m, t, p, q)
  {
    StepLawful(s, base, uses, a);
    StepPrio(s, base, uses, a);
    WaitersUse(s, base, uses, m);
    d := Do(s, uses, a);
    WaitersUse(d, base, uses, m);
    if a.m == m {
      EnterHolds(s, d, uses, a.t, m, t, q);
    } else {
      var e := OtherKept(s, uses, a, m);
      LeastSame(s.prio, d.prio, s.tbl[m].waiting, q);
    }
  }

  lemma EnterHolds(s: System, d: System, uses: seq<int>, u: int, m: int, t: int, q: int)
    requires Sized(s) && |uses| == |s.prio| && Enabled(s, uses, Enter(m, u)) && d == Do(s, uses, Enter(m, u))
    requires s.tbl[m].occupied && s.tbl[m].owner == t && 0 <= t < |s.prio| && InTable(s.tbl[m].waiting, |s.prio|)
    requires t !in s.tbl[m].waiting && s.prio[t] == Least(s.prio, s.tbl[m].waiting, q) && u !in Line(s.tbl[m])
    ensures |d.prio| == |s.prio| && |d.tbl| == |s.tbl| && d.tbl[m].waiting == s.tbl[m].waiting + [u]
    ensures d.tbl[m].occupied && d.tbl[m].owner == t && d.tbl[m].original == s.tbl[m].original
    ensures InTable(d.tbl[m].waiting, |d.prio|) && d.prio[t] == Least(d.prio, d.tbl[m].waiting, q)
  {
    var w := s.tbl[m].waiting;
    assert Line(s.tbl[m])[0] == t && u != t;
    LeastAppend(s.prio, w, u, q);
    forall i | 0 <= i < |w + [u]|
      ensures d.prio[(w + [u])[i]] == s.prio[(w + [u])[i]]
    {
      assert i < |w| ==> w[i] in w;
    }
    LeastSame(s.prio, d.prio, w + [u], q);
  }

  lemma {:induction false} RunHolds(s: System, base: seq<int>, uses: seq<int>, run: seq<Action>, m: int, t: int,
                                    p: int, q: int)
    returns (r: System)
    requires Holds(s, base, uses, m, t, p, q) && CanRun(s, uses, run) && Leaves(run, m) == 0
    ensures r == Run(s, uses, run) && Holds(r, base, uses, m, t, p, q)
    decreases |run|
  {
    if run == [] {
      r := s;
    } else {
      var d := StepHolds(s, base, uses, run[0], m, t, p, q);
      r := RunHolds(d, base, uses, run[1..], m, t, p, q);
    }
  }

  // ----- leaving it -----

  lemma LeftPrio(s: System, base: seq<int>, uses: seq<int>, m: int)
    requires Lawful(s, base, uses) && Enabled(s, uses, Leave(m)) && s.tbl[m].waiting != []
    ensures Sized(s) && 0 <= s.tbl[m].owner < |s.prio|
    ensures var d := Do(s, uses, Leave(m)); |d.prio| == |s.prio| && d.prio[s.tbl[m].owner] == s.tbl[m].original
  {
    LawfulSized(s, base, uses);
    WaitersUse(s, base, uses, m);
    assert s.tbl[m].waiting[0] in s.tbl[m].waiting;
  }

  /** Task t gets mutex m with step a, by finding it free or from the task before it.  Whatever happens until m is
      left: the priority that t had before step a stays saved, t runs at the highest of what it was given and what
      those that wait have, and leaving m while tasks wait gives t the priority back that it had before step a. */
  lemma SavedAndRestored(s: System, base: seq<int>, uses: seq<int>, a: Action, run: seq<Action>, m: int, t: int)
    returns (d: System, r: System)
    requires Lawful(s, base, uses) && Acquires(s, uses, a, m, t)
    requires Sized(s) && CanRun(Do(s, uses, a), uses, run) && Leaves(run, m) == 0
    ensures d == Do(s, uses, a) && r == Run(d, uses, run) && |r.prio| == |s.prio| == |d.prio| && 0 < t < |s.prio|
    ensures Lawful(r, base, uses) && |r.tbl| == |s.tbl| && r.tbl[m].occupied && r.tbl[m].owner == t
    ensures r.tbl[m].original == s.prio[t]
    ensures InTable(r.tbl[m].waiting, |r.prio|) && r.prio[t] == Least(r.prio, r.tbl[m].waiting, d.prio[t])
    ensures r.tbl[m].waiting != [] ==>
              Sized(r) && |Do(r, uses, Leave(m)).prio| == |s.prio| && Do(r, uses, Leave(m)).prio[t] == s.prio[t]
  {
    d := AcquiredHolds(s, base, uses, a, m, t);
    StepLawful(s, base, uses, a);
    RunLawful(d, base, uses, run, m);
    r := RunHolds(d, base, uses, run, m, t, s.prio[t], d.prio[t]);
    if r.tbl[m].waiting != [] { LeftPrio(r, base, uses, m); }
  }

  // ----- the task that the holder owes its priority to -----

  /** Holder t has the priority q it came with and names itself, or it was raised and names a waiter of its priority. */
  ghost predicate Names(s: System, m: int, t: int, q: int) {
    && 0 <= m < |s.tbl| && 0 <= t < |s.prio| && s.prio[t] <= q
    && (s.tbl[m].hipri == t <==> s.prio[t] == q)
    && (s.tbl[m].hipri != t ==>
          s.tbl[m].hipri in s.tbl[m].waiting && 0 <= s.tbl[m].hipri < |s.prio| && s.prio[s.tbl[m].hipri] == s.prio[t])
  }

  lemma StepNames(s: System, base: seq<int>, uses: seq<int>, a: Action, m: int, t: int, p: int, q: int)
    requires Holds(s, base, uses, m, t, p, q) && Names(s, m, t, q) && Enabled(s, uses, a) && a != Leave(m)
    ensures Sized(s) && Names(Do(s, uses, a), m, t, q)
  {
    StepLawful(s, base, uses, a);
    StepPrio(s, base, uses, a);
    WaitersUse(s, base, uses, m);
    if a.m == m {
      assert Line(s.tbl[m])[0] == t && a.t != t;
      EnterNames(s, uses, a.t, m, t, q);
    } else {
      var d := OtherKept(s, uses, a, m);
      HipriUses(s, uses, m, t);
    }
  }

  lemma HipriUses(s: System, uses: seq<int>, m: int, t: int)
    requires 0 <= m < |s.tbl| && 0 <= t < |uses| == |s.prio| && uses[t] == m
    requires forall i :: 0 <= i < |s.tbl[m].waiting| ==>
               0 < s.tbl[m].waiting[i] < |uses| && uses[s.tbl[m].waiting[i]] == m
    requires s.tbl[m].hipri == t || s.tbl[m].hipri in s.tbl[m].waiting
    ensures 0 <= s.tbl[m].hipri < |uses| && uses[s.tbl[m].hipri] == m
  {
  }

  lemma EnterNames(s: System, uses: seq<int>, u: int, m: int, t: int, q: int)
    requires Sized(s) && |uses| == |s.prio| && Enabled(s, uses, Enter(m, u)) && Names(s, m, t, q)
    requires s.tbl[m].occupied && s.tbl[m].owner == t != u && 0 < t
    ensures Names(Do(s, uses, Enter(m, u)), m, t, q)
  {
    var d := Do(s, uses, Enter(m, u));
    assert d.tbl[m].waiting == s.tbl[m].waiting + [u] && u in d.tbl[m].waiting;
  }

  lemma {:induction false} RunNames(s: System, base: seq<int>, uses: seq<int>, run: seq<Action>, m: int, t: int,
                                    p: int, q: int)
    requires Holds(s, base, uses, m, t, p, q) && Names(s, m, t, q) && CanRun(s, uses, run) && Leaves(run, m) == 0
    ensures Names(Run(s, uses, run), m, t, q)
    decreases |run|
  {
    if run != [] {
      StepNames(s, base, uses, run[0], m, t, p, q);
      var d := StepHolds(s, base, uses, run[0], m, t, p, q);
      RunNames(d, base, uses, run[1..], m, t, p, q);
    }
  }

  /** A task that finds the mutex free: until it leaves, hipri names it while it was not raised, and then a waiter of
      its priority.  So the first hand-over after that gives the next task the highest priority among the waiters. */
  lemma FirstHandOver(s: System, base: seq<int>, uses: seq<int>, run: seq<Action>, m: int, t: int) returns (r: System)
    requires Lawful(s, base, uses) && Enabled(s, uses, Enter(m, t)) && !s.tbl[m].occupied
    requires Sized(s) && CanRun(Do(s, uses, Enter(m, t)), uses, run) && Leaves(run, m) == 0
    ensures r == Run(Do(s, uses, Enter(m, t)), uses, run) && Sized(r) && Lawful(r, base, uses) && |r.tbl| == |s.tbl|
    ensures Names(r, m, t, s.prio[t]) && r.tbl[m].occupied && r.tbl[m].owner == t
    ensures var w := r.tbl[m].waiting;
            w != [] ==>
              && InTable(w, |r.prio|) && |Do(r, uses, Leave(m)).prio| == |r.prio|
              && Do(r, uses, Leave(m)).prio[w[0]] == Least(r.prio, w, r.prio[w[0]])
  {
    var d;
    d, r := SavedAndRestored(s, base, uses, Enter(m, t), run, m, t);
    var e := AcquiredHolds(s, base, uses, Enter(m, t), m, t);
    RunNames(d, base, uses, run, m, t, s.prio[t], d.prio[t]);
    LawfulSized(r, base, uses);
    if r.tbl[m].waiting != [] { HandOverPrioIff(r, base, uses, m); }
  }

  // ----- what a step leaves alone -----

  /** Entering changes the priority of the holder only, to the caller's if that is higher. */
  lemma EnterTouches(s: System, base: seq<int>, uses: seq<int>, m: int, t: int)
    requires Lawful(s, base, uses) && Enabled(s, uses, Enter(m, t))
    ensures Sized(s)
    ensures var d, x := Do(s, uses, Enter(m, t)), s.tbl[m];
            && |d.prio| == |s.prio|
            && (forall u :: 0 <= u < |s.prio| && (!x.occupied || u != x.owner) ==> d.prio[u] == s.prio[u])
            && (x.occupied ==>
                  && 0 <= x.owner < |s.prio|
                  && d.prio[x.owner] == if s.prio[t] < s.prio[x.owner] then s.prio[t] else s.prio[x.owner])
  {
    LawfulSized(s, base, uses);
    WaitersUse(s, base, uses, m);
  }

  /** Leaving changes the priorities of the holder and of the next holder only, and none if nobody waits. */
  lemma LeaveTouches(s: System, base: seq<int>, uses: seq<int>, m: int)
    requires Lawful(s, base, uses) && Enabled(s, uses, Leave(m))
    ensures Sized(s)
    ensures var d, x := Do(s, uses, Leave(m)), s.tbl[m];
            && |d.prio| == |s.prio| && (x.waiting == [] ==> d.prio == s.prio)
            && forall u :: 0 <= u < |s.prio| && u != x.owner && (x.waiting != [] ==> u != x.waiting[0]) ==>
                 d.prio[u] == s.prio[u]
  {
    LawfulSized(s, base, uses);
    WaitersUse(s, base, uses, m);
  }

  // ----- whom the next holder names -----

  /** Lowest names the first task on q with the least priority, if that is below p, and h otherwise. */
  lemma {:induction false} LowestIs(prio: seq<int>, q: seq<int>, p: int, h: int)
    requires InTable(q, |prio|)
    ensures if forall i :: 0 <= i < |q| ==> p <= prio[q[i]] then Lowest(prio, q, p, h) == h
            else exists k :: FirstLeast(prio, q, k) && Lowest(prio, q, p, h) == q[k]
  {
    if q != [] {
      if prio[q[0]] < p { LowestIs(prio, q[1..], prio[q[0]], q[0]); } else { LowestIs(prio, q[1..], p, h); }
      LowestTail(prio, q, p, h);
    }
  }

  /** No entry of q has a lower priority than entry k, and those before it have a higher number. */
  ghost predicate FirstLeast(prio: seq<int>, q: seq<int>, k: int)
    requires InTable(q, |prio|)
  {
    && 0 <= k < |q| && (forall i :: 0 <= i < |q| ==> prio[q[k]] <= prio[q[i]])
    && (forall i :: 0 <= i < k ==> prio[q[k]] < prio[q[i]])
  }

  lemma LowestTail(prio: seq<int>, q: seq<int>, p: int, h: int)
    requires InTable(q, |prio|) && q != []
    requires var first := prio[q[0]] < p; var p', h' := if first then prio[q[0]] else p, if first then q[0] else h;
             if forall i :: 0 <= i < |q| - 1 ==> p' <= prio[q[1..][i]] then Lowest(prio, q[1..], p', h') == h'
             else exists k :: FirstLeast(prio, q[1..], k) && Lowest(prio, q[1..], p', h') == q[1..][k]
    ensures if forall i :: 0 <= i < |q| ==> p <= prio[q[i]] then Lowest(prio, q, p, h) == h
            else exists k :: FirstLeast(prio, q, k) && Lowest(prio, q, p, h) == q[k]
  {
    var p' := if prio[q[0]] < p then prio[q[0]] else p;
    if forall i :: 0 <= i < |q| - 1 ==> p' <= prio[q[1..][i]] {
      forall i | 0 <= i < |q|
        ensures p' <= prio[q[i]]
      {
        if i > 0 { assert q[1..][i - 1] == q[i]; }
      }
      if prio[q[0]] < p { assert FirstLeast(prio, q, 0); }
    } else {
      var k :| FirstLeast(prio, q[1..], k) && Lowest(prio, q, p, h) == q[1..][k];
      FirstShifts(prio, q, k, p');
    }
  }

  lemma FirstShifts(prio: seq<int>, q: seq<int>, k: int, p: int)
    requires InTable(q, |prio|) && q != [] && p <= prio[q[0]] && FirstLeast(prio, q[1..], k)
    requires exists i :: 0 <= i < |q| - 1 && prio[q[1..][i]] < p
    ensures FirstLeast(prio, q, k + 1) && q[k + 1] == q[1..][k] && prio[q[k + 1]] < p
  {
    var j :| 0 <= j < |q| - 1 && prio[q[1..][j]] < p;
    forall i | 0 <= i < |q|
      ensures prio[q[k + 1]] <= prio[q[i]] && (i < k + 1 ==> prio[q[k + 1]] < prio[q[i]])
    {
      if i > 0 { assert q[1..][i - 1] == q[i]; }
    }
  }

  /** After a hand-over the mutex names the first of the waiters with the highest priority, if that is higher than the
      new holder's own and the leaving task was not promoted; otherwise it goes on naming whom it named. */
  lemma HandOverNames(s: System, base: seq<int>, uses: seq<int>, m: int)
    requires Lawful(s, base, uses) && Enabled(s, uses, Leave(m)) && s.tbl[m].waiting != []
    ensures Sized(s) && InTable(s.tbl[m].waiting, |s.prio|)
    ensures var d, x := Do(s, uses, Leave(m)), s.tbl[m];
            && |d.tbl| == |s.tbl|
            && if x.hipri != x.owner
                  || forall i :: 0 <= i < |x.waiting| ==> s.prio[x.waiting[0]] <= s.prio[x.waiting[i]]
               then d.tbl[m].hipri == x.hipri
               else exists k :: FirstLeast(s.prio, x.waiting, k) && d.tbl[m].hipri == x.waiting[k]
  {
    LawfulSized(s, base, uses);
    WaitersUse(s, base, uses, m);
    var x := s.tbl[m];
    LowestIs(s.prio, x.waiting, s.prio[x.waiting[0]], x.hipri);
  }
}
