/** Entries of a delta list that are armed once, sleeping tasks and one-shot timers, over whole runs: each is
    released exactly once, when it is due. */
module DeltaOnce {
  import opened DeltaList
  import opened DeltaClock

  /** f is `was` and one release more, of a job that was due and had waited no longer than ticks were lost. */
  predicate ReleasedOnce(f: seq<int>, was: seq<int>, job: Job, now: int, lost: int) {
    && |f| == |was| + 1 && f[..|was|] == was
    && job.due <= f[|was|] <= now && f[|was|] - job.due <= lost - job.lost
  }

  /** id was armed once, for job, when its releases were `was`: it is on the list and was not released since, or
      it is off the list and was released once. */
  ghost predicate Once(c: Clock, id: int, job: Job, was: seq<int>) {
    && id in c.jobs && c.jobs[id] == job && job.reload == 0
    && if Armed(c.l, id) then FireTimes(c.log, id) == was
       else ReleasedOnce(FireTimes(c.log, id), was, job, c.now, c.lost)
  }

  predicate Untouched(op: Op, id: int) { (op.Stop? ==> op.id != id) && (op.Start? ==> op.id != id) }

  lemma HeadOnce(c: Clock, id: int, job: Job, was: seq<int>)
    requires Lawful(c) && Once(c, id, job, was) && c.l != [] && c.l[0].delta == 0 && c.l[0].id == id
    ensures FireTimes(c.log, id) == was && c.now == job.due + (c.lost - job.lost) && job.lost <= c.lost
  {
    assert Armed(c.l, id);
    assert OnTime(c, 0);
    assert Due(c.l, 0) == Due(c.l, -1) + c.l[0].delta;
  }

  lemma FireOnceStep(c: Clock, n: nat, id: int, job: Job, was: seq<int>) returns (d: Clock)
    requires Lawful(c) && Once(c, id, job, was) && n == DueNow(c.l, 0) && n > 0
    ensures Lawful(d) && DueNow(d.l, 0) == n - 1 && Fire(c, n) == Fire(d, n - 1)
    ensures Once(d, id, job, was)
  {
    d := FireStep(c, n);
    FireTimesAppend(c.log, ReleaseOf(c, c.l[0]), id);
    if c.l[0].id == id { HeadOnce(c, id, job, was); }
  }

  /** A disposal keeps it. */
  lemma {:induction false} FireOnce(c: Clock, n: nat, id: int, job: Job, was: seq<int>)
    requires Lawful(c) && Once(c, id, job, was) && n == DueNow(c.l, 0)
    ensures Once(Fire(c, n), id, job, was)
    decreases n
  {
    if n > 0 {
      var d := FireOnceStep(c, n, id, job, was);
      FireOnce(d, n - 1, id, job, was);
    }
  }

  lemma CountedOnce(c: Clock, id: int, job: Job, was: seq<int>)
    requires Lawful(c) && Once(c, id, job, was)
    ensures Once(CountedDownClock(c), id, job, was)
  {
    var d := CountedDownClock(c);
    assert forall i :: 0 <= i < |c.l| ==> d.l[i].id == c.l[i].id;
  }

  lemma TickOnce(c: Clock, locked: bool, id: int, job: Job, was: seq<int>)
    requires Inv(c) && Once(c, id, job, was)
    ensures Once(TickStep(c, locked), id, job, was)
  {
    var c1 := TickCases(c, locked);
    TickedLawful(c);
    CountedOnce(c, id, job, was);
    FireOnce(c1, DueNow(c1.l, 0), id, job, was);
  }

  lemma StartOnce(c: Clock, other: int, ticks: U32, reload: U32, id: int, job: Job, was: seq<int>)
    requires Inv(c) && Once(c, id, job, was) && other != id
    requires Allowed(c, Start(other, ticks, reload))
    ensures Once(Arm(c, other, ticks, reload), id, job, was)
  {
    SmallWaits(c.l, other, ticks);
    InsertIsStable(c.l, other, ticks);
    InsertArmed(c.l, other, ticks);
  }

  lemma StopOnce(c: Clock, other: int, id: int, job: Job, was: seq<int>)
    requires Inv(c) && Once(c, id, job, was) && other != id
    ensures Once(Disarm(c, other), id, job, was)
  {
    var k := Find(c.l, other, 0);
    if k < |c.l| { RemoveArmed(c.l, k); }
  }

  lemma StepOnce(c: Clock, op: Op, id: int, job: Job, was: seq<int>)
    requires Inv(c) && Once(c, id, job, was) && Allowed(c, op) && Untouched(op, id)
    ensures Once(Step(c, op), id, job, was)
  {
    match op {
      case Start(other, ticks, reload) => StartOnce(c, other, ticks, reload, id, job, was);
      case Stop(other) => StopOnce(c, other, id, job, was);
      case TickOp(locked) => TickOnce(c, locked, id, job, was);
      case Respond => if c.pending { FireOnce(c, DueNow(c.l, 0), id, job, was); }
    }
  }

  lemma {:induction false} RunOnce(c: Clock, ops: seq<Op>, id: int, job: Job, was: seq<int>)
    requires Inv(c) && Once(c, id, job, was) && AllAllowed(c, ops) && forall op :: op in ops ==> Untouched(op, id)
    ensures Inv(Run(c, ops)) && Once(Run(c, ops), id, job, was)
    decreases |ops|
  {
    if ops != [] {
      assert ops[0] in ops && forall op :: op in ops[1..] ==> op in ops;
      StepInv(c, ops[0]);
      StepOnce(c, ops[0], id, job, was);
      RunOnce(Step(c, ops[0]), ops[1..], id, job, was);
    }
  }

  /** Over any run, deferred disposals included, that neither stops id nor starts it again: an entry that is armed
      once is still on the list, not past its due time, and was not released, or it is off the list and was
      released exactly once, not before it was due and late by no more than the ticks lost. */
  lemma ReleasedExactlyOnce(c: Clock, ops: seq<Op>, id: int)
    requires Inv(c) && AllAllowed(c, ops) && forall op :: op in ops ==> Untouched(op, id)
    requires Armed(c.l, id) && id in c.jobs && c.jobs[id].reload == 0
    ensures var d, job := Run(c, ops), c.jobs[id];
            var was, f := FireTimes(c.log, id), FireTimes(d.log, id);
            if Armed(d.l, id)
            then f == was && d.now <= job.due + (d.lost - job.lost)
               && (!d.pending ==> d.now < job.due + (d.lost - job.lost))
            else |f| == |was| + 1 && f[..|was|] == was
                 && job.due <= f[|was|] <= d.now && f[|was|] - job.due <= d.lost - job.lost
  {
    RunOnce(c, ops, id, c.jobs[id], FireTimes(c.log, id));
    var d := Run(c, ops);
    if Armed(d.l, id) {
      ArmedJob(d, id);
      if !d.pending { assert DueNow(d.l, 0) == 0; }
    }
  }

  // ----- stopped entries -----

  /** id is on no list, and was released as in `was`. */
  ghost predicate Silent(c: Clock, id: int, was: seq<int>) { !Armed(c.l, id) && FireTimes(c.log, id) == was }

  lemma {:induction false} FireSilent(c: Clock, n: nat, id: int, was: seq<int>)
    requires Lawful(c) && Silent(c, id, was) && n == DueNow(c.l, 0)
    ensures Silent(Fire(c, n), id, was)
    decreases n
  {
    if n > 0 {
      assert c.l[0].id != id;
      FireTimesAppend(c.log, ReleaseOf(c, c.l[0]), id) by { DueHaveJobs(c); }
      var d := FireStep(c, n);
      FireSilent(d, n - 1, id, was);
    }
  }

  lemma TickSilent(c: Clock, locked: bool, id: int, was: seq<int>)
    requires Inv(c) && Silent(c, id, was)
    ensures Silent(TickStep(c, locked), id, was)
  {
    var c1 := TickCases(c, locked);
    TickedLawful(c);
    assert forall i :: 0 <= i < |c.l| ==> c1.l[i].id == c.l[i].id;
    assert Silent(c1, id, was);
    FireSilent(c1, DueNow(c1.l, 0), id, was);
  }

  lemma StepSilent(c: Clock, op: Op, id: int, was: seq<int>)
    requires Inv(c) && Silent(c, id, was) && Allowed(c, op) && (op.Start? ==> op.id != id)
    ensures Silent(Step(c, op), id, was)
  {
    match op {
      case Start(other, ticks, reload) =>
        SmallWaits(c.l, other, ticks);
        InsertIsStable(c.l, other, ticks);
        InsertArmed(c.l, other, ticks);
      case Stop(other) =>
        var k := Find(c.l, other, 0);
        if k < |c.l| { RemoveArmed(c.l, k); }
      case TickOp(locked) => TickSilent(c, locked, id, was);
      case Respond => if c.pending { FireSilent(c, DueNow(c.l, 0), id, was); }
    }
  }

  lemma {:induction false} RunSilent(c: Clock, ops: seq<Op>, id: int, was: seq<int>)
    requires Inv(c) && Silent(c, id, was) && AllAllowed(c, ops) && forall op :: op in ops ==> op.Start? ==> op.id != id
    ensures Silent(Run(c, ops), id, was)
    decreases |ops|
  {
    if ops != [] {
      assert ops[0] in ops && forall op :: op in ops[1..] ==> op in ops;
      StepInv(c, ops[0]);
      StepSilent(c, ops[0], id, was);
      RunSilent(Step(c, ops[0]), ops[1..], id, was);
    }
  }

  /** A stop is final: over any run that does not start the timer again, it is not released any more. */
  lemma StopIsFinal(c: Clock, id: int, ops: seq<Op>)
    requires Inv(c) && AllAllowed(Step(c, Stop(id)), ops) && forall op :: op in ops ==> op.Start? ==> op.id != id
    ensures var d := Run(Step(c, Stop(id)), ops); !Armed(d.l, id) && FireTimes(d.log, id) == FireTimes(c.log, id)
  {
    var k := Find(c.l, id, 0);
    if k < |c.l| { RemoveArmed(c.l, k); }
    StepInv(c, Stop(id));
    RunSilent(Step(c, Stop(id)), ops, id, FireTimes(c.log, id));
  }

  // ----- without deferred ticks -----

  lemma UndeferredStep(c: Clock, op: Op)
    requires Inv(c) && !c.pending && Allowed(c, op) && (op.TickOp? ==> !op.locked)
    ensures Inv(Step(c, op)) && !Step(c, op).pending && Step(c, op).lost == c.lost
  {
    StepInv(c, op);
    if op.TickOp? {
      TickedLawful(c);
      var c1 := TickCases(c, false);
      FireLawful(c1, DueNow(c1.l, 0));
    }
  }

  lemma {:induction false} UndeferredRun(c: Clock, ops: seq<Op>)
    requires Inv(c) && !c.pending && AllAllowed(c, ops) && forall op :: op in ops ==> op.TickOp? ==> !op.locked
    ensures Inv(Run(c, ops)) && !Run(c, ops).pending && Run(c, ops).lost == c.lost
    decreases |ops|
  {
    if ops != [] {
      assert ops[0] in ops && forall op :: op in ops[1..] ==> op in ops;
      UndeferredStep(c, ops[0]);
      UndeferredRun(Step(c, ops[0]), ops[1..]);
    }
  }

  /** A one-shot entry armed at tick t for n ticks is released, in a run without deferred ticks, once and at t + n:
      as soon as t + n has come there is that one release more, and before there is none. */
  lemma OnceFromStart(c: Clock, s: Clock, id: int, ticks: U32, ops: seq<Op>) returns (d: Clock)
    requires Inv(c) && !c.pending && Allowed(c, Start(id, ticks, 0))
    requires s == Step(c, Start(id, ticks, 0)) && AllAllowed(s, ops) && Undisturbed(ops, id)
    ensures d == Run(s, ops)
    ensures FireTimes(d.log, id) == FireTimes(c.log, id) + if c.now + ticks <= d.now then [c.now + ticks] else []
  {
    ArmedAtStart(c, s, id, ticks, 0);
    ReleasedExactlyOnce(s, ops, id);
    UndeferredRun(s, ops);
    d := Run(s, ops);
    var was, f := FireTimes(c.log, id), FireTimes(d.log, id);
    assert |f| == |was| + 1 ==> f == f[..|was|] + [f[|was|]];
  }
}
