/** A delta list driven by the tick interrupt, over whole runs: sleeping tasks (which leave the list when
    they are due) and timers (which may be armed again).  A tick whose disposal is deferred by the scheduler
    lock leaves the head due; the ticks that follow until the disposal are lost for every entry. */
module DeltaClock {
  import opened DeltaList

  /** An entry was armed to become due at tick `due`, when `lost` ticks had been lost so far;
      reload 0 means it is not armed again. */
  datatype Job = Job(due: int, lost: int, reload: U32)

  datatype Release = Release(id: int, at: int, job: Job, lost: int)

  datatype Clock = Clock(now: nat, lost: nat, pending: bool, l: seq<Entry>, jobs: map<int, Job>, log: seq<Release>)

  ghost predicate DistinctIds(l: seq<Entry>) { forall i, j :: 0 <= i < j < |l| ==> l[i].id != l[j].id }

  ghost predicate OnTime(c: Clock, i: int)
    requires 0 <= i < |c.l|
  {
    c.l[i].id in c.jobs &&
    var job := c.jobs[c.l[i].id];
    c.now + Due(c.l, i) == job.due + (c.lost - job.lost) && job.lost <= c.lost && job.reload < S32_LIMIT
  }

  ghost predicate ReleasedOnTime(r: Release) {
    r.at == r.job.due + (r.lost - r.job.lost) && r.job.lost <= r.lost
  }

  /** Every entry's due time is on the clock, and everything released so far was released on time. */
  ghost predicate Lawful(c: Clock) {
    && DistinctIds(c.l)
    && Total(c.l) < S32_LIMIT
    && (forall i :: 0 <= i < |c.l| ==> OnTime(c, i))
    && (forall r :: r in c.log ==> ReleasedOnTime(r) && r.at <= c.now)
  }

  /** ... and nothing is due that is not about to be released. */
  ghost predicate Inv(c: Clock) {
    Lawful(c) && (c.l != [] && c.l[0].delta == 0 ==> c.pending)
  }

  ghost predicate Armed(l: seq<Entry>, id: int) { exists i :: 0 <= i < |l| && l[i].id == id }

  function Find(l: seq<Entry>, id: int, i: nat): (k: nat)
    requires i <= |l|
    ensures i <= k <= |l|
    ensures k < |l| ==> l[k].id == id
    ensures forall j :: i <= j < k ==> l[j].id != id
    decreases |l| - i
  {
    if i == |l| || l[i].id == id then i else Find(l, id, i + 1)
  }

  // ----- steps -----

  function Arm(c: Clock, id: int, ticks: U32, reload: U32): Clock {
    c.(l := Insert(c.l, id, ticks), jobs := c.jobs[id := Job(c.now + ticks, c.lost, reload)])
  }

  function Disarm(c: Clock, id: int): Clock {
    var k := Find(c.l, id, 0);
    if k == |c.l| then c else c.(l := Remove(c.l, k))
  }

  /** The head is due: it is released, and armed again if it has a reload value. */
  function FireHead(c: Clock): Clock
    requires c.l != [] && c.l[0].id in c.jobs
  {
    var id := c.l[0].id;
    var job := c.jobs[id];
    var c1 := c.(l := Remove(c.l, 0), log := c.log + [Release(id, c.now, job, c.lost)]);
    if job.reload == 0 then c1 else Arm(c1, id, job.reload, job.reload)
  }

  /** Releases everything that is due; with fuel for the entries that are due at the start. */
  function Fire(c: Clock, n: nat): Clock
    decreases n
  {
    if n == 0 || c.l == [] || c.l[0].id !in c.jobs || c.l[0].delta != 0 then c else Fire(FireHead(c), n - 1)
  }

  function FireDue(c: Clock): Clock { Fire(c, DueNow(c.l, 0)) }

  /** The disposal that was deferred. */
  function Dispose(c: Clock): Clock { FireDue(c).(pending := false) }

  /** One tick later; the tick is lost on a list whose head is due already. */
  function CountedDownClock(c: Clock): Clock {
    c.(now := c.now + 1, l := Tick(c.l), lost := if c.l != [] && c.l[0].delta == 0 then c.lost + 1 else c.lost)
  }

  function TickStep(c: Clock, locked: bool): Clock {
    var c1 := CountedDownClock(c);
    if c1.l == [] || c1.l[0].delta != 0 then c1
    else if locked then c1.(pending := true)
    else FireDue(c1)
  }

  datatype Op = Start(id: int, ticks: U32, reload: U32) | Stop(id: int) | TickOp(locked: bool) | Respond

  predicate Allowed(c: Clock, op: Op) {
    op.Start? ==> Find(c.l, op.id, 0) == |c.l| && 0 < op.ticks < S32_LIMIT && op.reload < S32_LIMIT
  }

  function Step(c: Clock, op: Op): Clock {
    match op
    case Start(id, ticks, reload) => Arm(c, id, ticks, reload)
    case Stop(id) => Disarm(c, id)
    case TickOp(locked) => TickStep(c, locked)
    case Respond => if c.pending then Dispose(c) else c
  }

  // ----- every step keeps the law -----

  lemma DueNowIs(l: seq<Entry>, z: nat)
    requires z <= |l|
    requires forall i :: 0 <= i < z ==> Due(l, i) == 0
    requires z < |l| ==> Due(l, z) > 0
    ensures DueNow(l, 0) == z
  {
    var r := DueNow(l, 0);
    assert r < z ==> Due(l, r) == 0;
    if r > z { ZeroPrefix(l, r, z); }
  }

  lemma ZerosAreDue(l: seq<Entry>, i: nat)
    requires i < |l|
    ensures Due(l, i) == 0 <==> i < DueNow(l, 0)
  {
    var z := DueNow(l, 0);
    if i < z { ZeroPrefix(l, z, i); } else { DueMonotone(l, z, i); }
  }

  lemma InsertZeros(l: seq<Entry>, m: seq<Entry>, id: int, ticks: int)
    requires StablyInserted(l, m, id, ticks) && ticks > 0
    ensures DueNow(m, 0) == DueNow(l, 0)
  {
    var k: int, z: nat := Place(l, ticks, 0), DueNow(l, 0);
    forall i | 0 <= i < |l|
      ensures Due(l, i) == 0 <==> i < z
    {
      ZerosAreDue(l, i);
    }
    if k < |l| { ZerosAreDue(l, k); }
    assert z > k - 1 || Due(m, z) == Due(l, z);
    DueNowIs(m, z);
  }

  /** The ids of m are those of l with id put in at k. */
  ghost predicate IdsInserted(l: seq<Entry>, m: seq<Entry>, k: nat, id: int) {
    && k <= |l| && |m| == |l| + 1
    && forall i {:trigger m[i]} :: 0 <= i < |m| ==>
         m[i].id == if i < k then l[i].id else if i == k then id else l[i - 1].id
  }

  lemma InsertIds(l: seq<Entry>, m: seq<Entry>, id: int, ticks: int)
    requires StablyInserted(l, m, id, ticks)
    ensures IdsInserted(l, m, Place(l, ticks, 0), id)
  {
    var k := Place(l, ticks, 0);
    forall i | k < i < |m|
      ensures m[i].id == l[i - 1].id
    {
      var j := i - 1;
      assert m[j + 1].id == l[j].id;
    }
  }

  lemma IdsDistinct(l: seq<Entry>, m: seq<Entry>, k: nat, id: int)
    requires IdsInserted(l, m, k, id) && DistinctIds(l) && !Armed(l, id)
    ensures DistinctIds(m)
  {
  }

  lemma IdsArmed(l: seq<Entry>, m: seq<Entry>, k: nat, id: int)
    requires IdsInserted(l, m, k, id)
    ensures Armed(m, id)
    ensures forall other :: other != id ==> (Armed(m, other) <==> Armed(l, other))
  {
    assert m[k].id == id;
    forall other | other != id && Armed(l, other)
      ensures Armed(m, other)
    {
      var i :| 0 <= i < |l| && l[i].id == other;
      var j := if i < k then i else i + 1;
      assert m[j].id == other;
    }
  }

  lemma InsertArmed(l: seq<Entry>, id: int, ticks: U32)
    requires WalkInRange(l, ticks)
    ensures var m := Insert(l, id, ticks);
            && Armed(m, id)
            && (forall other :: other != id ==> (Armed(m, other) <==> Armed(l, other)))
            && (DistinctIds(l) && !Armed(l, id) ==> DistinctIds(m))
  {
    InsertIsStable(l, id, ticks);
    InsertIds(l, Insert(l, id, ticks), id, ticks);
    IdsArmed(l, Insert(l, id, ticks), Place(l, ticks, 0), id);
    if DistinctIds(l) && !Armed(l, id) {
      IdsDistinct(l, Insert(l, id, ticks), Place(l, ticks, 0), id);
    }
  }

  /** After a stable insertion every entry of the list is where its job says. */
  lemma ArmOnTime(c: Clock, d: Clock, id: int, ticks: U32, reload: U32, i: int)
    requires Lawful(c) && StablyInserted(c.l, d.l, id, ticks) && !Armed(c.l, id) && reload < S32_LIMIT
    requires d.now == c.now && d.lost == c.lost && d.jobs == c.jobs[id := Job(c.now + ticks, c.lost, reload)]
    requires 0 <= i < |d.l|
    ensures OnTime(d, i)
  {
    var k := Place(c.l, ticks, 0);
    if i < k {
      assert OnTime(c, i);
    } else if i > k {
      assert OnTime(c, i - 1);
      assert d.l[i - 1 + 1].id == c.l[i - 1].id && Due(d.l, i - 1 + 1) == Due(c.l, i - 1);
    }
  }

  lemma ArmLawful(c: Clock, id: int, ticks: U32, reload: U32)
    requires Lawful(c) && !Armed(c.l, id) && 0 < ticks < S32_LIMIT && reload < S32_LIMIT
    ensures var d := Arm(c, id, ticks, reload);
            && Lawful(d) && StablyInserted(c.l, d.l, id, ticks) && DueNow(d.l, 0) == DueNow(c.l, 0)
  {
    var d := Arm(c, id, ticks, reload);
    SmallWaits(c.l, id, ticks);
    InsertIsStable(c.l, id, ticks);
    InsertZeros(c.l, d.l, id, ticks);
    InsertArmed(c.l, id, ticks);
    forall i | 0 <= i < |d.l|
      ensures OnTime(d, i)
    {
      ArmOnTime(c, d, id, ticks, reload, i);
    }
  }

  lemma RemoveIds(l: seq<Entry>, k: nat)
    requires k < |l|
    ensures |Remove(l, k)| == |l| - 1
    ensures forall i :: 0 <= i < |l| - 1 ==> Remove(l, k)[i].id == l[if i < k then i else i + 1].id
  {
    if k + 1 < |l| {
      var e := l[k + 1].(delta := (l[k + 1].delta + l[k].delta) % U32_SIZE);
      assert Remove(l, k) == l[..k] + ([e] + l[k + 2..]);
    }
  }

  lemma RemoveArmed(l: seq<Entry>, k: nat)
    requires k < |l| && DistinctIds(l)
    ensures DistinctIds(Remove(l, k)) && !Armed(Remove(l, k), l[k].id)
    ensures forall id :: id != l[k].id ==> (Armed(Remove(l, k), id) <==> Armed(l, id))
  {
    var m := Remove(l, k);
    RemoveIds(l, k);
    forall id | id != l[k].id && Armed(l, id)
      ensures Armed(m, id)
    {
      var i :| 0 <= i < |l| && l[i].id == id;
      assert m[if i < k then i else i - 1].id == id;
    }
  }

  lemma RemoveHeadDue(l: seq<Entry>, k: nat)
    requires k < |l| && Total(l) < U32_SIZE && l[0].delta != 0 && Remove(l, k) != []
    ensures Remove(l, k)[0].delta != 0
  {
    if k == 0 {
      DueMonotone(l, 1, |l| - 1);
      assert Due(l, 1) == Due(l, -1) + l[0].delta + l[1].delta;
      SmallMod(l[1].delta + l[0].delta);
    }
  }

  lemma RemoveLawful(c: Clock, k: nat)
    requires Lawful(c) && k < |c.l|
    ensures Lawful(c.(l := Remove(c.l, k)))
  {
    var m := Remove(c.l, k);
    RemoveKeepsDue(c.l, k);
    RemoveArmed(c.l, k);
    forall i | 0 <= i < |m|
      ensures OnTime(c.(l := m), i)
    {
      if i < k {
        assert OnTime(c, i);
      } else {
        assert OnTime(c, i + 1);
        assert m[i + 1 - 1].id == c.l[i + 1].id && Due(m, i + 1 - 1) == Due(c.l, i + 1);
      }
    }
  }

  lemma RecordLawful(c: Clock, r: Release)
    requires Lawful(c) && ReleasedOnTime(r) && r.at <= c.now
    ensures Lawful(c.(log := c.log + [r]))
  {
    var d := c.(log := c.log + [r]);
    forall i | 0 <= i < |d.l|
      ensures OnTime(d, i)
    {
      assert OnTime(c, i);
    }
  }

  lemma HeadOnTime(c: Clock)
    requires Lawful(c) && c.l != [] && c.l[0].delta == 0
    ensures c.l[0].id in c.jobs && c.jobs[c.l[0].id].reload < S32_LIMIT && ReleasedOnTime(ReleaseOf(c, c.l[0]))
  {
    assert OnTime(c, 0);
    assert Due(c.l, 0) == Due(c.l, -1) + c.l[0].delta;
  }

  lemma FireHeadLawful(c: Clock)
    requires Lawful(c) && c.l != [] && c.l[0].delta == 0
    ensures c.l[0].id in c.jobs && Lawful(FireHead(c))
    ensures DueNow(FireHead(c).l, 0) == DueNow(c.l, 0) - 1
    ensures FireHead(c).now == c.now && FireHead(c).lost == c.lost
  {
    HeadOnTime(c);
    var id, job := c.l[0].id, c.jobs[c.l[0].id];
    var c1 := c.(l := Remove(c.l, 0), log := c.log + [Release(id, c.now, job, c.lost)]);
    RemoveLawful(c, 0);
    RemoveArmed(c.l, 0);
    RemoveHeadZeros(c.l);
    RecordLawful(c.(l := Remove(c.l, 0)), Release(id, c.now, job, c.lost));
    if job.reload != 0 { ArmLawful(c1, id, job.reload, job.reload); }
  }

  lemma RemoveHeadZeros(l: seq<Entry>)
    requires l != [] && l[0].delta == 0
    ensures Remove(l, 0) == l[1..]
    ensures DueNow(Remove(l, 0), 0) == DueNow(l, 0) - 1
  {
    if |l| > 1 { SmallMod(l[1].delta + l[0].delta); }
    var z := DueNow(l, 0);
    var r := DueNow(l[1..], 0);
    assert r < |l| - 1 ==> l[1..][r] == l[r + 1];
    assert z < |l| ==> l[1..][z - 1] == l[z];
  }

  lemma {:induction false} FireLawful(c: Clock, n: nat)
    requires Lawful(c) && n == DueNow(c.l, 0)
    ensures var d := Fire(c, n);
            && Lawful(d) && DueNow(d.l, 0) == 0 && d.now == c.now && d.lost == c.lost && d.pending == c.pending
    decreases n
  {
    if n > 0 {
      var d := FireStep(c, n);
      FireLawful(d, n - 1);
    }
  }

  lemma DisposeInv(c: Clock)
    requires Lawful(c)
    ensures Inv(FireDue(c)) && FireDue(c).now == c.now && FireDue(c).lost == c.lost && FireDue(c).pending == c.pending
    ensures Inv(Dispose(c)) && Dispose(c).now == c.now && Dispose(c).lost == c.lost
  {
    var d := FireDue(c);
    FireLawful(c, DueNow(c.l, 0));
    PendingLawful(d, false);
  }

  /** The count-down part of a tick. */
  lemma TickedLawful(c: Clock)
    requires Lawful(c)
    ensures Lawful(CountedDownClock(c))
  {
    var c1 := CountedDownClock(c);
    forall i | 0 <= i < |c1.l|
      ensures OnTime(c1, i) && c1.l[i].id == c.l[i].id && Due(c1.l, i) <= Due(c.l, i)
    {
      TickedOnTime(c, i);
    }
  }

  lemma TickedOnTime(c: Clock, i: int)
    requires Lawful(c) && 0 <= i < |c.l|
    ensures var c1 := CountedDownClock(c);
            |c1.l| == |c.l| && OnTime(c1, i) && c1.l[i].id == c.l[i].id && Due(c1.l, i) <= Due(c.l, i)
  {
    assert OnTime(c, i);
    TickDue(c.l, i);
  }

  lemma PendingLawful(c: Clock, pending: bool)
    requires Lawful(c)
    ensures Lawful(c.(pending := pending))
  {
    var d := c.(pending := pending);
    forall i | 0 <= i < |d.l|
      ensures OnTime(d, i)
    {
      assert OnTime(c, i);
    }
  }

  lemma TickInv(c: Clock, locked: bool)
    requires Inv(c)
    ensures Inv(TickStep(c, locked))
  {
    var c1 := CountedDownClock(c);
    TickedLawful(c);
    if c1.l != [] && c1.l[0].delta == 0 {
      if locked {
        PendingLawful(c1, true);
      } else {
        DisposeInv(c1);
      }
    }
  }

  lemma StepInv(c: Clock, op: Op)
    requires Inv(c) && Allowed(c, op)
    ensures Inv(Step(c, op))
  {
    match op {
      case Start(id, ticks, reload) =>
        ArmLawful(c, id, ticks, reload);
        var d := Arm(c, id, ticks, reload);
        assert d.l[0].delta == 0 ==> DueNow(d.l, 0) > 0;
      case Stop(id) =>
        var k := Find(c.l, id, 0);
        if k < |c.l| {
          RemoveLawful(c, k);
          if c.l[0].delta != 0 && Remove(c.l, k) != [] { RemoveHeadDue(c.l, k); }
        }
      case TickOp(locked) => TickInv(c, locked);
      case Respond => if c.pending { DisposeInv(c); }
    }
  }

  // ----- whole runs -----

  function Run(c: Clock, ops: seq<Op>): Clock
    decreases |ops|
  {
    if ops == [] then c else Run(Step(c, ops[0]), ops[1..])
  }

  ghost predicate AllAllowed(c: Clock, ops: seq<Op>)
    decreases |ops|
  {
    ops == [] || (Allowed(c, ops[0]) && AllAllowed(Step(c, ops[0]), ops[1..]))
  }

  /** Over any run, every entry on the list is on its due time, counting the ticks lost since it was armed, and so
      was every release when it took place. */
  lemma {:induction false} RunLawful(c: Clock, ops: seq<Op>)
    requires Inv(c) && AllAllowed(c, ops)
    ensures Inv(Run(c, ops))
    decreases |ops|
  {
    if ops != [] {
      StepInv(c, ops[0]);
      RunLawful(Step(c, ops[0]), ops[1..]);
    }
  }

  /** While no disposal is deferred, every entry on the list is strictly ahead of its due time: what is due
      has been released. */
  lemma StillAhead(c: Clock, i: nat)
    requires Inv(c) && !c.pending && i < |c.l|
    ensures c.l[i].id in c.jobs
    ensures var job := c.jobs[c.l[i].id]; c.now < job.due + (c.lost - job.lost)
  {
    assert OnTime(c, i);
    DueMonotone(c.l, 0, i);
  }

  function ReleaseOf(c: Clock, e: Entry): Release
    requires e.id in c.jobs
  {
    Release(e.id, c.now, c.jobs[e.id], c.lost)
  }

  /** The releases of the first n entries, in list order. */
  function Releases(c: Clock, n: nat): seq<Release>
    requires n <= |c.l| && forall i :: 0 <= i < n ==> c.l[i].id in c.jobs
  {
    seq(n, i requires 0 <= i < n => ReleaseOf(c, c.l[i]))
  }

  lemma ReleasesShift(c: Clock, d: Clock, n: nat)
    requires 0 < n <= |c.l| && n - 1 <= |d.l| && DistinctIds(c.l)
    requires forall i :: 0 <= i < n ==> c.l[i].id in c.jobs
    requires forall i :: 0 <= i < n - 1 ==> d.l[i].id == c.l[i + 1].id
    requires forall id :: id != c.l[0].id && id in c.jobs ==> id in d.jobs && d.jobs[id] == c.jobs[id]
    requires d.now == c.now && d.lost == c.lost
    ensures forall i :: 0 <= i < n - 1 ==> d.l[i].id in d.jobs
    ensures Releases(c, n) == [ReleaseOf(c, c.l[0])] + Releases(d, n - 1)
  {
    forall i | 0 <= i < n - 1
      ensures d.l[i].id in d.jobs && ReleaseOf(d, d.l[i]) == ReleaseOf(c, c.l[i + 1])
    {
      assert c.l[i + 1].id != c.l[0].id;
    }
  }

  lemma DueHaveJobs(c: Clock)
    requires Lawful(c)
    ensures forall i :: 0 <= i < |c.l| ==> c.l[i].id in c.jobs
  {
    forall i | 0 <= i < |c.l|
      ensures c.l[i].id in c.jobs
    {
      assert OnTime(c, i);
    }
  }

  /** d is c after the head was released: the other due entries, and all other jobs, are as they were. */
  ghost predicate HeadFired(c: Clock, d: Clock) {
    && c.l != [] && c.l[0].id in c.jobs
    && var id, job := c.l[0].id, c.jobs[c.l[0].id];
    && d.now == c.now && d.lost == c.lost && d.pending == c.pending && d.log == c.log + [ReleaseOf(c, c.l[0])]
    && DueNow(d.l, 0) == DueNow(c.l, 0) - 1
    && (forall i :: 0 <= i < DueNow(d.l, 0) ==> d.l[i].id == c.l[i + 1].id)
    && (forall other :: other != id ==> (Armed(d.l, other) <==> Armed(c.l, other)))
    && (forall other :: other != id && other in c.jobs ==> other in d.jobs && d.jobs[other] == c.jobs[other])
    && (job.reload > 0 ==> Armed(d.l, id) && id in d.jobs && d.jobs[id] == Job(c.now + job.reload, c.lost, job.reload))
    && (job.reload == 0 ==> !Armed(d.l, id) && id in d.jobs && d.jobs[id] == job)
  }

  lemma RearmHead(m: seq<Entry>, id: int, reload: U32)
    requires Total(m) < S32_LIMIT && 0 < reload < S32_LIMIT
    ensures var r := Insert(m, id, reload);
            && DueNow(r, 0) == DueNow(m, 0)
            && (forall i :: 0 <= i < DueNow(m, 0) ==> r[i].id == m[i].id)
            && Armed(r, id) && (forall other :: other != id ==> (Armed(r, other) <==> Armed(m, other)))
  {
    SmallWaits(m, id, reload);
    InsertIsStable(m, id, reload);
    InsertZeros(m, Insert(m, id, reload), id, reload);
    InsertArmed(m, id, reload);
    InsertPastZeros(m, reload);
  }

  lemma FireHeadFired(c: Clock)
    requires Lawful(c) && c.l != [] && c.l[0].delta == 0
    ensures c.l[0].id in c.jobs && HeadFired(c, FireHead(c))
  {
    assert OnTime(c, 0);
    RemoveHeadZeros(c.l);
    RemoveArmed(c.l, 0);
    RemoveKeepsDue(c.l, 0);
    if c.jobs[c.l[0].id].reload != 0 { RearmHead(Remove(c.l, 0), c.l[0].id, c.jobs[c.l[0].id].reload); }
  }

  lemma FireStepHead(c: Clock, n: nat) returns (d: Clock)
    requires Lawful(c) && n == DueNow(c.l, 0) && n > 0
    ensures HeadFired(c, d)
    ensures d == FireHead(c) && Fire(c, n) == Fire(d, n - 1)
  {
    FireHeadLawful(c);
    FireHeadFired(c);
    d := FireHead(c);
  }

  /** One step of a disposal. */
  lemma FireStep(c: Clock, n: nat) returns (d: Clock)
    requires Lawful(c) && n == DueNow(c.l, 0) && n > 0
    ensures Fire(c, n) == Fire(d, n - 1)
    ensures Lawful(d) && HeadFired(c, d)
  {
    FireHeadLawful(c);
    d := FireStepHead(c, n);
  }

  /** Releasing what is due in c ends in done. */
  ghost predicate Finishes(c: Clock, done: Clock) { forall n :: n == DueNow(c.l, 0) ==> Fire(c, n) == done }

  lemma FinishesStep(c: Clock, done: Clock) returns (d: Clock)
    requires Lawful(c) && Finishes(c, done) && c.l != [] && c.l[0].delta == 0
    ensures c.l[0].id in c.jobs && d == FireHead(c) && HeadFired(c, d) && Finishes(d, done)
  {
    assert Fire(c, DueNow(c.l, 0)) == done;
    d := FireStepHead(c, DueNow(c.l, 0));
  }

  lemma Finished(c: Clock, done: Clock)
    requires Finishes(c, done) && (c.l != [] ==> c.l[0].delta != 0)
    ensures done == c
  {
    assert Fire(c, DueNow(c.l, 0)) == done;
  }

  /** After the head was released, the releases to come are the others. */
  lemma ReleasesLeft(c: Clock, d: Clock, n: nat)
    requires HeadFired(c, d) && DistinctIds(c.l) && n == DueNow(c.l, 0) && n > 0
    requires forall i :: 0 <= i < n ==> c.l[i].id in c.jobs
    ensures DueNow(d.l, 0) == n - 1 && forall i :: 0 <= i < n - 1 ==> d.l[i].id in d.jobs
    ensures d.log + Releases(d, n - 1) == c.log + Releases(c, n)
  {
    ReleasesShift(c, d, n);
    var r := [ReleaseOf(c, c.l[0])];
    assert (c.log + r) + Releases(d, n - 1) == c.log + (r + Releases(d, n - 1));
  }

  lemma FireLogStep(c: Clock, n: nat) returns (d: Clock)
    requires Lawful(c) && n == DueNow(c.l, 0) && n > 0
    ensures Lawful(d) && DueNow(d.l, 0) == n - 1 && Fire(c, n) == Fire(d, n - 1)
    ensures forall i :: 0 <= i < n ==> c.l[i].id in c.jobs
    ensures forall i :: 0 <= i < n - 1 ==> d.l[i].id in d.jobs
    ensures d.log + Releases(d, n - 1) == c.log + Releases(c, n)
  {
    d := FireStep(c, n);
    DueHaveJobs(c);
    ReleasesLeft(c, d, n);
  }

  /** A disposal releases the entries that are due, each exactly once and in list order. */
  lemma {:induction false} FireLog(c: Clock, n: nat)
    requires Lawful(c) && n == DueNow(c.l, 0)
    ensures forall i :: 0 <= i < n ==> c.l[i].id in c.jobs
    ensures Fire(c, n).log == c.log + Releases(c, n)
    decreases n
  {
    if n > 0 {
      var d := FireLogStep(c, n);
      FireLog(d, n - 1);
    }
  }

  lemma InsertPastZeros(l: seq<Entry>, ticks: int)
    requires ticks > 0
    ensures DueNow(l, 0) <= Place(l, ticks, 0)
  {
    var k := Place(l, ticks, 0);
    if k < DueNow(l, 0) { ZerosAreDue(l, k); }
  }

  // ----- periodic timers -----

  /** The ticks at which id was released, in order. */
  function FireTimes(log: seq<Release>, id: int): seq<int> {
    if log == [] then []
    else FireTimes(log[..|log| - 1], id) + if log[|log| - 1].id == id then [log[|log| - 1].at] else []
  }

  lemma FireTimesAppend(log: seq<Release>, r: Release, id: int)
    ensures FireTimes(log + [r], id) == FireTimes(log, id) + if r.id == id then [r.at] else []
  {
    assert (log + [r])[..|log|] == log;
  }

  /** first, first + period, first + 2 * period, ...: n times. */
  function Times(first: int, period: int, n: nat): seq<int>
    decreases n
  {
    if n == 0 then [] else [first] + Times(first + period, period, n - 1)
  }

  function After(first: int, period: int, n: nat): int
    decreases n
  {
    if n == 0 then first else After(first + period, period, n - 1)
  }

  lemma {:induction false} TimesClosedForm(first: int, period: int, n: nat, i: nat)
    requires i < n
    ensures |Times(first, period, n)| == n && Times(first, period, n)[i] == first + i * period
    ensures After(first, period, n) == first + n * period
    decreases n
  {
    if n > 1 {
      TimesClosedForm(first + period, period, n - 1, if i > 0 then i - 1 else 0);
      if i > 0 { assert (i - 1) * period + period == i * period; }
      assert (n - 1) * period + period == n * period;
    } else {
      assert Times(first, period, 1) == [first];
    }
  }

  /** The tick at which id is due, counting the ticks lost so far. */
  function Target(c: Clock, id: int): int
    requires id in c.jobs
  {
    c.jobs[id].due + (c.lost - c.jobs[id].lost)
  }

  lemma ArmedJob(c: Clock, id: int)
    requires Lawful(c) && Armed(c.l, id)
    ensures id in c.jobs && c.jobs[id].reload < S32_LIMIT
    ensures c.now <= Target(c, id)
    ensures DueNow(c.l, 0) == 0 ==> c.now < Target(c, id)
  {
    var i :| 0 <= i < |c.l| && c.l[i].id == id;
    assert OnTime(c, i);
    ZerosAreDue(c.l, i);
  }

  lemma FirePeriodicStep(c: Clock, n: nat, id: int) returns (d: Clock)
    requires Lawful(c) && n == DueNow(c.l, 0) && n > 0 && Armed(c.l, id) && id in c.jobs && c.jobs[id].reload > 0
    ensures Lawful(d) && DueNow(d.l, 0) == n - 1 && Fire(c, n) == Fire(d, n - 1) && d.now == c.now && d.lost == c.lost
    ensures Armed(d.l, id) && id in d.jobs
    ensures || (Target(c, id) == c.now && d.jobs[id] == Job(c.now + c.jobs[id].reload, c.lost, c.jobs[id].reload)
                && FireTimes(d.log, id) == FireTimes(c.log, id) + [c.now])
            || (d.jobs[id] == c.jobs[id] && FireTimes(d.log, id) == FireTimes(c.log, id))
  {
    assert OnTime(c, 0);
    assert Due(c.l, 0) == Due(c.l, -1) + c.l[0].delta;
    FireTimesAppend(c.log, ReleaseOf(c, c.l[0]), id);
    d := FireStep(c, n);
  }

  lemma {:induction false} FirePeriodic(c: Clock, n: nat, id: int) returns (d: Clock)
    requires Lawful(c) && n == DueNow(c.l, 0) && Armed(c.l, id) && id in c.jobs && c.jobs[id].reload > 0
    ensures d == Fire(c, n) && Armed(d.l, id) && id in d.jobs
    ensures var due := Target(c, id) == c.now;
            && FireTimes(d.log, id) == FireTimes(c.log, id) + (if due then [c.now] else [])
            && d.jobs[id] == if due then Job(c.now + c.jobs[id].reload, c.lost, c.jobs[id].reload) else c.jobs[id]
    decreases n
  {
    ArmedJob(c, id);
    if n == 0 {
      d := c;
    } else {
      var c1 := FirePeriodicStep(c, n, id);
      ArmedJob(c1, id);
      d := FirePeriodic(c1, n - 1, id);
    }
  }

  /** No tick is deferred, and the timer is neither stopped nor started again. */
  predicate Undisturbed(ops: seq<Op>, id: int) {
    forall op :: op in ops ==> (op.TickOp? ==> !op.locked) && (op.Stop? ==> op.id != id) && (op.Start? ==> op.id != id)
  }

  lemma PeriodicStep(c: Clock, op: Op, id: int)
    requires Inv(c) && !c.pending && Allowed(c, op) && Undisturbed([op], id)
    requires Armed(c.l, id) && id in c.jobs && c.jobs[id].reload > 0
    ensures var d := Step(c, op); var fired := Target(c, id) <= d.now;
            && !d.pending && d.lost == c.lost && Armed(d.l, id) && id in d.jobs
            && FireTimes(d.log, id) == FireTimes(c.log, id) + (if fired then [Target(c, id)] else [])
            && d.jobs[id] == if fired then Job(Target(c, id) + c.jobs[id].reload, c.lost, c.jobs[id].reload)
                else c.jobs[id]
  {
    assert op in [op];
    ArmedJob(c, id);
    assert DueNow(c.l, 0) == 0;
    match op {
      case Start(other, ticks, reload) =>
        ArmLawful(c, other, ticks, reload);
        SmallWaits(c.l, other, ticks);
        InsertArmed(c.l, other, ticks);
      case Stop(other) =>
        var k := Find(c.l, other, 0);
        if k < |c.l| { RemoveArmed(c.l, k); }
      case TickOp(locked) => PeriodicTick(c, id);
      case Respond =>
    }
  }

  /** A tick is a count-down and what follows from it. */
  lemma TickCases(c: Clock, locked: bool) returns (c1: Clock)
    ensures c1 == CountedDownClock(c)
    ensures Step(c, TickOp(locked)) ==
              if c1.l == [] || c1.l[0].delta != 0 then c1 else if locked then c1.(pending := true) else FireDue(c1)
  {
    c1 := CountedDownClock(c);
  }

  /** The list after the count-down of an undisturbed tick. */
  lemma CountedDown(c: Clock, id: int) returns (c1: Clock)
    requires Inv(c) && !c.pending && Armed(c.l, id)
    ensures id in c.jobs && c.now < Target(c, id)
    ensures Lawful(c1) && !c1.pending && c1.lost == c.lost && c1.now == c.now + 1 && c1.jobs == c.jobs
            && c1.log == c.log
    ensures Armed(c1.l, id) && c1.now <= Target(c1, id)
    ensures TickStep(c, false) == if c1.l == [] || c1.l[0].delta != 0 then c1 else FireDue(c1)
  {
    ArmedJob(c, id);
    c1 := c.(now := c.now + 1, l := Tick(c.l));
    TickedLawful(c);
    var i :| 0 <= i < |c.l| && c.l[i].id == id;
    TickDue(c.l, i);
    assert c1.l[i].id == id;
    ArmedJob(c1, id);
  }

  lemma PeriodicTick(c: Clock, id: int)
    requires Inv(c) && !c.pending
    requires Armed(c.l, id) && id in c.jobs && c.jobs[id].reload > 0
    ensures var d := TickStep(c, false); var fired := Target(c, id) <= d.now;
            && !d.pending && d.lost == c.lost && Armed(d.l, id) && id in d.jobs && d.now == c.now + 1
            && FireTimes(d.log, id) == FireTimes(c.log, id) + (if fired then [Target(c, id)] else [])
            && d.jobs[id] == if fired then Job(Target(c, id) + c.jobs[id].reload, c.lost, c.jobs[id].reload)
                else c.jobs[id]
  {
    var c1 := CountedDown(c, id);
    ArmedJob(c1, id);
    if c1.l != [] && c1.l[0].delta == 0 {
      FireLawful(c1, DueNow(c1.l, 0));
      var d := FirePeriodic(c1, DueNow(c1.l, 0), id);
    }
  }

  lemma PeriodicRunStep(c: Clock, ops: seq<Op>, id: int) returns (d: Clock)
    requires Inv(c) && !c.pending && ops != [] && AllAllowed(c, ops) && Undisturbed(ops, id)
    requires Armed(c.l, id) && id in c.jobs && c.jobs[id].reload > 0
    ensures Inv(d) && !d.pending && AllAllowed(d, ops[1..]) && Undisturbed(ops[1..], id)
            && Run(c, ops) == Run(d, ops[1..])
    ensures Armed(d.l, id) && id in d.jobs && d.jobs[id].reload == c.jobs[id].reload
    ensures || (FireTimes(d.log, id) == FireTimes(c.log, id) && Target(d, id) == Target(c, id))
            || (FireTimes(d.log, id) == FireTimes(c.log, id) + [Target(c, id)]
                && Target(d, id) == Target(c, id) + c.jobs[id].reload)
  {
    assert Undisturbed([ops[0]], id) && Undisturbed(ops[1..], id);
    d := Step(c, ops[0]);
    PeriodicStep(c, ops[0], id);
    StepInv(c, ops[0]);
  }

  /** A periodic timer that is due at tick D fires, in a run without deferred ticks, exactly at those of
      D, D + r, D + 2r, ... that have come: no drift, none missed, none twice. */
  lemma {:induction false} PeriodicRun(c: Clock, ops: seq<Op>, id: int, period: U32) returns (d: Clock, m: nat)
    requires Inv(c) && !c.pending && AllAllowed(c, ops) && Undisturbed(ops, id)
    requires Armed(c.l, id) && id in c.jobs && c.jobs[id].reload == period > 0
    ensures d == Run(c, ops) && Lawful(d) && id in d.jobs && d.jobs[id].reload == period
    ensures FireTimes(d.log, id) == FireTimes(c.log, id) + Times(Target(c, id), period, m)
    ensures |FireTimes(d.log, id)| == |FireTimes(c.log, id)| + m
    ensures Target(d, id) == After(Target(c, id), period, m) && d.now < Target(d, id)
    decreases |ops|
  {
    if ops == [] {
      ArmedJob(c, id);
      d, m := c, 0;
    } else {
      var e := PeriodicRunStep(c, ops, id);
      var k;
      d, k := PeriodicRun(e, ops[1..], id, period);
      m := TimesJoin(FireTimes(c.log, id), FireTimes(e.log, id), FireTimes(d.log, id),
                     Target(c, id), Target(e, id), period, k);
    }
  }

  /** f is `was` without or with one time more, and g is f with k times more. */
  lemma TimesJoin(was: seq<int>, f: seq<int>, g: seq<int>, first: int, next: int, period: int, k: nat) returns (m: nat)
    requires (f == was && next == first) || (f == was + [first] && next == first + period)
    requires g == f + Times(next, period, k) && |g| == |f| + k
    ensures g == was + Times(first, period, m) && |g| == |was| + m && After(next, period, k) == After(first, period, m)
  {
    m := if f == was then k else k + 1;
    assert f != was ==> was + ([first] + Times(next, period, k)) == g;
  }

  lemma {:induction false} FireTimesPast(c: Clock, log: seq<Release>, id: int, i: nat)
    requires Lawful(c) && (forall r :: r in log ==> r in c.log) && i < |FireTimes(log, id)|
    ensures FireTimes(log, id)[i] <= c.now
    decreases |log|
  {
    var rest := log[..|log| - 1];
    assert log[|log| - 1] in log && forall r :: r in rest ==> r in log;
    if i < |FireTimes(rest, id)| { FireTimesPast(c, rest, id, i); }
  }

  /** The i-th of the times by which the log has grown. */
  lemma TimesAt(was: seq<int>, f: seq<int>, first: int, period: int, m: nat, i: nat)
    requires f == was + Times(first, period, m) && i < m
    ensures |f| == |was| + m && f[|was| + i] == first + i * period
  {
    TimesClosedForm(first, period, m, i);
  }

  lemma AfterIs(first: int, period: int, m: nat)
    ensures After(first, period, m) == first + m * period
  {
    if m > 0 { TimesClosedForm(first, period, m, 0); }
  }

  /** A periodic timer with count `ticks` and reload value `reload` that is started at tick t fires, in a run
      without deferred ticks, at t + ticks, t + ticks + reload, t + ticks + 2 * reload, ...: at those of them that
      have come, and at no other tick. */
  lemma PeriodicFromStart(c: Clock, s: Clock, id: int, ticks: U32, reload: U32, ops: seq<Op>) returns (d: Clock, m: nat)
    requires Inv(c) && !c.pending && Allowed(c, Start(id, ticks, reload)) && reload > 0
    requires s == Step(c, Start(id, ticks, reload)) && AllAllowed(s, ops) && Undisturbed(ops, id)
    ensures d == Run(s, ops)
    ensures var was, fired := FireTimes(c.log, id), FireTimes(d.log, id);
            && |fired| == |was| + m && fired[..|was|] == was
            && (forall i :: 0 <= i < m ==> fired[|was| + i] == c.now + ticks + i * reload <= d.now)
            && d.now < c.now + ticks + m * reload
  {
    ArmedAtStart(c, s, id, ticks, reload);
    d, m := PeriodicRun(s, ops, id, reload);
    PeriodicTimes(FireTimes(c.log, id), d, id, c.now + ticks, reload, m);
  }

  lemma PeriodicTimes(was: seq<int>, d: Clock, id: int, first: int, period: int, m: nat)
    requires Lawful(d) && d.now < After(first, period, m)
    requires FireTimes(d.log, id) == was + Times(first, period, m)
    requires |FireTimes(d.log, id)| == |was| + m
    ensures var fired := FireTimes(d.log, id);
            && fired[..|was|] == was
            && (forall i :: 0 <= i < m ==> fired[|was| + i] == first + i * period <= d.now)
            && d.now < first + m * period
  {
    var fired := FireTimes(d.log, id);
    AfterIs(first, period, m);
    forall i | 0 <= i < m
      ensures fired[|was| + i] == first + i * period <= d.now
    {
      TimesAt(was, fired, first, period, m, i);
      FireTimesPast(d, d.log, id, |was| + i);
    }
  }

  lemma ArmedAtStart(c: Clock, s: Clock, id: int, ticks: U32, reload: U32)
    requires Inv(c) && Allowed(c, Start(id, ticks, reload)) && s == Step(c, Start(id, ticks, reload))
    ensures Inv(s) && s.log == c.log && s.pending == c.pending && s.now == c.now && s.lost == c.lost
    ensures Armed(s.l, id) && id in s.jobs && s.jobs[id] == Job(c.now + ticks, c.lost, reload)
            && Target(s, id) == c.now + ticks
  {
    StepInv(c, Start(id, ticks, reload));
    ArmLawful(c, id, ticks, reload);
  }
}
