/** The ring through which interrupts hand requests to the kernel.  Interrupts can come between any two protected
    sections of the response, so a response is modelled as the steps between which they can. */
module ServiceReq {
  import opened Rings

  datatype Request = Request(kind: int, id: int, arg: int)

  /** Where the response is: not running, before the test of the loop, before a protected pop, before the last
      protected section. */
  datatype Place = Idle | Testing | Popping | Ending

  /** accepted and handled list the requests ever taken into the ring and ever taken out. */
  datatype Queue = Queue(cell: seq<Request>, head: int, cnt: int, isrReq: bool, place: Place,
                         accepted: seq<Request>, handled: seq<Request>)

  datatype Action =
    | Arrive(r: Request)    // InsertInSRQ, by an interrupt
    | TickReq               // an interrupt that asks for a response without inserting
    | Unlock                // OsSchedUnlock: responds when IsrReq is set
    | Test | Pop | End      // the pieces of RespondSRQ

  predicate Sized(q: Queue) { 0 <= q.head < |q.cell| && 0 <= q.cnt <= |q.cell| }

  /** The requests in the ring, oldest first. */
  function Waiting(q: Queue): seq<Request>
    requires Sized(q)
  {
    Elements(q.cell, q.head, q.cnt)
  }

  predicate Enabled(q: Queue, a: Action) {
    match a
    case Arrive(_) => true
    case TickReq => true
    case Unlock => q.place == Idle
    case Test => q.place == Testing
    case Pop => q.place == Popping
    case End => q.place == Ending
  }

  function Do(q: Queue, a: Action): Queue
    requires Sized(q) && Enabled(q, a)
  {
    match a
    case Arrive(r) =>
      if q.cnt >= |q.cell| then q
      else q.(cell := q.cell[(q.cnt + q.head) % |q.cell| := r], cnt := q.cnt + 1, isrReq := true,
              accepted := q.accepted + [r])
    case TickReq => q.(isrReq := true)
    case Unlock => if q.isrReq then q.(place := Testing) else q
    case Test => q.(place := if q.cnt != 0 then Popping else Ending)
    case Pop =>
      q.(head := (q.head + 1) % |q.cell|, cnt := q.cnt - 1, place := Testing, handled := q.handled + [q.cell[q.head]])
    case End => if q.cnt == 0 then q.(isrReq := false, place := Idle) else q.(place := Idle)
  }

  /** What was accepted is what was handled, in order and once each, followed by what is in the ring; and while
      there is something in the ring, a response is asked for. */
  ghost predicate Exact(q: Queue) {
    && Sized(q) && q.accepted == q.handled + Waiting(q)
    && (q.cnt > 0 ==> q.isrReq)
    && (q.place == Popping ==> q.cnt > 0)
  }

  lemma ArriveExact(q: Queue, r: Request)
    requires Exact(q) && q.cnt < |q.cell|
    ensures Exact(Do(q, Arrive(r)))
  {
    WrapMod(q.cnt + q.head, |q.cell|);
    Pushed(q.cell, q.head, q.cnt, r);
    assert q.accepted + [r] == q.handled + (Waiting(q) + [r]);
  }

  lemma PopExact(q: Queue)
    requires Exact(q) && q.place == Popping
    ensures Exact(Do(q, Pop))
  {
    WrapMod(q.head + 1, |q.cell|);
    Popped(q.cell, q.head, q.cnt);
    var d := Do(q, Pop);
    assert q.handled + ([q.cell[q.head]] + Waiting(d)) == d.handled + Waiting(d);
  }

  /** Every step keeps it, whatever comes in between. */
  lemma StepExact(q: Queue, a: Action)
    requires Exact(q) && Enabled(q, a)
    ensures Exact(Do(q, a))
  {
    match a {
      case Arrive(r) => if q.cnt < |q.cell| { ArriveExact(q, r); }
      case Pop => PopExact(q);
      case _ =>
    }
  }

  /** What every step does, in terms of the requests in the ring: one that finds room is taken in and flagged, the
      oldest is handled, an unlock responds when the flag is up, and the response lowers the flag on an empty ring
      only. */
  lemma StepEffect(q: Queue, a: Action)
    requires Exact(q) && Enabled(q, a)
    ensures Exact(Do(q, a))
    ensures var d := Do(q, a);
            && |d.cell| == |q.cell|
            && match a
               case Arrive(r) =>
                 if |Waiting(q)| == |q.cell| then d == q
                 else && Waiting(d) == Waiting(q) + [r] && d.accepted == q.accepted + [r] && d.isrReq
                      && d.handled == q.handled && d.place == q.place
               case TickReq => d == q.(isrReq := true)
               case Unlock => d == if q.isrReq then q.(place := Testing) else q
               case Test => d == q.(place := if Waiting(q) != [] then Popping else Ending)
               case Pop =>
                 && Waiting(q) != [] && Waiting(d) == Waiting(q)[1..] && d.handled == q.handled + [Waiting(q)[0]]
                 && d.accepted == q.accepted && d.isrReq == q.isrReq && d.place == Testing
               case End => d == q.(isrReq := q.isrReq && Waiting(q) != [], place := Idle)
  {
    StepExact(q, a);
    match a {
      case Arrive(r) => if q.cnt < |q.cell| { ArriveExact(q, r); ArriveLast(q, r); }
      case Pop =>
        WrapMod(q.head + 1, |q.cell|);
        Popped(q.cell, q.head, q.cnt);
      case _ =>
    }
  }

  lemma ArriveLast(q: Queue, r: Request)
    requires Exact(q) && q.cnt < |q.cell|
    ensures Sized(Do(q, Arrive(r))) && Waiting(Do(q, Arrive(r))) == Waiting(q) + [r]
  {
    WrapMod(q.cnt + q.head, |q.cell|);
    Pushed(q.cell, q.head, q.cnt, r);
  }

  // ----- whole runs -----

  ghost predicate CanRun(q: Queue, run: seq<Action>)
    decreases |run|
  {
    run == [] || (Sized(q) && Enabled(q, run[0]) && CanRun(Do(q, run[0]), run[1..]))
  }

  ghost function Run(q: Queue, run: seq<Action>): Queue
    requires CanRun(q, run)
    decreases |run|
  {
    if run == [] then q else Run(Do(q, run[0]), run[1..])
  }

  /** Over every interleaving of interrupts and responses: requests are handled exactly once and in the order in
      which they were accepted, and a ring that is not empty when no response runs has a response asked for. */
  lemma {:induction false} RunExact(q: Queue, run: seq<Action>)
    requires Exact(q) && CanRun(q, run)
    ensures var r := Run(q, run);
            && Exact(r) && r.handled <= r.accepted && q.accepted <= r.accepted && q.handled <= r.handled
            && (r.place == Idle && r.cnt > 0 ==> r.isrReq)
    decreases |run|
  {
    if run != [] {
      StepExact(q, run[0]);
      RunExact(Do(q, run[0]), run[1..]);
    }
  }

  /** The requests of the run that found room in the ring. */
  ghost function Taken(q: Queue, run: seq<Action>): seq<Request>
    requires CanRun(q, run)
    decreases |run|
  {
    if run == [] then []
    else (if run[0].Arrive? && |Waiting(q)| < |q.cell| then [run[0].r] else []) + Taken(Do(q, run[0]), run[1..])
  }

  /** Over every interleaving, the requests accepted are those that found room, in order: with RunExact, each of them
      is handled or in the ring, and no other. */
  lemma {:induction false} RunTakes(q: Queue, run: seq<Action>)
    requires Exact(q) && CanRun(q, run)
    ensures var r := Run(q, run);
            && Exact(r) && r.accepted == q.accepted + Taken(q, run)
            && r.handled + Waiting(r) == q.accepted + Taken(q, run)
    decreases |run|
  {
    if run != [] {
      var d, x := TakenFirst(q, run);
      RunTakes(d, run[1..]);
      Regroup(q.accepted, x, Taken(d, run[1..]));
    }
  }

  lemma Regroup(p: seq<Request>, x: seq<Request>, y: seq<Request>)
    ensures p + x + y == p + (x + y)
  {
  }

  lemma TakenFirst(q: Queue, run: seq<Action>) returns (d: Queue, x: seq<Request>)
    requires Exact(q) && CanRun(q, run) && run != []
    ensures Exact(d) && d.accepted == q.accepted + x && CanRun(d, run[1..]) && Run(q, run) == Run(d, run[1..])
    ensures Taken(q, run) == x + Taken(d, run[1..])
  {
    AcceptedGrows(q, run[0]);
    d := Do(q, run[0]);
    x := if run[0].Arrive? && |Waiting(q)| < |q.cell| then [run[0].r] else [];
  }

  lemma AcceptedGrows(q: Queue, a: Action)
    requires Exact(q) && Enabled(q, a)
    ensures Exact(Do(q, a))
    ensures Do(q, a).accepted == q.accepted + if a.Arrive? && |Waiting(q)| < |q.cell| then [a.r] else []
  {
    StepEffect(q, a);
  }

  /** The response that nothing interrupts. */
  function Drain(n: nat): seq<Action> {
    if n == 0 then [Test, End] else [Test, Pop] + Drain(n - 1)
  }

  /** It handles everything that is in the ring, and then the request flag is down. */
  lemma {:induction false} DrainAll(q: Queue)
    requires Exact(q) && q.place == Testing
    ensures CanRun(q, Drain(q.cnt))
    ensures var r := Run(q, Drain(q.cnt)); r.handled == q.accepted && r.cnt == 0 && !r.isrReq && r.place == Idle
    decreases q.cnt
  {
    var run := Drain(q.cnt);
    StepExact(q, Test);
    var q1 := Do(q, Test);
    if q.cnt == 0 {
      assert run[1..] == [End] && run[1..][1..] == [];
      assert CanRun(q1, run[1..]);
      assert Run(q1, run[1..]) == Do(q1, End);
    } else {
      StepExact(q1, Pop);
      var q2 := Do(q1, Pop);
      DrainAll(q2);
      assert run[1..][1..] == Drain(q.cnt - 1) && run[1..][0] == Pop;
      assert CanRun(q1, run[1..]);
    }
  }

  /** An unlock that nothing interrupts leaves no accepted request behind. */
  lemma UnlockAnswers(q: Queue)
    requires Exact(q) && q.place == Idle
    ensures var run := [Unlock] + if q.isrReq then Drain(q.cnt) else [];
            && CanRun(q, run) && Run(q, run).handled == q.accepted && Run(q, run).cnt == 0
            && !Run(q, run).isrReq && Run(q, run).place == Idle
  {
    StepEffect(q, Unlock);
    var d := Do(q, Unlock);
    var run := [Unlock] + if q.isrReq then Drain(q.cnt) else [];
    if q.isrReq {
      DrainAll(d);
      assert run[1..] == Drain(d.cnt);
    } else {
      assert run[1..] == [] && CanRun(d, []) && Waiting(q) == [];
    }
  }

  // ----- the ring in memory -----

  class RequestRing {
    const cell: array<Request>
    var cnt: int
    var head: int
    var IsrReq: bool
    ghost var place: Place
    ghost var accepted: seq<Request>
    ghost var handled: seq<Request>

    ghost function State(): Queue
      reads this, cell
    {
      Queue(cell[..], head, cnt, IsrReq, place, accepted, handled)
    }

    ghost predicate Valid()
      reads this, cell
    {
      Exact(State())
    }

    constructor (n: nat)
      requires n > 0
      ensures Valid() && fresh(cell) && cell.Length == n && cnt == 0 && place == Idle && accepted == handled == []
    {
      cell := new Request[n](_ => Request(0, 0, 0));
      cnt, head, IsrReq, place := 0, 0, false, Idle;
      accepted, handled := [], [];
    }

    /** Called by an interrupt; refused when the ring is full. */
    method InsertInSRQ(r: Request) returns (ok: bool)
      requires Valid()
      modifies this`cnt, this`IsrReq, this`accepted, cell
      ensures Valid() && State() == Do(old(State()), Arrive(r)) && ok == (old(cnt) < cell.Length)
      ensures if ok then accepted == old(accepted) + [r] && IsrReq else State() == old(State())
    {
      StepExact(State(), Arrive(r));
      if cnt >= cell.Length {
        return false;
      }
      ghost var was := cell[..];
      var tail := cnt;
      cnt := cnt + 1;
      IsrReq := true;
      cell[(tail + head) % cell.Length] := r;
      assert cell[..] == was[(tail + head) % cell.Length := r];
      accepted := accepted + [r];
      return true;
    }

    /** The protected section that takes one request out. */
    method Extract() returns (r: Request)
      requires Valid() && place == Popping
      modifies this`cnt, this`head, this`place, this`handled
      ensures Valid() && State() == Do(old(State()), Pop) && handled == old(handled) + [r] && cnt == old(cnt) - 1
    {
      StepExact(State(), Pop);
      r := cell[head];
      head := (head + 1) % cell.Length;
      cnt := cnt - 1;
      place, handled := Testing, handled + [r];
    }

    /** Interrupts that come between two protected sections. */
    method Interrupted(batch: seq<Request>)
      requires Valid()
      modifies this`cnt, this`IsrReq, this`accepted, cell
      ensures Valid() && old(accepted) <= accepted && cnt >= old(cnt)
      ensures batch == [] ==> cnt == old(cnt)
    {
      for i := 0 to |batch|
        invariant Valid() && old(accepted) <= accepted && cnt >= old(cnt)
        invariant batch == [] ==> cnt == old(cnt)
      {
        var ok := InsertInSRQ(batch[i]);
      }
    }

    /** One round of the response's loop. */
    method HandleOne(batch: seq<Request>)
      requires Valid() && place == Testing && cnt != 0
      modifies this, cell
      ensures Valid() && place == Testing && old(accepted) <= accepted
      ensures batch == [] ==> cnt < old(cnt)
    {
      place := Popping;
      Interrupted(batch);
      var r := Extract();
    }

    /** The last protected section of the response. */
    method LowerFlag()
      requires Valid() && place == Ending
      modifies this`IsrReq, this`place
      ensures Valid() && State() == Do(old(State()), End)
    {
      StepExact(State(), End);
      if cnt == 0 {
        IsrReq := false;
      }
      place := Idle;
    }

    /** The loop is left once everything that was accepted is handled. */
    lemma AllHandled()
      requires Valid() && cnt == 0
      ensures handled == accepted
    {
      assert Waiting(State()) == [];
    }

    /** The response, with the requests of arrivals[i] coming in before the i-th protected section: everything that
        was accepted before the call is handled, and what is left in the ring has a response asked for. */
    method RespondSRQ(arrivals: seq<seq<Request>>)
      requires Valid() && place == Testing
      modifies this, cell
      ensures Valid() && place == Idle && old(accepted) <= handled <= accepted
      ensures cnt > 0 ==> IsrReq
    {
      var i := 0;
      while cnt != 0
        invariant Valid() && place == Testing && 0 <= i && old(accepted) <= accepted
        decreases if i < |arrivals| then |arrivals| - i else 0, cnt
      {
        HandleOne(if i < |arrivals| then arrivals[i] else []);
        i := i + 1;
      }
      AllHandled();
      place := Ending;
      Interrupted(if i < |arrivals| then arrivals[i] else []);
      LowerFlag();
    }
  }
}
