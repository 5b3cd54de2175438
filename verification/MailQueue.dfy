/** A mail queue with the tasks that wait for mail: a ring of mails and a list of waiters, in order of arrival or
    by priority. */
module MailQueue {
  import opened Links
  import opened Rings
  import TaskModel

  type Mail = int

  datatype SortType = FIFO | PRIO

  datatype Delivery = Delivery(task: int, mail: Mail)

  /** prio[t] is the priority of task t.  posted lists the mails ever accepted by a post, delivered the mails ever
      handed out, in order, each with the task it went to. */
  datatype Box = Box(sort: SortType, prio: seq<int>, cell: seq<Mail>, head: int, tail: int, size: int,
                     waiting: seq<int>, posted: seq<Mail>, delivered: seq<Delivery>)

  datatype Action =
    | Post(mail: Mail)          // CoPostQueueMail
    | Accept(task: int)         // CoAcceptQueueMail
    | Pend(task: int)           // CoPendQueueMail, by a task that does not wait already
    | Timeout(task: int)        // a waiter's time is over

  predicate Sized(b: Box) {
    && 0 <= b.head < |b.cell| && 0 <= b.tail < |b.cell| && 0 <= b.size <= |b.cell|
    && InTable(b.waiting, |b.prio|)
  }

  function Mails(b: Box): seq<Mail>
    requires Sized(b)
  {
    Elements(b.cell, b.head, b.size)
  }

  /** Where EventTaskToWait puts a task: last, or behind the last waiter of at least its priority. */
  function WaitPos(b: Box, t: int): (k: nat)
    requires InTable(b.waiting, |b.prio|) && 0 <= t < |b.prio|
    ensures k <= |b.waiting|
  {
    if b.sort == FIFO then |b.waiting| else TaskModel.RdyPos(b.prio, b.waiting, b.prio[t])
  }

  /** The oldest mail goes to task t. */
  function TakeMail(b: Box, t: int): Box
    requires Sized(b) && b.size > 0
  {
    b.(head := if b.head + 1 == |b.cell| then 0 else b.head + 1, size := b.size - 1,
       delivered := b.delivered + [Delivery(t, b.cell[b.head])])
  }

  /** EventTaskToRdy: the first waiter, if there is one, gets the oldest mail. */
  function WakeFirst(b: Box): Box
    requires Sized(b) && b.size > 0
  {
    if b.waiting == [] then b else TakeMail(b, b.waiting[0]).(waiting := b.waiting[1..])
  }

  function PutMail(b: Box, mail: Mail): Box
    requires Sized(b)
  {
    b.(cell := b.cell[b.tail := mail], tail := if b.tail + 1 == |b.cell| then 0 else b.tail + 1, size := b.size + 1,
       posted := b.posted + [mail])
  }

  predicate Enabled(b: Box, a: Action) {
    match a
    case Post(_) => true
    case Accept(_) => true
    case Pend(t) => 0 <= t < |b.prio| && t !in b.waiting
    case Timeout(t) => t in b.waiting
  }

  function Do(b: Box, a: Action): Box
    requires Sized(b) && Enabled(b, a)
  {
    match a
    case Post(mail) => if b.size == |b.cell| then b else WakeFirst(PutMail(b, mail))
    case Accept(t) => if b.size != 0 then TakeMail(b, t) else b
    case Pend(t) => if b.size != 0 then TakeMail(b, t) else b.(waiting := InsertAt(b.waiting, WaitPos(b, t), t))
    case Timeout(t) => b.(waiting := RemoveAt(b.waiting, IndexOf(b.waiting, t)))
  }

  function MailsOf(d: seq<Delivery>): (m: seq<Mail>)
    ensures |m| == |d| && forall i :: 0 <= i < |d| ==> m[i] == d[i].mail
  {
    seq(|d|, i requires 0 <= i < |d| => d[i].mail)
  }

  /** The mails delivered, in order, followed by the mails in the ring are the mails posted; the waiters are
      different tasks, in order of priority if the queue is sorted so. */
  ghost predicate Booked(b: Box) {
    && Sized(b) && b.tail == Wrap(b.head + b.size, |b.cell|)
    && b.posted == MailsOf(b.delivered) + Mails(b)
    && Distinct(b.waiting)
    && (b.sort == PRIO ==> TaskModel.Sorted(b.prio, b.waiting))
  }

  /** ... and tasks wait only while the ring is empty. */
  ghost predicate Exact(b: Box) { Booked(b) && (b.waiting != [] ==> b.size == 0) }

  lemma TakeBooked(b: Box, t: int) returns (d: Box)
    requires Booked(b) && b.size > 0
    ensures d == TakeMail(b, t) && Booked(d) && Mails(b) == [b.cell[b.head]] + Mails(d)
  {
    d := TakeMail(b, t);
    Popped(b.cell, b.head, b.size);
    assert MailsOf(d.delivered) == MailsOf(b.delivered) + [b.cell[b.head]];
    assert MailsOf(b.delivered) + ([b.cell[b.head]] + Mails(d)) == MailsOf(d.delivered) + Mails(d);
  }

  lemma PutBooked(b: Box, mail: Mail) returns (d: Box)
    requires Booked(b) && b.size < |b.cell|
    ensures d == PutMail(b, mail) && Booked(d) && Mails(d) == Mails(b) + [mail]
  {
    d := PutMail(b, mail);
    Pushed(b.cell, b.head, b.size, mail);
    assert MailsOf(b.delivered) + (Mails(b) + [mail]) == b.posted + [mail];
  }

  lemma WakeBooked(b: Box) returns (d: Box)
    requires Booked(b) && b.size > 0
    ensures d == WakeFirst(b) && Booked(d)
    ensures b.waiting != [] ==> Mails(b) == [b.cell[b.head]] + Mails(d)
  {
    d := WakeFirst(b);
    if b.waiting != [] {
      var e := TakeBooked(b, b.waiting[0]);
      TaskModel.TailDistinct(b.waiting);
    }
  }

  lemma PostExact(b: Box, mail: Mail)
    requires Exact(b)
    ensures Exact(Do(b, Post(mail)))
  {
    if b.size != |b.cell| {
      var c := PutBooked(b, mail);
      var d := WakeBooked(c);
    }
  }

  lemma WaitExact(b: Box, t: int)
    requires Exact(b) && Enabled(b, Pend(t)) && b.size == 0
    ensures Exact(Do(b, Pend(t)))
  {
    InsertDistinct(b.waiting, WaitPos(b, t), t);
    if b.sort == PRIO { TaskModel.InsertSorted(b.prio, b.waiting, t); }
  }

  lemma TimeoutExact(b: Box, t: int)
    requires Exact(b) && Enabled(b, Timeout(t))
    ensures Exact(Do(b, Timeout(t)))
  {
    var k := IndexOf(b.waiting, t);
    RemoveDistinct(b.waiting, k);
    if b.sort == PRIO { TaskModel.RemoveSorted(b.prio, b.waiting, k); }
  }

  lemma StepExact(b: Box, a: Action)
    requires Exact(b) && Enabled(b, a)
    ensures Exact(Do(b, a))
  {
    match a {
      case Post(mail) => PostExact(b, mail);
      case Accept(t) => if b.size != 0 { var d := TakeBooked(b, t); }
      case Pend(t) => if b.size != 0 { var d := TakeBooked(b, t); } else { WaitExact(b, t); }
      case Timeout(t) => TimeoutExact(b, t);
    }
  }

  /** A post while tasks wait: the posted mail itself goes to the first waiter, and the ring stays empty. */
  lemma PostServesFirst(b: Box, mail: Mail)
    requires Exact(b) && b.waiting != []
    ensures var d := Do(b, Post(mail));
            && d.delivered == b.delivered + [Delivery(b.waiting[0], mail)] && d.waiting == b.waiting[1..]
            && d.size == 0 && d.posted == b.posted + [mail]
  {
    var c := PutBooked(b, mail);
    var d := WakeBooked(c);
    assert Mails(b) == [] && Mails(c) == [mail];
  }

  lemma PostFills(b: Box, mail: Mail)
    requires Exact(b) && b.waiting == [] && b.size < |b.cell|
    ensures var d := Do(b, Post(mail));
            && Mails(d) == Mails(b) + [mail] && d.posted == b.posted + [mail] && d.delivered == b.delivered
            && d.waiting == []
  {
    var c := PutBooked(b, mail);
  }

  /** Task t gets the oldest mail of b, and nothing else changes. */
  ghost predicate Fetched(b: Box, d: Box, t: int)
    requires Sized(b) && Sized(d) && Mails(b) != []
  {
    && Mails(d) == Mails(b)[1..] && d.delivered == b.delivered + [Delivery(t, Mails(b)[0])]
    && d.posted == b.posted && d.waiting == b.waiting
  }

  lemma TakeFetches(b: Box, t: int)
    requires Booked(b) && b.size > 0
    ensures Sized(TakeMail(b, t)) && Mails(b) != [] && Fetched(b, TakeMail(b, t), t)
  {
    var d := TakeBooked(b, t);
  }

  /** d is b after task t has left its place among the waiters. */
  ghost predicate LeftLine(b: Box, d: Box, t: int)
    requires Sized(b) && Sized(d)
  {
    && Mails(d) == Mails(b) && d.delivered == b.delivered && d.posted == b.posted
    && exists i :: 0 <= i < |b.waiting| && b.waiting[i] == t && d.waiting == b.waiting[..i] + b.waiting[i + 1..]
  }

  /** What every call does, in terms of the mails in the ring, the waiters and who gets which mail.  A post to a queue
      with room is taken: by the first waiter, or into the ring.  The oldest mail goes to whoever asks for one.  Who
      finds none begins to wait if it pends, and a waiter whose time is over is the one that leaves. */
  lemma StepEffect(b: Box, a: Action)
    requires Exact(b) && Enabled(b, a)
    ensures Exact(Do(b, a))
    ensures var d := Do(b, a);
            && |d.cell| == |b.cell| && d.sort == b.sort && d.prio == b.prio
            && match a
               case Post(mail) =>
                 if |Mails(b)| == |b.cell| then d == b
                 else if b.waiting != [] then
                   && Mails(d) == Mails(b) == [] && d.posted == b.posted + [mail] && d.waiting == b.waiting[1..]
                   && d.delivered == b.delivered + [Delivery(b.waiting[0], mail)]
                 else Mails(d) == Mails(b) + [mail] && d.posted == b.posted + [mail] && d.delivered == b.delivered
                      && d.waiting == []
               case Accept(t) => if Mails(b) == [] then d == b else Fetched(b, d, t)
               case Pend(t) =>
                 if Mails(b) != [] then Fetched(b, d, t)
                 else Mails(d) == [] && d.posted == b.posted && d.delivered == b.delivered
                      && Joined(b.waiting, d.waiting, t)
               case Timeout(t) => LeftLine(b, d, t)
  {
    StepExact(b, a);
    match a {
      case Post(mail) => PostEffect(b, mail);
      case Accept(t) => if b.size != 0 { TakeFetches(b, t); }
      case Pend(t) =>
        if b.size != 0 { TakeFetches(b, t); } else { JoinedAt(b.waiting, WaitPos(b, t), t); }
      case Timeout(t) =>
        assert b.waiting[IndexOf(b.waiting, t)] == t;
    }
  }

  lemma PostEffect(b: Box, mail: Mail)
    requires Exact(b)
    ensures var d := Do(b, Post(mail));
            && Sized(d)
            && if |Mails(b)| == |b.cell| then d == b
               else if b.waiting != [] then
                 && Mails(d) == Mails(b) == [] && d.posted == b.posted + [mail] && d.waiting == b.waiting[1..]
                 && d.delivered == b.delivered + [Delivery(b.waiting[0], mail)]
               else Mails(d) == Mails(b) + [mail] && d.posted == b.posted + [mail] && d.delivered == b.delivered
                    && d.waiting == []
  {
    PostExact(b, mail);
    if b.waiting != [] { PostServesFirst(b, mail); } else if b.size < |b.cell| { PostFills(b, mail); }
  }

  /** r is q with t put in somewhere. */
  ghost predicate Joined(q: seq<int>, r: seq<int>, t: int) {
    exists k :: 0 <= k <= |q| && r == q[..k] + [t] + q[k..]
  }

  lemma JoinedAt(q: seq<int>, k: nat, t: int)
    requires k <= |q|
    ensures Joined(q, InsertAt(q, k, t), t)
  {
    assert InsertAt(q, k, t) == q[..k] + [t] + q[k..];
  }

  /** Who the first waiter is: of a queue sorted by priority no waiter has a higher one. */
  lemma FirstIsHighest(b: Box, t: int)
    requires Exact(b) && b.sort == PRIO && t in b.waiting
    ensures 0 <= t < |b.prio| && b.prio[b.waiting[0]] <= b.prio[t]
  {
    var k := IndexOf(b.waiting, t);
    assert b.prio[b.waiting[0]] <= b.prio[b.waiting[k]];
  }

  /** A task that begins to wait comes last among all waiters, or among those of its own priority. */
  lemma WaitIsFifo(b: Box, t: int, p: int)
    requires Exact(b) && Enabled(b, Pend(t)) && b.size == 0
    ensures var d := Do(b, Pend(t));
            && (b.sort == FIFO ==> d.waiting == b.waiting + [t])
            && InTable(d.waiting, |b.prio|)
            && (b.sort == PRIO ==> TaskModel.OfPrio(b.prio, d.waiting, p)
                                   == TaskModel.OfPrio(b.prio, b.waiting, p) + if b.prio[t] == p then [t] else [])
  {
    if b.sort == PRIO { TaskModel.InsertIsFifo(b.prio, b.waiting, t, p); }
    WaitExact(b, t);
  }

  // ----- whole runs -----

  ghost predicate CanRun(b: Box, run: seq<Action>)
    decreases |run|
  {
    run == [] || (Sized(b) && Enabled(b, run[0]) && CanRun(Do(b, run[0]), run[1..]))
  }

  ghost function Run(b: Box, run: seq<Action>): Box
    requires CanRun(b, run)
    decreases |run|
  {
    if run == [] then b else Run(Do(b, run[0]), run[1..])
  }

  /** Over every run of posts, accepts, pends and timeouts no mail is lost, doubled or overtaken: the mails
      delivered, in order, followed by those in the ring are the mails posted; and tasks wait only when the ring is
      empty. */
  lemma {:induction false} RunExact(b: Box, run: seq<Action>)
    requires Exact(b) && CanRun(b, run)
    ensures var r := Run(b, run);
            && Exact(r) && b.posted <= r.posted && b.delivered <= r.delivered
            && MailsOf(r.delivered) <= r.posted
    decreases |run|
  {
    if run != [] {
      StepExact(b, run[0]);
      RunExact(Do(b, run[0]), run[1..]);
    }
  }

  /** The mails of those posts of the run that came while there was room in the ring. */
  ghost function Taken(b: Box, run: seq<Action>): seq<Mail>
    requires CanRun(b, run)
    decreases |run|
  {
    if run == [] then []
    else (if run[0].Post? && |Mails(b)| < |b.cell| then [run[0].mail] else []) + Taken(Do(b, run[0]), run[1..])
  }

  /** Over every run, the mails posted are those of the posts that came while there was room, in order: with RunExact,
      each of them is delivered or in the ring, and no other. */
  lemma {:induction false} RunTakes(b: Box, run: seq<Action>)
    requires Exact(b) && CanRun(b, run)
    ensures var r := Run(b, run);
            && Exact(r) && r.posted == b.posted + Taken(b, run)
            && MailsOf(r.delivered) + Mails(r) == b.posted + Taken(b, run)
    decreases |run|
  {
    if run != [] {
      var d, x := TakenFirst(b, run);
      RunTakes(d, run[1..]);
      Regroup(b.posted, x, Taken(d, run[1..]));
    }
  }

  lemma Regroup(p: seq<Mail>, x: seq<Mail>, y: seq<Mail>)
    ensures p + x + y == p + (x + y)
  {
  }

  lemma TakenFirst(b: Box, run: seq<Action>) returns (d: Box, x: seq<Mail>)
    requires Exact(b) && CanRun(b, run) && run != []
    ensures Exact(d) && d.posted == b.posted + x && CanRun(d, run[1..]) && Run(b, run) == Run(d, run[1..])
    ensures Taken(b, run) == x + Taken(d, run[1..])
  {
    PostedGrows(b, run[0]);
    d := Do(b, run[0]);
    x := if run[0].Post? && |Mails(b)| < |b.cell| then [run[0].mail] else [];
  }

  lemma PostedGrows(b: Box, a: Action)
    requires Exact(b) && Enabled(b, a)
    ensures Exact(Do(b, a))
    ensures Do(b, a).posted == b.posted + if a.Post? && |Mails(b)| < |b.cell| then [a.mail] else []
  {
    StepEffect(b, a);
  }
}
