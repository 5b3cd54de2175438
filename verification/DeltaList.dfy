/** Delta lists: each entry stores the ticks that lie between it and the entry before it, so that the
    tick interrupt only has to count down the head.  The due time of an entry is a prefix sum. */
module DeltaList {

  const U32_SIZE: int := 0x1_0000_0000
  const S32_LIMIT: int := 0x8000_0000
  type U32 = x: int | 0 <= x < 0x1_0000_0000
  type S32 = x: int | -0x8000_0000 <= x < 0x8000_0000

  datatype Entry = Entry(id: int, delta: U32)

  /** The conversion of C from a value computed modulo 2^32 to S32. */
  function ToS32(x: int): S32 {
    var m := x % U32_SIZE;
    if m < S32_LIMIT then m else m - U32_SIZE
  }

  lemma ToS32Exact(x: int)
    ensures -S32_LIMIT <= x < S32_LIMIT ==> ToS32(x) == x
    ensures S32_LIMIT <= x < U32_SIZE ==> ToS32(x) == x - U32_SIZE
    ensures -U32_SIZE < x < -S32_LIMIT ==> ToS32(x) == x + U32_SIZE
  {
    if x < 0 && x > -U32_SIZE {
      assert x % U32_SIZE == x + U32_SIZE;
    }
  }

  /** Ticks until entry i is due. */
  function Due(l: seq<Entry>, i: int): (d: int)
    requires -1 <= i < |l|
    ensures d >= 0
    ensures i >= 0 ==> d >= l[i].delta
  {
    if i < 0 then 0 else Due(l, i - 1) + l[i].delta
  }

  function Total(l: seq<Entry>): (d: int) { Due(l, |l| - 1) }

  lemma {:induction false} DueMonotone(l: seq<Entry>, i: int, j: int)
    requires -1 <= i <= j < |l|
    ensures Due(l, i) <= Due(l, j)
    decreases j - i
  {
    if i < j { DueMonotone(l, i, j - 1); }
  }

  lemma {:induction false} DuePrefix(l: seq<Entry>, m: seq<Entry>, i: int)
    requires -1 <= i < |l| && i < |m|
    requires forall j :: 0 <= j <= i ==> l[j].delta == m[j].delta
    ensures Due(l, i) == Due(m, i)
  {
    if i >= 0 { DuePrefix(l, m, i - 1); }
  }

  /** Two lists whose suffixes carry the same deltas differ there by a constant. */
  lemma {:induction false} DueSuffix(l: seq<Entry>, m: seq<Entry>, i: int, j: int, d: int)
    requires 0 <= i <= j < |l| && 0 <= j + d < |m| && 0 <= i + d
    requires forall k :: i < k <= j ==> m[k + d].delta == l[k].delta
    ensures Due(m, j + d) - Due(l, j) == Due(m, i + d) - Due(l, i)
    decreases j
  {
    if i < j { DueSuffix(l, m, i, j - 1, d); }
  }

  // ----- insertion as the kernel does it, in 32-bit arithmetic -----

  /** Where the walk of the insertion stops, and deltaTicks when it does: before entry k, or past the end. */
  function Walk(l: seq<Entry>, i: nat, deltaTicks: S32): (r: (nat, S32))
    requires i < |l|
    ensures i <= r.0 <= |l|
    ensures r.0 < |l| <==> r.1 < 0
    decreases |l| - i
  {
    var d := ToS32(deltaTicks - l[i].delta);
    if d < 0 then (i, d)
    else if i == |l| - 1 then (|l|, d)
    else Walk(l, i + 1, d)
  }

  function InsertEntry(l: seq<Entry>, k: nat, e: Entry, nextDelta: U32): seq<Entry>
    requires k <= |l|
  {
    l[..k] + [e] + if k < |l| then [l[k].(delta := nextDelta)] + l[k + 1..] else []
  }

  /** The list after the kernel's insertion of a node that is to wait `ticks` ticks; for 0 ticks the kernel returns
      before it inserts. */
  function Insert(l: seq<Entry>, id: int, ticks: U32): seq<Entry> {
    if l == [] then [Entry(id, ticks)]
    else
      var (k, d) := Walk(l, 0, ToS32(ticks));
      if k == |l| then l + [Entry(id, d)]
      else
        var delta := (l[k].delta + d) % U32_SIZE;
        InsertEntry(l, k, Entry(id, delta), (l[k].delta - delta) % U32_SIZE)
  }

  // ----- what an insertion should do -----

  /** The first entry that is due later than `ticks`: a new entry goes before it, after its equals. */
  function Place(l: seq<Entry>, ticks: int, i: nat): (k: nat)
    requires i <= |l|
    ensures i <= k <= |l|
    ensures k < |l| ==> ticks < Due(l, k)
    ensures forall j :: i <= j < k ==> Due(l, j) <= ticks
    decreases |l| - i
  {
    if i == |l| || ticks < Due(l, i) then i else Place(l, ticks, i + 1)
  }

  /** m is l with id inserted where a stable insertion by due time puts it, due in `ticks` ticks,
      every other entry being due when it was. */
  ghost predicate StablyInserted(l: seq<Entry>, m: seq<Entry>, id: int, ticks: int) {
    var k := Place(l, ticks, 0);
    && |m| == |l| + 1
    && m[k].id == id && Due(m, k) == ticks
    && (forall i :: 0 <= i < k ==> m[i].id == l[i].id && Due(m, i) == Due(l, i))
    && (forall i :: k <= i < |l| ==> m[i + 1].id == l[i].id && Due(m, i + 1) == Due(l, i))
  }

  lemma StepExact(l: seq<Entry>, i: nat, ticks: U32)
    requires i < |l|
    ensures var x := ticks - Due(l, i);
            && ToS32(ToS32(ticks - Due(l, i - 1)) - l[i].delta) == ToS32(x)
            && (-S32_LIMIT <= x < S32_LIMIT ==> ToS32(x) == x)
            && (-U32_SIZE < x < -S32_LIMIT ==> ToS32(x) == x + U32_SIZE)
  {
    StepCongruent(ticks - Due(l, i - 1), l[i].delta);
    ToS32Exact(ticks - Due(l, i));
  }

  /** The 32-bit walk sees the true differences when no step of it leaves the range of S32. */
  lemma {:induction false} WalkExact(l: seq<Entry>, i: nat, ticks: U32)
    requires i < |l| && Due(l, i - 1) <= ticks && ticks - Due(l, i) < S32_LIMIT
    requires var k := Place(l, ticks, i); k < |l| ==> Due(l, k) - ticks <= S32_LIMIT
    ensures var k := Place(l, ticks, i);
            Walk(l, i, ToS32(ticks - Due(l, i - 1))) == (k, if k < |l| then ticks - Due(l, k) else ticks - Total(l))
    decreases |l| - i
  {
    WalkStep(l, i, ticks);
    if ticks < Due(l, i) {
      assert Place(l, ticks, i) == i;
    } else if i < |l| - 1 {
      WalkExact(l, i + 1, ticks);
    }
  }

  lemma WalkStep(l: seq<Entry>, i: nat, ticks: U32)
    requires i < |l| && -S32_LIMIT <= ticks - Due(l, i) < S32_LIMIT
    ensures var d := ticks - Due(l, i);
            Walk(l, i, ToS32(ticks - Due(l, i - 1)))
            == if d < 0 then (i, d) else if i == |l| - 1 then (|l|, d) else Walk(l, i + 1, ToS32(d))
  {
    StepExact(l, i, ticks);
  }

  lemma StepCongruent(x: int, delta: int)
    ensures ToS32(ToS32(x) - delta) == ToS32(x - delta)
  {
    var y := ToS32(x);
    assert exists q :: y == x + q * U32_SIZE by {
      assert x == x / U32_SIZE * U32_SIZE + x % U32_SIZE;
      if x % U32_SIZE < S32_LIMIT {
        assert y == x + -(x / U32_SIZE) * U32_SIZE;
      } else {
        assert y == x + (-(x / U32_SIZE) - 1) * U32_SIZE;
      }
    }
    var q :| y == x + q * U32_SIZE;
    ModShift(x - delta, q);
  }

  lemma {:induction false} ModShift(x: int, q: int)
    ensures (x + q * U32_SIZE) % U32_SIZE == x % U32_SIZE
    decreases if q < 0 then -q else q
  {
    if q > 0 {
      ModShift(x, q - 1);
    } else if q < 0 {
      ModShift(x, q + 1);
    }
  }

  /** The guard under which the 32-bit walk is exact: the head is less than 2^31 ticks before the new due
      time, and the entry that will follow is at most 2^31 ticks after it. */
  predicate WalkInRange(l: seq<Entry>, ticks: U32) {
    l == [] ||
    (&& ticks - l[0].delta < S32_LIMIT
     && var k := Place(l, ticks, 0);
        k < |l| ==> Due(l, k) - ticks <= S32_LIMIT)
  }

  lemma AppendStable(l: seq<Entry>, id: int, ticks: U32)
    requires Place(l, ticks, 0) == |l| && Total(l) <= ticks
    ensures StablyInserted(l, l + [Entry(id, ticks - Total(l))], id, ticks)
  {
    var m := l + [Entry(id, ticks - Total(l))];
    forall i | 0 <= i < |l|
      ensures Due(m, i) == Due(l, i)
    {
      DuePrefix(l, m, i);
    }
    DuePrefix(l, m, |l| - 1);
  }

  lemma MiddleStable(l: seq<Entry>, id: int, ticks: U32, k: nat)
    requires k == Place(l, ticks, 0) < |l| && Due(l, k - 1) <= ticks
    ensures Due(l, k) == Due(l, k - 1) + l[k].delta
    ensures StablyInserted(l, InsertEntry(l, k, Entry(id, ticks - Due(l, k - 1)), Due(l, k) - ticks), id, ticks)
  {
    var m := InsertEntry(l, k, Entry(id, ticks - Due(l, k - 1)), Due(l, k) - ticks);
    forall i | 0 <= i < k
      ensures Due(m, i) == Due(l, i)
    {
      DuePrefix(l, m, i);
    }
    MiddleDue(l, id, ticks, k, m);
    forall i | k <= i < |l|
      ensures m[i + 1].id == l[i].id && Due(m, i + 1) == Due(l, i)
    {
      DueSuffix(l, m, k, i, 1);
    }
  }

  lemma MiddleDue(l: seq<Entry>, id: int, ticks: U32, k: nat, m: seq<Entry>)
    requires k < |l| && Due(l, k - 1) <= ticks < Due(l, k)
    requires m == InsertEntry(l, k, Entry(id, ticks - Due(l, k - 1)), Due(l, k) - ticks)
    ensures |m| == |l| + 1 && Due(m, k) == ticks && Due(m, k + 1) == Due(l, k)
  {
    DuePrefix(l, m, k - 1);
    assert Due(m, k) == Due(m, k - 1) + m[k].delta;
    assert Due(m, k + 1) == Due(m, k) + m[k + 1].delta;
  }

  lemma PlaceBounds(l: seq<Entry>, ticks: int)
    requires ticks >= 0
    ensures Due(l, Place(l, ticks, 0) - 1) <= ticks
  {
  }

  lemma SmallMod(x: int)
    requires 0 <= x < U32_SIZE
    ensures x % U32_SIZE == x
  {
  }

  lemma InsertMiddle(l: seq<Entry>, id: int, ticks: U32, k: int)
    requires 0 <= k == Place(l, ticks, 0) < |l| && Due(l, k - 1) <= ticks
    requires Walk(l, 0, ToS32(ticks)) == (k, ticks - Due(l, k))
    ensures Insert(l, id, ticks) == InsertEntry(l, k, Entry(id, ticks - Due(l, k - 1)), Due(l, k) - ticks)
  {
    SmallMod(l[k].delta + (ticks - Due(l, k)));
    SmallMod(l[k].delta - (ticks - Due(l, k - 1)));
  }

  /** What the insertion builds when the walk is exact. */
  lemma InsertExact(l: seq<Entry>, id: int, ticks: U32) returns (k: nat)
    requires WalkInRange(l, ticks)
    ensures k == Place(l, ticks, 0) && Due(l, k - 1) <= ticks
    ensures Insert(l, id, ticks) ==
              if k == |l| then l + [Entry(id, ticks - Total(l))]
              else InsertEntry(l, k, Entry(id, ticks - Due(l, k - 1)), Due(l, k) - ticks)
  {
    k := Place(l, ticks, 0);
    PlaceBounds(l, ticks);
    if l != [] {
      WalkExact(l, 0, ticks);
      if k < |l| { InsertMiddle(l, id, ticks, k); }
    }
  }

  lemma InsertIsStable(l: seq<Entry>, id: int, ticks: U32)
    requires WalkInRange(l, ticks)
    ensures StablyInserted(l, Insert(l, id, ticks), id, ticks)
  {
    var k := InsertExact(l, id, ticks);
    if k == |l| {
      AppendStable(l, id, ticks);
    } else {
      MiddleStable(l, id, ticks, k);
    }
  }

  /** Past an entry more than 2^31 ticks later, the wrapped difference looks positive and the walk goes on. */
  lemma {:induction false} WalkOvershoots(l: seq<Entry>, i: nat, ticks: U32)
    requires i < |l| && Due(l, i - 1) <= ticks && ticks - Due(l, i) < S32_LIMIT
    requires var k := Place(l, ticks, i); k < |l| && Due(l, k) - ticks > S32_LIMIT
    ensures Walk(l, i, ToS32(ticks - Due(l, i - 1))).0 > Place(l, ticks, i)
    decreases |l| - i
  {
    StepExact(l, i, ticks);
    if ticks >= Due(l, i) {
      WalkOvershoots(l, i + 1, ticks);
    } else {
      assert Place(l, ticks, i) == i;
    }
  }

  lemma FarHead(l: seq<Entry>, id: int, ticks: U32)
    requires l != [] && ticks - l[0].delta >= S32_LIMIT
    ensures !StablyInserted(l, Insert(l, id, ticks), id, ticks)
  {
    var x := ticks - l[0].delta;
    StepCongruent(ticks, l[0].delta);
    ToS32Exact(x);
    assert Walk(l, 0, ToS32(ticks)) == (0, x - U32_SIZE);
    var m := Insert(l, id, ticks);
    ModShift(ticks, -1);
    assert m[0].delta == ticks;
    assert Due(m, 0) == Due(m, -1) + m[0].delta;
    assert Due(l, 0) == Due(l, -1) + l[0].delta;
    assert Place(l, ticks, 0) > 0;
  }

  /** With a task that sleeps one more tick, a delay of 2^31 + 1 ticks, which CoTickDelay accepts, is put in front of
      it: the wrapped difference looks negative. */
  lemma FarWait()
    ensures var l, ticks := [Entry(0, 1)], S32_LIMIT + 1;
            Place(l, ticks, 0) == 1 && Insert(l, 1, ticks)[0].id == 1
               && !StablyInserted(l, Insert(l, 1, ticks), 1, ticks)
  {
    FarHead([Entry(0, 1)], 1, S32_LIMIT + 1);
  }

  lemma FarNext(l: seq<Entry>, id: int, ticks: U32)
    requires l != [] && ticks - l[0].delta < S32_LIMIT
    requires var k := Place(l, ticks, 0); k < |l| && Due(l, k) - ticks > S32_LIMIT
    ensures !StablyInserted(l, Insert(l, id, ticks), id, ticks)
  {
    var k := Place(l, ticks, 0);
    WalkOvershoots(l, 0, ticks);
    var m := Insert(l, id, ticks);
    DuePrefix(l, m, k);
  }

  /** The kernel's insertion is the stable insertion by due time if and only if the walk stays in range. */
  lemma InsertStableIff(l: seq<Entry>, id: int, ticks: U32)
    ensures StablyInserted(l, Insert(l, id, ticks), id, ticks) <==> WalkInRange(l, ticks)
  {
    if WalkInRange(l, ticks) {
      InsertIsStable(l, id, ticks);
    } else if ticks - l[0].delta >= S32_LIMIT {
      FarHead(l, id, ticks);
    } else {
      FarNext(l, id, ticks);
    }
  }

  /** All waits below 2^31 ticks: the range that the signed walk is made for, and it is kept. */
  lemma SmallWaits(l: seq<Entry>, id: int, ticks: U32)
    requires ticks < S32_LIMIT && Total(l) < S32_LIMIT
    ensures WalkInRange(l, ticks)
    ensures Total(Insert(l, id, ticks)) < S32_LIMIT
  {
    var k := Place(l, ticks, 0);
    if k < |l| { DueMonotone(l, k, |l| - 1); }
    InsertIsStable(l, id, ticks);
    var m := Insert(l, id, ticks);
    if k < |l| {
      assert Due(m, |m| - 1) == Due(l, |l| - 1);
    }
  }

  // ----- removal -----

  function Remove(l: seq<Entry>, i: nat): seq<Entry>
    requires i < |l|
  {
    l[..i] + if i + 1 < |l| then [l[i + 1].(delta := (l[i + 1].delta + l[i].delta) % U32_SIZE)] + l[i + 2..] else []
  }

  lemma RemovePrefix(l: seq<Entry>, i: nat, j: int)
    requires -1 <= j < i < |l|
    ensures Due(Remove(l, i), j) == Due(l, j)
  {
    DuePrefix(l, Remove(l, i), j);
  }

  /** The entry behind the gap gets the removed entry's ticks. */
  lemma RemoveGap(l: seq<Entry>, i: nat)
    requires i + 1 < |l| && Total(l) < U32_SIZE
    ensures Due(Remove(l, i), i) == Due(l, i + 1)
  {
    var m := Remove(l, i);
    DueMonotone(l, i + 1, |l| - 1);
    assert Due(l, i + 1) == Due(l, i - 1) + l[i].delta + l[i + 1].delta;
    SmallMod(l[i + 1].delta + l[i].delta);
    RemovePrefix(l, i, i - 1);
    assert Due(m, i) == Due(m, i - 1) + m[i].delta;
  }

  lemma RemoveSuffix(l: seq<Entry>, i: int, j: int)
    requires 0 <= i < j < |l| && Total(l) < U32_SIZE
    ensures Remove(l, i)[j - 1].id == l[j].id && Due(Remove(l, i), j - 1) == Due(l, j)
  {
    RemoveGap(l, i);
    DueSuffix(l, Remove(l, i), i + 1, j, -1);
  }

  lemma RemoveTotal(l: seq<Entry>, i: nat)
    requires i < |l| && Total(l) < U32_SIZE
    ensures Total(Remove(l, i)) <= Total(l)
  {
    if i == |l| - 1 {
      RemovePrefix(l, i, i - 1);
      DueMonotone(l, i - 1, i);
    } else {
      RemoveSuffix(l, i, |l| - 1);
    }
  }

  /** Removing an entry changes no other due time. */
  lemma RemoveKeepsDue(l: seq<Entry>, i: nat)
    requires i < |l| && Total(l) < U32_SIZE
    ensures var m := Remove(l, i);
            && |m| == |l| - 1
            && (forall j :: 0 <= j < i ==> m[j] == l[j] && Due(m, j) == Due(l, j))
            && (forall j :: i < j < |l| ==> m[j - 1].id == l[j].id && Due(m, j - 1) == Due(l, j))
            && Total(m) <= Total(l)
  {
    var m := Remove(l, i);
    forall j | 0 <= j < i
      ensures Due(m, j) == Due(l, j)
    {
      RemovePrefix(l, i, j);
    }
    forall j | i < j < |l|
      ensures m[j - 1].id == l[j].id && Due(m, j - 1) == Due(l, j)
    {
      RemoveSuffix(l, i, j);
    }
    RemoveTotal(l, i);
  }

  // ----- the tick -----

  /** The count-down of the tick interrupt. */
  function Tick(l: seq<Entry>): seq<Entry> {
    if l == [] then l
    else if l[0].delta > 1 then l[0 := l[0].(delta := l[0].delta - 1)]
    else l[0 := l[0].(delta := 0)]
  }

  /** A tick brings every entry one tick nearer, except that it is lost on a list whose head is already due. */
  lemma {:induction false} TickDue(l: seq<Entry>, i: int)
    requires 0 <= i < |l|
    ensures Due(Tick(l), i) == Due(l, i) - (if l[0].delta == 0 then 0 else 1)
    ensures Tick(l)[i].id == l[i].id
  {
    if i == 0 {
      assert Due(l, 0) == Due(l, -1) + l[0].delta;
      assert Due(Tick(l), 0) == Due(Tick(l), -1) + Tick(l)[0].delta;
    } else {
      TickDue(l, i - 1);
    }
  }

  /** How many entries at the front are due. */
  function DueNow(l: seq<Entry>, i: nat): (k: nat)
    requires i <= |l|
    ensures i <= k <= |l|
    ensures forall j :: i <= j < k ==> l[j].delta == 0
    ensures k < |l| ==> l[k].delta != 0
    decreases |l| - i
  {
    if i == |l| || l[i].delta != 0 then i else DueNow(l, i + 1)
  }

  lemma {:induction false} ZeroPrefix(l: seq<Entry>, k: nat, i: int)
    requires k <= |l| && -1 <= i < k
    requires forall j :: 0 <= j < k ==> l[j].delta == 0
    ensures Due(l, i) == 0
  {
    if i >= 0 { ZeroPrefix(l, k, i - 1); }
  }

  /** Dropping the entries that are due changes no other due time. */
  lemma DropDue(l: seq<Entry>, i: nat)
    requires DueNow(l, 0) <= i < |l|
    ensures Due(l[DueNow(l, 0)..], i - DueNow(l, 0)) == Due(l, i)
  {
    var k: int := DueNow(l, 0);
    ZeroPrefix(l, k, k - 1);
    var m := l[k..];
    DropFront(l, k, i);
  }

  lemma {:induction false} DropFront(l: seq<Entry>, k: nat, i: nat)
    requires k <= i < |l|
    requires Due(l, k - 1) == 0
    ensures Due(l[k..], i - k) == Due(l, i)
    decreases i
  {
    var m := l[k..];
    assert m[i - k] == l[i];
    if i > k {
      DropFront(l, k, i - 1);
    } else {
      assert Due(m, -1) == 0;
    }
  }
}
