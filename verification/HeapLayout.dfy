/** The abstract value of the kernel heap: the blocks that tile the heap, in address order.
    Positions and sizes are in 32-bit words; a free header takes three words, a used one two. */
module HeapLayout {

  const MIN_WORDS: nat := 3
  const UMB_WORDS: nat := 2

  datatype Block = Block(start: nat, words: nat, used: bool)
  {
    function End(): nat { start + words }
  }

  /** Block i ends where block i + 1 starts, and they are not both free. */
  ghost predicate Joined(L: seq<Block>, i: nat)
    requires i + 1 < |L|
  {
    L[i + 1].start == L[i].End() && (L[i].used || L[i + 1].used)
  }

  /** The blocks tile words [0, n), each can hold a free header, and no two neighbours are free. */
  ghost predicate WellFormed(L: seq<Block>, n: nat) {
    && |L| > 0
    && L[0].start == 0
    && L[|L| - 1].End() == n
    && (forall i :: 0 <= i < |L| - 1 ==> Joined(L, i))
    && (forall i :: 0 <= i < |L| ==> L[i].words >= MIN_WORDS)
  }

  function Initial(n: nat): seq<Block> { [Block(0, n, false)] }

  lemma {:induction false} BlocksOrdered(L: seq<Block>, n: nat, i: nat, j: nat)
    requires WellFormed(L, n)
    requires i < j < |L|
    ensures L[i].End() <= L[j].start
    decreases j - i
  {
    assert Joined(L, i);
    if j != i + 1 {
      BlocksOrdered(L, n, i + 1, j);
    }
  }

  lemma LowerIsBefore(L: seq<Block>, n: nat, k: nat)
    requires WellFormed(L, n) && k < |L|
    ensures forall i :: 0 <= i < |L| && L[i].start < L[k].start ==> i < k
  {
    Disjoint(L, n);
  }

  lemma Disjoint(L: seq<Block>, n: nat)
    requires WellFormed(L, n)
    ensures forall i, j :: 0 <= i < j < |L| ==> L[i].End() <= L[j].start
    ensures forall i :: 0 <= i < |L| ==> L[i].End() <= n
  {
    forall i, j | 0 <= i < j < |L|
      ensures L[i].End() <= L[j].start
    {
      BlocksOrdered(L, n, i, j);
    }
  }

  // ----- searching -----

  /** Index of the first free block at or after i; |L| if there is none. */
  function NextFree(L: seq<Block>, i: nat): (k: nat)
    requires i <= |L|
    ensures i <= k <= |L|
    ensures k < |L| ==> !L[k].used
    ensures forall j :: i <= j < k ==> L[j].used
    decreases |L| - i
  {
    if i == |L| || !L[i].used then i else NextFree(L, i + 1)
  }

  /** Index of the last free block before i; -1 if there is none. */
  function PrevFree(L: seq<Block>, i: nat): (k: int)
    requires i <= |L|
    ensures -1 <= k < i
    ensures k >= 0 ==> !L[k].used
    ensures forall j :: k < j < i ==> L[j].used
  {
    if i == 0 then -1 else if !L[i - 1].used then i - 1 else PrevFree(L, i - 1)
  }

  predicate Fits(b: Block, need: nat) { !b.used && b.words >= need }

  /** The lowest-address free block at or after i that is large enough; |L| iff no free block is. */
  function FirstFit(L: seq<Block>, need: nat, i: nat): (k: nat)
    requires i <= |L|
    ensures i <= k <= |L|
    ensures k < |L| ==> Fits(L[k], need)
    ensures forall j :: i <= j < k ==> !Fits(L[j], need)
    decreases |L| - i
  {
    if i == |L| || Fits(L[i], need) then i else FirstFit(L, need, i + 1)
  }

  // ----- the two operations -----

  function Splice(L: seq<Block>, lo: nat, hi: nat, M: seq<Block>): (S: seq<Block>)
    requires lo <= hi <= |L|
    ensures |S| == |L| - (hi - lo) + |M|
    ensures forall i :: 0 <= i < lo ==> S[i] == L[i]
    ensures forall i :: lo <= i < lo + |M| ==> S[i] == M[i - lo]
    ensures forall i :: lo + |M| <= i < |S| ==> S[i] == L[i - |M| + (hi - lo)]
  {
    L[..lo] + M + L[hi..]
  }

  /** What block k becomes when `need` words of it are allocated: a remainder too small for a
      free header is given to the caller. */
  function Carve(b: Block, need: nat): seq<Block>
    requires Fits(b, need)
  {
    if b.words - need < MIN_WORDS then [b.(used := true)]
    else [Block(b.start, need, true), Block(b.start + need, b.words - need, false)]
  }

  function Alloc(L: seq<Block>, need: nat): seq<Block> {
    var k := FirstFit(L, need, 0);
    if k == |L| then L else Splice(L, k, k + 1, Carve(L[k], need))
  }

  function MergeLo(L: seq<Block>, k: nat): (lo: nat)
    requires k < |L|
  {
    if k > 0 && !L[k - 1].used then k - 1 else k
  }

  function MergeHi(L: seq<Block>, k: nat): (hi: nat)
    requires k < |L|
  {
    if k + 1 < |L| && !L[k + 1].used then k + 2 else k + 1
  }

  function Merged(L: seq<Block>, k: nat): Block
    requires k < |L|
  {
    var lo, hi := MergeLo(L, k), MergeHi(L, k);
    Block(L[lo].start, if L[hi - 1].End() >= L[lo].start then L[hi - 1].End() - L[lo].start else 0, false)
  }

  /** Frees block k, joining it with the free neighbours it has. */
  function Release(L: seq<Block>, k: nat): seq<Block>
    requires k < |L|
  {
    Splice(L, MergeLo(L, k), MergeHi(L, k), [Merged(L, k)])
  }

  // ----- the operations keep the layout well formed -----

  /** Replacing a stretch of blocks by others that cover the same words. */
  lemma SpliceWellFormed(L: seq<Block>, n: nat, lo: nat, hi: nat, M: seq<Block>)
    requires WellFormed(L, n)
    requires lo < hi <= |L|
    requires |M| > 0 && M[0].start == L[lo].start && M[|M| - 1].End() == L[hi - 1].End()
    requires forall i :: 0 <= i < |M| - 1 ==> Joined(M, i)
    requires forall i :: 0 <= i < |M| ==> M[i].words >= MIN_WORDS
    requires lo > 0 ==> L[lo - 1].used || M[0].used
    requires hi < |L| ==> L[hi].used || M[|M| - 1].used
    ensures WellFormed(Splice(L, lo, hi, M), n)
  {
    var S := Splice(L, lo, hi, M);
    forall i | 0 <= i < |S| - 1
      ensures Joined(S, i)
    {
      if i < lo {
        assert Joined(L, i);
      } else if i < lo + |M| - 1 {
        assert Joined(M, i - lo);
      } else {
        assert Joined(L, i - |M| + (hi - lo));
      }
    }
  }

  lemma CarveWellFormed(L: seq<Block>, n: nat, k: nat, need: nat)
    requires WellFormed(L, n) && k < |L| && Fits(L[k], need) && need >= MIN_WORDS
    ensures WellFormed(Splice(L, k, k + 1, Carve(L[k], need)), n)
  {
    if k > 0 { assert Joined(L, k - 1); }
    if k + 1 < |L| { assert Joined(L, k); }
    SpliceWellFormed(L, n, k, k + 1, Carve(L[k], need));
  }

  lemma AllocWellFormed(L: seq<Block>, n: nat, need: nat)
    requires WellFormed(L, n)
    requires need >= MIN_WORDS
    ensures WellFormed(Alloc(L, need), n)
  {
    var k := FirstFit(L, need, 0);
    if k < |L| { CarveWellFormed(L, n, k, need); }
  }

  lemma MergeBounds(L: seq<Block>, n: nat, k: nat)
    requires WellFormed(L, n)
    requires k < |L| && L[k].used
    ensures var lo, hi := MergeLo(L, k), MergeHi(L, k);
            && lo <= k < hi <= |L| && hi - lo <= 3
            && (lo > 0 ==> L[lo - 1].used)
            && (hi < |L| ==> L[hi].used)
            && (forall i :: lo <= i < hi && i != k ==> !L[i].used)
            && L[hi - 1].End() >= L[lo].start + MIN_WORDS
            && Merged(L, k) == Block(L[lo].start, L[hi - 1].End() - L[lo].start, false)
  {
    if k > 0 { assert Joined(L, k - 1); }
    if k > 1 { assert Joined(L, k - 2); }
    if k + 1 < |L| { assert Joined(L, k); }
    if k + 2 < |L| { assert Joined(L, k + 1); }
  }

  lemma StartsMerge(L: seq<Block>, n: nat, k: nat)
    requires WellFormed(L, n) && k < |L|
    ensures L[k].start == L[MergeLo(L, k)].start ==> MergeLo(L, k) == k
  {
    if k > 0 { assert Joined(L, k - 1); }
  }

  lemma ReleaseWellFormed(L: seq<Block>, n: nat, k: nat)
    requires WellFormed(L, n)
    requires k < |L| && L[k].used
    ensures WellFormed(Release(L, k), n)
  {
    MergeBounds(L, n, k);
    SpliceWellFormed(L, n, MergeLo(L, k), MergeHi(L, k), [Merged(L, k)]);
  }

  // ----- live allocations -----

  ghost function Live(L: seq<Block>): set<Block> {
    set i | 0 <= i < |L| && L[i].used :: L[i]
  }

  lemma LiveConcat(A: seq<Block>, B: seq<Block>)
    ensures Live(A + B) == Live(A) + Live(B)
  {
    var C := A + B;
    forall b | b in Live(A) + Live(B)
      ensures b in Live(C)
    {
      if b in Live(A) {
        var i :| 0 <= i < |A| && A[i].used && A[i] == b;
        assert C[i] == b;
      } else {
        var i :| 0 <= i < |B| && B[i].used && B[i] == b;
        assert C[|A| + i] == b;
      }
    }
  }

  lemma SpliceLive(L: seq<Block>, lo: nat, hi: nat, M: seq<Block>)
    requires lo <= hi <= |L|
    ensures Live(Splice(L, lo, hi, M)) == Live(L[..lo]) + Live(M) + Live(L[hi..])
  {
    LiveConcat(L[..lo], M);
    LiveConcat(L[..lo] + M, L[hi..]);
  }

  lemma SpliceOut(L: seq<Block>, lo: nat, hi: nat)
    requires lo <= hi <= |L|
    ensures Live(L) == Live(L[..lo]) + Live(L[lo..hi]) + Live(L[hi..])
  {
    SpliceLive(L, lo, hi, L[lo..hi]);
    assert Splice(L, lo, hi, L[lo..hi]) == L;
  }

  lemma CarveLive(b: Block, need: nat)
    requires Fits(b, need)
    ensures Live([b]) == {}
    ensures Live(Carve(b, need)) == {Carve(b, need)[0]}
  {
    var M := Carve(b, need);
    assert forall i :: 0 <= i < |M| && M[i].used ==> i == 0;
    assert M[0] in Live(M);
  }

  /** A block that lies inside free block k lies apart from every live block. */
  lemma InsideFreeIsApart(L: seq<Block>, n: nat, k: nat, b: Block)
    requires WellFormed(L, n) && k < |L| && !L[k].used
    requires L[k].start <= b.start < b.End() <= L[k].End()
    ensures forall c :: c in Live(L) ==> c.End() <= b.start || b.End() <= c.start
    ensures b !in Live(L)
  {
    forall c | c in Live(L)
      ensures c.End() <= b.start || b.End() <= c.start
    {
      var i :| 0 <= i < |L| && L[i].used && L[i] == c;
      if i < k { BlocksOrdered(L, n, i, k); } else { BlocksOrdered(L, n, k, i); }
    }
  }

  /** CoKmalloc adds exactly one live block, disjoint from all others, and touches no other. */
  lemma AllocLive(L: seq<Block>, n: nat, need: nat)
    requires WellFormed(L, n)
    requires need >= MIN_WORDS
    ensures var k := FirstFit(L, need, 0);
            if k == |L| then Alloc(L, need) == L
            else var b := Alloc(L, need)[k];
                 && b.start == L[k].start && b.used && need <= b.words < need + MIN_WORDS
                 && b !in Live(L)
                 && Live(Alloc(L, need)) == Live(L) + {b}
                 && (forall c :: c in Live(L) ==> c.End() <= b.start || b.End() <= c.start)
  {
    var k := FirstFit(L, need, 0);
    if k < |L| {
      CarvedLive(L, k, need);
      InsideFreeIsApart(L, n, k, Carve(L[k], need)[0]);
    }
  }

  lemma CarvedLive(L: seq<Block>, k: nat, need: nat)
    requires k < |L| && Fits(L[k], need) && need >= MIN_WORDS
    ensures Live(Splice(L, k, k + 1, Carve(L[k], need))) == Live(L) + {Carve(L[k], need)[0]}
  {
    CarveLive(L[k], need);
    SpliceLive(L, k, k + 1, Carve(L[k], need));
    SpliceOut(L, k, k + 1);
    assert L[k..k + 1] == [L[k]];
  }

  lemma UsedStartsDistinct(L: seq<Block>, n: nat, i: nat, j: nat)
    requires WellFormed(L, n)
    requires i < |L| && j < |L| && L[i].start == L[j].start
    ensures i == j
  {
    if i < j { BlocksOrdered(L, n, i, j); }
    if j < i { BlocksOrdered(L, n, j, i); }
  }

  /** CoKfree removes exactly the block it is given from the live blocks. */
  lemma ReleaseLive(L: seq<Block>, n: nat, k: nat)
    requires WellFormed(L, n)
    requires k < |L| && L[k].used
    ensures Live(Release(L, k)) == Live(L) - {L[k]}
  {
    MergeBounds(L, n, k);
    var lo, hi := MergeLo(L, k), MergeHi(L, k);
    SpliceLive(L, lo, hi, [Merged(L, k)]);
    SpliceOut(L, lo, hi);
    assert Live([Merged(L, k)]) == {};
    assert Live(L[lo..hi]) == {L[k]} by {
      assert L[lo..hi][k - lo] == L[k];
      assert forall i :: 0 <= i < hi - lo && L[lo..hi][i].used ==> i == k - lo;
    }
    assert L[k] !in Live(L[..lo]) + Live(L[hi..]) by {
      forall i | 0 <= i < |L| && L[i] == L[k]
        ensures i == k
      {
        UsedStartsDistinct(L, n, i, k);
      }
    }
  }

  // ----- round trips -----

  /** Freeing the block that was just allocated restores the layout. */
  lemma ReleaseUndoesAlloc(L: seq<Block>, n: nat, need: nat)
    requires WellFormed(L, n)
    requires need >= MIN_WORDS
    requires FirstFit(L, need, 0) < |L|
    ensures Release(Alloc(L, need), FirstFit(L, need, 0)) == L
  {
    var k := FirstFit(L, need, 0);
    MergeCarved(L, n, k, need);
    SpliceBack(L, k, Carve(L[k], need));
  }

  lemma SpliceBack(L: seq<Block>, k: nat, M: seq<Block>)
    requires k < |L|
    ensures Splice(Splice(L, k, k + 1, M), k, k + |M|, [L[k]]) == L
  {
    var A := Splice(L, k, k + 1, M);
    assert A[..k] == L[..k] && A[k + |M|..] == L[k + 1..];
  }

  /** The pieces of a carved block are what a release of the first one joins. */
  lemma MergeCarved(L: seq<Block>, n: nat, k: nat, need: nat)
    requires WellFormed(L, n) && k < |L| && Fits(L[k], need) && need >= MIN_WORDS
    ensures var A, M := Splice(L, k, k + 1, Carve(L[k], need)), Carve(L[k], need);
            && |A| == |L| - 1 + |M| && A[k].used
            && MergeLo(A, k) == k && MergeHi(A, k) == k + |M| && Merged(A, k) == L[k]
  {
    if k > 0 { assert Joined(L, k - 1); }
    if k + 1 < |L| { assert Joined(L, k); }
    var A, M := Splice(L, k, k + 1, Carve(L[k], need)), Carve(L[k], need);
    assert A[k + |M| - 1].End() == L[k].End();
  }

  lemma NoLiveIsInitial(L: seq<Block>, n: nat)
    requires WellFormed(L, n)
    requires Live(L) == {}
    ensures L == Initial(n)
  {
    assert forall i :: 0 <= i < |L| && L[i].used ==> L[i] in Live(L);
    assert |L| > 1 ==> Joined(L, 0);
  }

  function IndexOf(L: seq<Block>, start: nat, i: nat): (k: nat)
    requires i <= |L|
    ensures i <= k <= |L|
    ensures k < |L| ==> L[k].used && L[k].start == start
    ensures forall j :: i <= j < k ==> !(L[j].used && L[j].start == start)
    decreases |L| - i
  {
    if i == |L| || (L[i].used && L[i].start == start) then i else IndexOf(L, start, i + 1)
  }

  /** CoKfree of the live block starting at `start`; anything else leaves the layout alone. */
  function Free(L: seq<Block>, start: nat): seq<Block> {
    var k := IndexOf(L, start, 0);
    if k == |L| then L else Release(L, k)
  }

  function FreeAll(L: seq<Block>, order: seq<nat>): seq<Block>
    decreases |order|
  {
    if order == [] then L else FreeAll(Free(L, order[0]), order[1..])
  }

  /** Freeing the live blocks, each at least once and in any order, ends in the initial heap. */
  lemma {:induction false} FreeAllInAnyOrder(L: seq<Block>, n: nat, order: seq<nat>)
    requires WellFormed(L, n)
    requires forall b :: b in Live(L) ==> b.start in order
    ensures FreeAll(L, order) == Initial(n)
    decreases |order|
  {
    if order == [] {
      assert forall b :: b !in Live(L);
      NoLiveIsInitial(L, n);
    } else {
      var k := IndexOf(L, order[0], 0);
      if k < |L| {
        ReleaseWellFormed(L, n, k);
        ReleaseLive(L, n, k);
      }
      forall b | b in Live(Free(L, order[0]))
        ensures b.start in order[1..]
      {
        assert b in Live(L);
        if b.start == order[0] {
          var i :| 0 <= i < |L| && L[i].used && L[i] == b;
          if k < |L| { UsedStartsDistinct(L, n, i, k); }
        }
      }
      FreeAllInAnyOrder(Free(L, order[0]), n, order[1..]);
    }
  }

  // ----- requests in bytes -----

  const U32_SIZE: int := 0x1_0000_0000
  type U32 = x: int | 0 <= x < 0x1_0000_0000

  /** The 32-bit size computation of CoKmalloc: round up to words and add the used header. */
  function RoundedBytes(size: U32): U32 {
    ((size + 3) % U32_SIZE / 4 * 4 + 8) % U32_SIZE
  }

  function Need(size: U32): nat { RoundedBytes(size) / 4 }

  const MAX_REQUEST: U32 := 0xFFFF_FFF4

  /** The rounded request holds the caller's bytes in whole words, and holds a free header, exactly
      up to MAX_REQUEST; beyond that the 32-bit computation wraps. */
  lemma NeedHoldsRequestIff(size: U32)
    requires size > 0
    ensures 4 * Need(size) >= size + 4 * UMB_WORDS && Need(size) >= MIN_WORDS <==> size <= MAX_REQUEST
    ensures size <= MAX_REQUEST ==> 4 * Need(size) < size + 4 * UMB_WORDS + 4
  {
    if size <= MAX_REQUEST {
      assert (size + 3) % U32_SIZE == size + 3;
    } else if size + 3 < U32_SIZE {
      assert RoundedBytes(size) <= 4;
    } else {
      assert RoundedBytes(size) == 8;
    }
  }

  lemma AllocSize(L: seq<Block>, n: nat, need: nat)
    requires WellFormed(L, n) && FirstFit(L, need, 0) < |L|
    ensures var k := FirstFit(L, need, 0); need <= Alloc(L, need)[k].words <= n
  {
    var k := FirstFit(L, need, 0);
    var M := Carve(L[k], need);
    assert Splice(L, k, k + 1, M)[k] == M[0];
    EndsInside(L, n, k);
  }

  lemma EndsInside(L: seq<Block>, n: nat, k: nat)
    requires WellFormed(L, n) && k < |L|
    ensures L[k].End() <= n
  {
    if k < |L| - 1 { BlocksOrdered(L, n, k, |L| - 1); }
  }

  lemma ServesArithmetic(words: int, n: int, size: U32, need: int)
    requires need <= words <= n && 4 * n < U32_SIZE
    requires size <= MAX_REQUEST ==> 4 * need >= size + 4 * UMB_WORDS
    ensures 4 * (words - UMB_WORDS) >= size <==> size <= MAX_REQUEST
  {
  }

  /** In a heap that fits the address space, the block a successful CoKmalloc hands out can hold the
      bytes asked for if and only if the request is at most MAX_REQUEST. */
  lemma ServedIff(L: seq<Block>, n: nat, size: U32)
    requires WellFormed(L, n) && 4 * n < U32_SIZE
    requires size > 0 && FirstFit(L, Need(size), 0) < |L|
    ensures 4 * (Alloc(L, Need(size))[FirstFit(L, Need(size), 0)].words - UMB_WORDS) >= size
            <==> size <= MAX_REQUEST
  {
    NeedHoldsRequestIff(size);
    AllocSize(L, n, Need(size));
    ServesArithmetic(Alloc(L, Need(size))[FirstFit(L, Need(size), 0)].words, n, size, Need(size));
  }

  // ----- whole runs -----

  datatype Op = Kmalloc(size: U32) | Kfree(start: nat)

  function Step(L: seq<Block>, op: Op): seq<Block> {
    match op
    case Kmalloc(size) => if size == 0 then L else Alloc(L, Need(size))
    case Kfree(start) => Free(L, start)
  }

  function Run(L: seq<Block>, ops: seq<Op>): seq<Block>
    decreases |ops|
  {
    if ops == [] then L else Run(Step(L, ops[0]), ops[1..])
  }

  /** An empty heap serves a request of 0xFFFFFFF5 bytes, which rounds to 0, with a block that is too small. */
  lemma TooLargeServed(n: nat)
    requires n >= MIN_WORDS && 4 * n < U32_SIZE
    ensures var L, size := Initial(n), MAX_REQUEST + 1;
            && FirstFit(L, Need(size), 0) == 0 < |Alloc(L, Need(size))|
            && 4 * (Alloc(L, Need(size))[0].words - UMB_WORDS) < size
  {
    var L, size: U32 := Initial(n), MAX_REQUEST + 1;
    assert Need(size) == 0 && Fits(L[0], Need(size));
    ServedIff(L, n, size);
  }

  lemma StepSafe(L: seq<Block>, n: nat, op: Op)
    requires WellFormed(L, n)
    requires op.Kmalloc? ==> op.size <= MAX_REQUEST
    ensures WellFormed(Step(L, op), n)
    ensures forall b :: b in Live(L) && op != Kfree(b.start) ==> b in Live(Step(L, op))
  {
    match op {
      case Kmalloc(size) =>
        if size > 0 {
          NeedHoldsRequestIff(size);
          AllocWellFormed(L, n, Need(size));
          AllocLive(L, n, Need(size));
        }
      case Kfree(start) =>
        var k := IndexOf(L, start, 0);
        if k < |L| {
          ReleaseWellFormed(L, n, k);
          ReleaseLive(L, n, k);
        }
    }
  }

  /** Over any run, the heap stays well formed, and a live block that the run does not free keeps
      its place and its size. */
  lemma {:induction false} RunSafe(L: seq<Block>, n: nat, ops: seq<Op>)
    requires WellFormed(L, n)
    requires forall i :: 0 <= i < |ops| && ops[i].Kmalloc? ==> ops[i].size <= MAX_REQUEST
    ensures WellFormed(Run(L, ops), n)
    ensures forall b :: b in Live(L) && Kfree(b.start) !in ops ==> b in Live(Run(L, ops))
    decreases |ops|
  {
    if ops != [] {
      StepSafe(L, n, ops[0]);
      RunSafe(Step(L, ops[0]), n, ops[1..]);
    }
  }
}
