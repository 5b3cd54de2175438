/** How the words of the kernel heap represent a layout.  A used header is (nextMB, preMB) and a free one
    is (nextFMB, nextUMB, preUMB) at the same address; a neighbour link is the neighbour's byte address,
    with bit 0 set when that neighbour is used. */
module HeapWords {
  import opened HeapLayout

  /** The link to block i as its neighbours store it. */
  ghost function Link(base: int, L: seq<Block>, i: int): int {
    if 0 <= i < |L| then base + 4 * L[i].start + (if L[i].used then 1 else 0) else 0
  }

  /** The address of the first free block at or after i, as the free list stores it. */
  ghost function FreeAddr(base: int, L: seq<Block>, i: nat): int
    requires i <= |L|
  {
    var k := NextFree(L, i);
    if k < |L| then base + 4 * L[k].start else 0
  }

  ghost predicate InRange(L: seq<Block>, n: nat) {
    forall i :: 0 <= i < |L| ==> L[i].start + 2 < n
  }

  /** The header words of block i say what its neighbours and the next free block are. */
  ghost predicate HeaderOk(w: seq<U32>, base: int, L: seq<Block>, i: nat)
    requires i < |L| && InRange(L, |w|)
  {
    var s := L[i].start;
    if L[i].used then
      w[s] == Link(base, L, i + 1) && w[s + 1] == Link(base, L, i - 1)
    else
      && w[s] == FreeAddr(base, L, i + 1)
      && w[s + 1] == Link(base, L, i + 1)
      && w[s + 2] == Link(base, L, i - 1)
  }

  ghost predicate Encodes(w: seq<U32>, base: int, L: seq<Block>)
    requires InRange(L, |w|)
  {
    forall i :: 0 <= i < |L| ==> HeaderOk(w, base, L, i)
  }

  /** The words and the free-list head represent layout L. */
  ghost predicate Represents(w: seq<U32>, base: int, fmb: int, L: seq<Block>) {
    && WellFormed(L, |w|)
    && InRange(L, |w|)
    && Encodes(w, base, L)
    && fmb == FreeAddr(base, L, 0)
  }

  // ----- the place where an operation works -----

  /** Words [f, f + size) are rewritten; p, l and r are the words of the last free block before them,
      of the block just before them and of the block just after them, or -1. */
  datatype Site = Site(f: int, size: int, p: int, l: int, r: int)
  {
    ghost predicate Ok(n: int) {
      && 0 <= f && size >= 3 && f + size <= n
      && -1 <= l && (l >= 0 ==> l + 3 <= f)
      && -1 <= p && (p >= 0 ==> l >= 0 && p + 3 <= l)
      && -1 <= r && (r >= 0 ==> r == f + size && r + 3 <= n)
    }

    /** The words that may change. */
    predicate Touches(j: int) {
      f <= j < f + size || (l >= 0 && j == l) || (r >= 0 && j == r + 1) || (p >= 0 && j == p)
    }
  }

  ghost function StartOf(L: seq<Block>, i: int): int { if 0 <= i < |L| then L[i].start else -1 }

  /** The site of blocks [lo, hi). */
  ghost function SiteOf(L: seq<Block>, lo: nat, hi: nat): Site
    requires lo < hi <= |L|
  {
    Site(L[lo].start, L[hi - 1].End() - L[lo].start, StartOf(L, PrevFree(L, lo)), StartOf(L, lo - 1), StartOf(L, hi))
  }

  /** Blocks [lo, hi) stand between used blocks or the ends of the heap. */
  ghost predicate Walled(L: seq<Block>, lo: nat, hi: nat) {
    lo < hi <= |L| && (lo > 0 ==> L[lo - 1].used) && (hi < |L| ==> L[hi].used)
  }

  lemma InRangeLemma(L: seq<Block>, n: nat)
    requires WellFormed(L, n)
    ensures InRange(L, n)
  {
    Disjoint(L, n);
  }

  lemma SiteOfOk(L: seq<Block>, n: nat, lo: nat, hi: nat)
    requires WellFormed(L, n) && Walled(L, lo, hi)
    ensures SiteOf(L, lo, hi).Ok(n)
  {
    Disjoint(L, n);
    if hi < |L| { assert Joined(L, hi - 1); }
  }

  lemma SiteAvoids(L: seq<Block>, n: nat, lo: nat, hi: nat, i: nat)
    requires WellFormed(L, n) && Walled(L, lo, hi)
    requires i < |L| && !(lo <= i < hi)
    ensures var s := SiteOf(L, lo, hi); var b := L[i];
            && (b.used ==> forall j :: b.start + UMB_WORDS <= j < b.End() ==> !s.Touches(j))
            && (i + 1 != lo && i != PrevFree(L, lo) ==> !s.Touches(b.start))
            && (i != hi ==> !s.Touches(b.start + 1))
            && !s.Touches(b.start + 2)
  {
    Disjoint(L, n);
  }

  // ----- replacing blocks -----

  /** w' is w after blocks [lo, hi) were replaced by M: the headers of M are in place, the three links
      that name what was replaced are renewed, and no other word was written. */
  ghost predicate Replaced(w: seq<U32>, w': seq<U32>, base: int, L: seq<Block>, lo: nat, hi: nat, M: seq<Block>)
  {
    && WellFormed(L, |w|) && |w'| == |w| && InRange(L, |w|) && Encodes(w, base, L)
    && Walled(L, lo, hi) && |M| > 0
    && var S, s := Splice(L, lo, hi, M), SiteOf(L, lo, hi);
    && s.Ok(|w|) && WellFormed(S, |w|) && InRange(S, |w|)
    && (forall j :: 0 <= j < |w| && !s.Touches(j) ==> w'[j] == w[j])
    && (s.l >= 0 ==> w'[s.l] == Link(base, S, lo))
    && (s.r >= 0 ==> w'[s.r + 1] == Link(base, S, lo + |M| - 1))
    && (s.p >= 0 ==> w'[s.p] == FreeAddr(base, S, lo))
    && M[0].start == s.f
    && (forall i :: lo <= i < lo + |M| ==> HeaderOk(w', base, S, i))
  }

  lemma FreeAddrBefore(base: int, L: seq<Block>, lo: nat, hi: nat, M: seq<Block>, i: nat)
    requires lo < hi <= |L| && i < lo && !L[i].used
    ensures var S := Splice(L, lo, hi, M);
            FreeAddr(base, S, i + 1) == if i == PrevFree(L, lo) then FreeAddr(base, S, lo) else FreeAddr(base, L, i + 1)
  {
    var S := Splice(L, lo, hi, M);
    var p := PrevFree(L, lo);
    var k, k' := NextFree(S, i + 1), NextFree(S, lo);
    if i != p {
      assert i < p && !S[p].used;
      var m := NextFree(L, i + 1);
      assert m <= p;
      assert S[m] == L[m];
      assert forall j :: i + 1 <= j < m ==> S[j] == L[j];
    } else {
      assert forall j :: i + 1 <= j < lo ==> S[j] == L[j] && L[j].used;
    }
  }

  lemma FreeAddrAfter(base: int, L: seq<Block>, lo: nat, hi: nat, M: seq<Block>, i: nat)
    requires lo < hi <= i <= |L|
    ensures FreeAddr(base, Splice(L, lo, hi, M), i - (hi - lo) + |M|) == FreeAddr(base, L, i)
  {
    var S := Splice(L, lo, hi, M);
    var d := |M| - (hi - lo);
    var k := NextFree(L, i);
    var k' := NextFree(S, i + d);
    assert k < |L| ==> S[k + d] == L[k];
    assert k' < |S| ==> S[k'] == L[k' - d];
  }

  /** Where the free list starts after the replacement. */
  lemma FreeAddrHead(base: int, L: seq<Block>, lo: nat, hi: nat, M: seq<Block>)
    requires lo < hi <= |L|
    ensures var S := Splice(L, lo, hi, M);
            FreeAddr(base, S, 0) == if PrevFree(L, lo) < 0 then FreeAddr(base, S, lo) else FreeAddr(base, L, 0)
  {
    var S := Splice(L, lo, hi, M);
    var p := PrevFree(L, lo);
    var k, m, m' := NextFree(L, 0), NextFree(S, 0), NextFree(S, lo);
    if p >= 0 {
      assert k <= p;
      assert S[k] == L[k];
      assert m < lo ==> S[m] == L[m];
      assert forall j :: 0 <= j < k ==> S[j] == L[j];
      assert m == k;
    } else {
      assert forall j :: 0 <= j < lo ==> S[j] == L[j] && L[j].used;
    }
  }

  lemma HeaderBefore(w: seq<U32>, w': seq<U32>, base: int, L: seq<Block>, lo: nat, hi: nat, M: seq<Block>, i: nat)
    requires Replaced(w, w', base, L, lo, hi, M)
    requires i < lo
    ensures HeaderOk(w', base, Splice(L, lo, hi, M), i)
  {
    var S := Splice(L, lo, hi, M);
    assert S[i] == L[i] && (i + 1 < lo ==> S[i + 1] == L[i + 1]) && (i > 0 ==> S[i - 1] == L[i - 1]);
    SiteAvoids(L, |w|, lo, hi, i);
    assert HeaderOk(w, base, L, i);
    if !L[i].used { FreeAddrBefore(base, L, lo, hi, M, i); }
  }

  lemma HeaderAfter(w: seq<U32>, w': seq<U32>, base: int, L: seq<Block>, lo: nat, hi: nat, M: seq<Block>, i: nat)
    requires Replaced(w, w', base, L, lo, hi, M)
    requires hi <= i < |L|
    ensures HeaderOk(w', base, Splice(L, lo, hi, M), i - (hi - lo) + |M|)
  {
    var S := Splice(L, lo, hi, M);
    var d := |M| - (hi - lo);
    assert S[i + d] == L[i];
    LinkAfter(base, L, lo, hi, M, i + 1);
    if i > hi { LinkAfter(base, L, lo, hi, M, i - 1); }
    SiteAvoids(L, |w|, lo, hi, i);
    assert HeaderOk(w, base, L, i);
    if !L[i].used { FreeAddrAfter(base, L, lo, hi, M, i + 1); }
  }

  lemma LinkAfter(base: int, L: seq<Block>, lo: nat, hi: nat, M: seq<Block>, i: nat)
    requires lo <= hi <= |L| && hi <= i
    ensures Link(base, Splice(L, lo, hi, M), i - (hi - lo) + |M|) == Link(base, L, i)
  {
  }

  ghost predicate PayloadSame(w: seq<U32>, w': seq<U32>, b: Block)
    requires |w| == |w'|
  {
    forall j :: b.start + UMB_WORDS <= j < b.End() && j < |w| ==> w'[j] == w[j]
  }

  /** Every live payload outside blocks [lo, hi) is as it was. */
  ghost predicate OthersKept(w: seq<U32>, w': seq<U32>, L: seq<Block>, lo: nat, hi: nat) {
    |w'| == |w| && forall i :: 0 <= i < |L| && L[i].used && !(lo <= i < hi) ==> PayloadSame(w, w', L[i])
  }

  lemma ReplacedKeeps(w: seq<U32>, w': seq<U32>, base: int, L: seq<Block>, lo: nat, hi: nat, M: seq<Block>)
    requires Replaced(w, w', base, L, lo, hi, M)
    ensures OthersKept(w, w', L, lo, hi)
  {
    forall i | 0 <= i < |L| && L[i].used && !(lo <= i < hi)
      ensures PayloadSame(w, w', L[i])
    {
      SiteAvoids(L, |w|, lo, hi, i);
    }
  }

  lemma ReplacedEncodes(w: seq<U32>, w': seq<U32>, base: int, L: seq<Block>, lo: nat, hi: nat, M: seq<Block>)
    requires Replaced(w, w', base, L, lo, hi, M)
    ensures Encodes(w', base, Splice(L, lo, hi, M))
  {
    var S := Splice(L, lo, hi, M);
    forall i | 0 <= i < |S|
      ensures HeaderOk(w', base, S, i)
    {
      if i < lo {
        HeaderBefore(w, w', base, L, lo, hi, M, i);
      } else if i >= lo + |M| {
        HeaderAfter(w, w', base, L, lo, hi, M, i - |M| + (hi - lo));
      }
    }
  }

  /** Such words represent the new layout, and no other live payload has changed. */
  lemma ReplacedRepresents(w: seq<U32>, w': seq<U32>, base: int, fmb: int, fmb': int, L: seq<Block>, lo: nat, hi: nat,
                           M: seq<Block>)
    requires Replaced(w, w', base, L, lo, hi, M)
    requires fmb == FreeAddr(base, L, 0)
    requires fmb' == if PrevFree(L, lo) < 0 then FreeAddr(base, Splice(L, lo, hi, M), lo) else fmb
    ensures Represents(w', base, fmb', Splice(L, lo, hi, M))
    ensures OthersKept(w, w', L, lo, hi)
  {
    ReplacedEncodes(w, w', base, L, lo, hi, M);
    ReplacedKeeps(w, w', base, L, lo, hi, M);
    FreeAddrHead(base, L, lo, hi, M);
  }

  // ----- reading the words of a free block -----

  /** The tagged link to the used block at word i. */
  function Tagged(base: int, i: int): int { if i >= 0 then base + 4 * i + 1 else 0 }

  lemma Parity(m: int)
    ensures (2 * m) % 2 == 0 && (2 * m + 1) % 2 == 1
  {
  }

  /** Bit 0 of a link tells a used neighbour from a free one. */
  lemma LinkParity(base: int, i: int)
    requires base % 4 == 0
    ensures (base + 4 * i) % 2 == 0 && (base + 4 * i + 1) % 2 == 1
  {
    var q := base / 4;
    assert base + 4 * i == 2 * (2 * q + 2 * i);
    Parity(2 * q + 2 * i);
  }

  lemma FreeLinks(w: seq<U32>, base: int, fmb: int, L: seq<Block>, k: nat)
    requires Represents(w, base, fmb, L) && k < |L| && !L[k].used
    ensures Walled(L, k, k + 1)
    ensures var s := SiteOf(L, k, k + 1);
            && s.Ok(|w|) && s.size == L[k].words
            && w[s.f] == FreeAddr(base, L, k + 1)
            && w[s.f + 1] == Tagged(base, s.r)
            && w[s.f + 2] == Tagged(base, s.l)
            && (s.r < 0 ==> s.f + s.size == |w|)
  {
    if k > 0 { assert Joined(L, k - 1); }
    if k + 1 < |L| { assert Joined(L, k); }
    SiteOfOk(L, |w|, k, k + 1);
    assert HeaderOk(w, base, L, k);
  }

  // ----- handing out a free block -----

  /** The words after `need` words at site s were handed out. */
  ghost predicate CarvedWords(w: seq<U32>, w': seq<U32>, base: int, s: Site, need: int)
    requires s.Ok(|w|) && |w'| == |w| && 3 <= need <= s.size
  {
    var whole, a, a' := s.size - need < 3, base + 4 * s.f, base + 4 * (s.f + need);
    && (forall j :: 0 <= j < |w| && !s.Touches(j) ==> w'[j] == w[j])
    && w'[s.f] == (if whole then w[s.f + 1] else a')
    && w'[s.f + 1] == w[s.f + 2]
    && (!whole ==> w'[s.f + need] == w[s.f] && w'[s.f + need + 1] == w[s.f + 1] && w'[s.f + need + 2] == a + 1)
    && (s.l >= 0 ==> w'[s.l] == a + 1)
    && (s.r >= 0 ==> w'[s.r + 1] == if whole then a + 1 else a')
    && (s.p >= 0 ==> w'[s.p] == if whole then w[s.f] else a')
  }

  lemma CarveInRange(L: seq<Block>, n: nat, k: nat, need: nat)
    requires WellFormed(L, n) && k < |L| && Fits(L[k], need) && need >= MIN_WORDS
    ensures var S := Splice(L, k, k + 1, Carve(L[k], need));
            WellFormed(S, n) && InRange(S, n)
  {
    CarveWellFormed(L, n, k, need);
    InRangeLemma(Splice(L, k, k + 1, Carve(L[k], need)), n);
  }

  lemma CarvedWholeHeader(w: seq<U32>, w': seq<U32>, base: int, fmb: int, L: seq<Block>, k: nat, need: nat)
    requires Represents(w, base, fmb, L)
    requires k < |L| && Fits(L[k], need) && need >= MIN_WORDS && L[k].words - need < MIN_WORDS
    requires |w'| == |w| && SiteOf(L, k, k + 1).Ok(|w|) && CarvedWords(w, w', base, SiteOf(L, k, k + 1), need)
    requires InRange(Splice(L, k, k + 1, Carve(L[k], need)), |w|)
    ensures var S := Splice(L, k, k + 1, Carve(L[k], need));
            HeaderOk(w', base, S, k) && FreeAddr(base, S, k) == w[L[k].start]
  {
    var M := Carve(L[k], need);
    var S := Splice(L, k, k + 1, M);
    FreeLinks(w, base, fmb, L, k);
    FreeAddrAfter(base, L, k, k + 1, M, k + 1);
    assert S[k] == M[0];
    assert NextFree(S, k) == NextFree(S, k + 1);
    assert k > 0 ==> S[k - 1] == L[k - 1];
    assert k + 1 < |L| ==> S[k + 1] == L[k + 1];
  }

  lemma CarvedSplitHeaders(w: seq<U32>, w': seq<U32>, base: int, fmb: int, L: seq<Block>, k: nat, need: nat)
    requires Represents(w, base, fmb, L)
    requires k < |L| && Fits(L[k], need) && need >= MIN_WORDS && L[k].words - need >= MIN_WORDS
    requires |w'| == |w| && SiteOf(L, k, k + 1).Ok(|w|) && CarvedWords(w, w', base, SiteOf(L, k, k + 1), need)
    requires InRange(Splice(L, k, k + 1, Carve(L[k], need)), |w|)
    ensures var S := Splice(L, k, k + 1, Carve(L[k], need));
            && HeaderOk(w', base, S, k) && HeaderOk(w', base, S, k + 1)
            && FreeAddr(base, S, k) == base + 4 * (L[k].start + need)
  {
    var M := Carve(L[k], need);
    var S := Splice(L, k, k + 1, M);
    FreeLinks(w, base, fmb, L, k);
    FreeAddrAfter(base, L, k, k + 1, M, k + 1);
    assert S[k] == M[0] && S[k + 1] == M[1];
    assert NextFree(S, k) == k + 1;
    assert k > 0 ==> S[k - 1] == L[k - 1];
    assert k + 1 < |L| ==> S[k + 2] == L[k + 1];
  }

  lemma CarvedReplaced(w: seq<U32>, w': seq<U32>, base: int, fmb: int, L: seq<Block>, k: nat, need: nat)
    requires Represents(w, base, fmb, L)
    requires k < |L| && Fits(L[k], need) && need >= MIN_WORDS
    requires |w'| == |w| && SiteOf(L, k, k + 1).Ok(|w|) && CarvedWords(w, w', base, SiteOf(L, k, k + 1), need)
    ensures Replaced(w, w', base, L, k, k + 1, Carve(L[k], need))
    ensures FreeAddr(base, Splice(L, k, k + 1, Carve(L[k], need)), k)
            == if L[k].words - need < MIN_WORDS then w[L[k].start] else base + 4 * (L[k].start + need)
  {
    CarveInRange(L, |w|, k, need);
    if L[k].words - need < MIN_WORDS {
      CarvedWhole(w, w', base, fmb, L, k, need);
    } else {
      CarvedSplit(w, w', base, fmb, L, k, need);
    }
  }

  lemma CarvedWhole(w: seq<U32>, w': seq<U32>, base: int, fmb: int, L: seq<Block>, k: nat, need: nat)
    requires Represents(w, base, fmb, L)
    requires k < |L| && Fits(L[k], need) && need >= MIN_WORDS && L[k].words - need < MIN_WORDS
    requires |w'| == |w| && SiteOf(L, k, k + 1).Ok(|w|) && CarvedWords(w, w', base, SiteOf(L, k, k + 1), need)
    requires var S := Splice(L, k, k + 1, Carve(L[k], need)); WellFormed(S, |w|) && InRange(S, |w|)
    ensures Replaced(w, w', base, L, k, k + 1, Carve(L[k], need))
    ensures FreeAddr(base, Splice(L, k, k + 1, Carve(L[k], need)), k) == w[L[k].start]
  {
    FreeLinks(w, base, fmb, L, k);
    CarvedWholeHeader(w, w', base, fmb, L, k, need);
  }

  lemma CarvedSplit(w: seq<U32>, w': seq<U32>, base: int, fmb: int, L: seq<Block>, k: nat, need: nat)
    requires Represents(w, base, fmb, L)
    requires k < |L| && Fits(L[k], need) && need >= MIN_WORDS && L[k].words - need >= MIN_WORDS
    requires |w'| == |w| && SiteOf(L, k, k + 1).Ok(|w|) && CarvedWords(w, w', base, SiteOf(L, k, k + 1), need)
    requires var S := Splice(L, k, k + 1, Carve(L[k], need)); WellFormed(S, |w|) && InRange(S, |w|)
    ensures Replaced(w, w', base, L, k, k + 1, Carve(L[k], need))
    ensures FreeAddr(base, Splice(L, k, k + 1, Carve(L[k], need)), k) == base + 4 * (L[k].start + need)
  {
    var M := Carve(L[k], need);
    var S := Splice(L, k, k + 1, M);
    FreeLinks(w, base, fmb, L, k);
    assert S[k] == M[0] && S[k + 1] == M[1];
    CarvedSplitHeaders(w, w', base, fmb, L, k, need);
  }

  lemma CarvedRepresents(w: seq<U32>, w': seq<U32>, base: int, fmb: int, fmb': int, L: seq<Block>, k: nat, need: nat)
    requires Represents(w, base, fmb, L)
    requires k < |L| && Fits(L[k], need) && need >= MIN_WORDS
    requires |w'| == |w| && SiteOf(L, k, k + 1).Ok(|w|) && CarvedWords(w, w', base, SiteOf(L, k, k + 1), need)
    requires var s := SiteOf(L, k, k + 1);
             fmb' == if s.p >= 0 then fmb else if s.size - need < 3 then w[s.f] else base + 4 * (s.f + need)
    ensures Represents(w', base, fmb', Splice(L, k, k + 1, Carve(L[k], need)))
    ensures OthersKept(w, w', L, k, k + 1)
  {
    CarvedReplaced(w, w', base, fmb, L, k, need);
    ReplacedRepresents(w, w', base, fmb, fmb', L, k, k + 1, Carve(L[k], need));
  }

  // ----- taking a used block back -----

  /** What the words say around the used block at word u: site s is the block with its free neighbours,
      x the word of the free block after it or -1, nf the free block that follows the site in the list. */
  ghost predicate FreeingSite(w: seq<U32>, base: int, fmb: int, s: Site, u: int, x: int, nf: int) {
    && s.Ok(|w|) && (u == s.f || u >= s.f + 3)
    && (x == -1 || x >= u + 3) && (if x >= 0 then x else u) + 3 <= s.f + s.size
    && w[u] == (if x >= 0 then base + 4 * x else Tagged(base, s.r))
    && w[u + 1] == (if u > s.f then base + 4 * s.f else Tagged(base, s.l))
    && (x >= 0 ==> w[x] == nf && w[x + 1] == Tagged(base, s.r))
    && (u > s.f ==> w[s.f] == (if x >= 0 then base + 4 * x else nf) && w[s.f + 2] == Tagged(base, s.l))
    && (if s.p >= 0 then w[s.p] else fmb) == (if u > s.f then base + 4 * s.f else if x >= 0 then base + 4 * x else nf)
    && (s.r < 0 ==> nf == 0)
  }

  /** The header of the freed block and the free-list link to it are in place. */
  ghost predicate FreedHeader(w: seq<U32>, w': seq<U32>, base: int, s: Site, nf: int)
    requires s.Ok(|w|) && |w'| == |w|
  {
    && (forall j :: 0 <= j < |w| && !(s.f <= j < s.f + s.size) && j != s.p ==> w'[j] == w[j])
    && w'[s.f] == nf && w'[s.f + 1] == Tagged(base, s.r) && w'[s.f + 2] == Tagged(base, s.l)
    && (s.p >= 0 ==> w'[s.p] == base + 4 * s.f)
  }

  /** ... and so are the links of its neighbours. */
  ghost predicate FreedWords(w: seq<U32>, w': seq<U32>, base: int, s: Site, nf: int)
    requires s.Ok(|w|) && |w'| == |w|
  {
    && (forall j :: 0 <= j < |w| && !s.Touches(j) ==> w'[j] == w[j])
    && w'[s.f] == nf && w'[s.f + 1] == Tagged(base, s.r) && w'[s.f + 2] == Tagged(base, s.l)
    && (s.l >= 0 ==> w'[s.l] == base + 4 * s.f)
    && (s.r >= 0 ==> w'[s.r + 1] == base + 4 * s.f)
    && (s.p >= 0 ==> w'[s.p] == base + 4 * s.f)
  }

  lemma MergeWalled(L: seq<Block>, n: nat, k: nat)
    requires WellFormed(L, n) && k < |L| && L[k].used
    ensures Walled(L, MergeLo(L, k), MergeHi(L, k))
    ensures SiteOf(L, MergeLo(L, k), MergeHi(L, k)).Ok(n)
    ensures Merged(L, k) == Block(SiteOf(L, MergeLo(L, k), MergeHi(L, k)).f,
                                 SiteOf(L, MergeLo(L, k), MergeHi(L, k)).size, false)
  {
    MergeBounds(L, n, k);
    SiteOfOk(L, n, MergeLo(L, k), MergeHi(L, k));
  }

  /** The list word that comes before position i names the first free block from i on. */
  lemma ListLink(w: seq<U32>, base: int, fmb: int, L: seq<Block>, i: nat)
    requires Represents(w, base, fmb, L) && i <= |L|
    ensures var p := PrevFree(L, i);
            p < |L| && (if p >= 0 then w[L[p].start] else fmb) == FreeAddr(base, L, i)
  {
    var p := PrevFree(L, i);
    if p >= 0 {
      assert HeaderOk(w, base, L, p);
      assert NextFree(L, p + 1) == NextFree(L, i);
    } else {
      assert NextFree(L, 0) == NextFree(L, i);
    }
  }

  /** The links of a used block, and of its free neighbours, in terms of words. */
  lemma UsedNeighbours(w: seq<U32>, base: int, fmb: int, L: seq<Block>, k: nat)
    requires Represents(w, base, fmb, L) && k < |L| && L[k].used
    ensures var lo, hi := MergeLo(L, k), MergeHi(L, k);
            lo < hi <= |L| &&
            var s, u := SiteOf(L, lo, hi), L[k].start;
            && (hi == k + 2 ==>
                  w[L[k + 1].start] == FreeAddr(base, L, hi) && w[L[k + 1].start + 1] == Tagged(base, s.r))
            && (lo < k ==> w[s.f] == FreeAddr(base, L, k) && w[s.f + 2] == Tagged(base, s.l))
            && w[u] == (if hi == k + 2 then base + 4 * L[k + 1].start else Tagged(base, s.r))
            && w[u + 1] == (if lo < k then base + 4 * s.f else Tagged(base, s.l))
  {
    MergeBounds(L, |w|, k);
    if k > 0 { assert HeaderOk(w, base, L, k - 1); }
    if k + 1 < |L| { assert HeaderOk(w, base, L, k + 1); }
    assert HeaderOk(w, base, L, k);
  }

  lemma NextFreeOfUsed(base: int, L: seq<Block>, n: nat, k: nat)
    requires WellFormed(L, n) && k < |L| && L[k].used
    ensures var lo, hi := MergeLo(L, k), MergeHi(L, k);
            && lo < hi <= |L|
            && FreeAddr(base, L, k) == (if hi == k + 2 then base + 4 * L[k + 1].start else FreeAddr(base, L, hi))
            && FreeAddr(base, L, lo) == (if lo < k then base + 4 * L[lo].start else FreeAddr(base, L, k))
            && (hi == |L| ==> FreeAddr(base, L, hi) == 0)
  {
    MergeBounds(L, n, k);
    assert NextFree(L, k) == NextFree(L, k + 1);
  }

  lemma UsedLinks(w: seq<U32>, base: int, fmb: int, L: seq<Block>, k: nat)
    requires Represents(w, base, fmb, L) && k < |L| && L[k].used
    ensures var lo, hi := MergeLo(L, k), MergeHi(L, k);
            lo < hi <= |L| &&
            FreeingSite(w, base, fmb, SiteOf(L, lo, hi), L[k].start, if hi == k + 2 then L[k + 1].start else -1,
                        FreeAddr(base, L, hi))
  {
    UsedSite(L, |w|, k);
    UsedNeighbours(w, base, fmb, L, k);
    NextFreeOfUsed(base, L, |w|, k);
    ListLink(w, base, fmb, L, MergeLo(L, k));
  }

  /** Where used block k and its free neighbours are. */
  lemma UsedSite(L: seq<Block>, n: nat, k: nat)
    requires WellFormed(L, n) && InRange(L, n) && k < |L| && L[k].used
    ensures var lo, hi := MergeLo(L, k), MergeHi(L, k);
            lo < hi <= |L| &&
            var s, u := SiteOf(L, lo, hi), L[k].start;
            && s.Ok(n) && (if lo < k then u >= s.f + 3 else u == s.f)
            && (if hi == k + 2 then u + 3 <= L[k + 1].start <= s.f + s.size - 3 else u + 3 <= s.f + s.size)
            && (s.r < 0 ==> hi == |L|)
  {
    MergeWalled(L, n, k);
    if k > 0 { assert Joined(L, k - 1); }
    if k + 1 < |L| { assert Joined(L, k); }
  }

  lemma FreedBlockHeader(w': seq<U32>, base: int, L: seq<Block>, k: nat)
    requires k < |L| && Walled(L, MergeLo(L, k), MergeHi(L, k)) && InRange(Release(L, k), |w'|)
    requires var lo, hi := MergeLo(L, k), MergeHi(L, k); var s := SiteOf(L, lo, hi);
             && s.Ok(|w'|) && Merged(L, k).start == s.f
             && w'[s.f] == FreeAddr(base, L, hi) && w'[s.f + 1] == Tagged(base, s.r) && w'[s.f + 2] == Tagged(base, s.l)
    ensures HeaderOk(w', base, Release(L, k), MergeLo(L, k))
    ensures Link(base, Release(L, k), MergeLo(L, k)) == base + 4 * L[MergeLo(L, k)].start
    ensures FreeAddr(base, Release(L, k), MergeLo(L, k)) == base + 4 * L[MergeLo(L, k)].start
  {
    var lo, hi := MergeLo(L, k), MergeHi(L, k);
    var S := Release(L, k);
    assert S[lo] == Merged(L, k);
    assert lo > 0 ==> S[lo - 1] == L[lo - 1];
    assert hi < |L| ==> S[lo + 1] == L[hi];
    FreeAddrAfter(base, L, lo, hi, [Merged(L, k)], hi);
    assert NextFree(S, lo) == lo;
  }

  lemma FreedReplaced(w: seq<U32>, w': seq<U32>, base: int, fmb: int, L: seq<Block>, k: nat)
    requires Represents(w, base, fmb, L) && k < |L| && L[k].used
    requires |w'| == |w|
    requires var lo, hi := MergeLo(L, k), MergeHi(L, k);
             lo < hi <= |L| && SiteOf(L, lo, hi).Ok(|w|)
                && FreedWords(w, w', base, SiteOf(L, lo, hi), FreeAddr(base, L, hi))
    ensures Replaced(w, w', base, L, MergeLo(L, k), MergeHi(L, k), [Merged(L, k)])
    ensures FreeAddr(base, Release(L, k), MergeLo(L, k)) == base + 4 * L[MergeLo(L, k)].start
  {
    MergeWalled(L, |w|, k);
    ReleaseWellFormed(L, |w|, k);
    InRangeLemma(Release(L, k), |w|);
    FreedBlockHeader(w', base, L, k);
  }

  lemma FreedRepresents(w: seq<U32>, w': seq<U32>, base: int, fmb: int, fmb': int, L: seq<Block>, k: nat)
    requires Represents(w, base, fmb, L) && k < |L| && L[k].used
    requires |w'| == |w|
    requires var lo, hi := MergeLo(L, k), MergeHi(L, k);
             && lo < hi <= |L| && SiteOf(L, lo, hi).Ok(|w|)
             && FreedWords(w, w', base, SiteOf(L, lo, hi), FreeAddr(base, L, hi))
             && fmb' == if PrevFree(L, lo) >= 0 then fmb else base + 4 * L[lo].start
    ensures Represents(w', base, fmb', Release(L, k))
    ensures OthersKept(w, w', L, k, k + 1)
  {
    var lo, hi := MergeLo(L, k), MergeHi(L, k);
    FreedReplaced(w, w', base, fmb, L, k);
    ReplacedRepresents(w, w', base, fmb, fmb', L, lo, hi, [Merged(L, k)]);
    MergeBounds(L, |w|, k);
  }
}
