/** The kernel heap allocator: first fit inside one array of 32-bit words. */
module KernelHeap {
  import opened HeapLayout
  import opened HeapWords

  const NULL: U32 := 0

  class Heap {
    const words: array<U32>
    const startAddr: U32
    const endAddr: U32
    var FMBlist: U32
    ghost var blocks: seq<Block>

    ghost predicate Placed() {
      startAddr > 0 && startAddr % 4 == 0 && endAddr == startAddr + 4 * words.Length
    }

    ghost predicate Valid()
      reads this, words
    {
      Placed() && Represents(words[..], startAddr, FMBlist, blocks)
    }

    /** The word index of a byte address. */
    function W(p: U32): int { (p - startAddr) / 4 }

    /** memBuf is what CoKmalloc returned for block k, and the block is still allocated. */
    ghost predicate LiveAt(k: nat, memBuf: U32)
      reads this
    {
      k < |blocks| && blocks[k].used && memBuf == startAddr + 4 * blocks[k].start + 8
    }

    constructor CoCreateKheap(n: nat, addr: U32)
      requires n >= MIN_WORDS
      requires addr > 0 && addr % 4 == 0 && addr + 4 * n < U32_SIZE
      ensures Valid() && fresh(words)
      ensures blocks == Initial(n) && words.Length == n && startAddr == addr
    {
      words := new U32[n](_ => 0);
      startAddr := addr;
      endAddr := addr + 4 * n;
      FMBlist := addr;
      blocks := Initial(n);
      new;
      words[W(FMBlist)] := NULL;
      words[W(FMBlist) + 1] := NULL;
      words[W(FMBlist) + 2] := NULL;
      assert HeaderOk(words[..], startAddr, blocks, 0);
    }

    // ----- CoKmalloc -----

    /** The address of the free block whose list link the site renews, NULL when that is the list head. */
    ghost function PreFMB(s: Site): int { if s.p >= 0 then startAddr + 4 * s.p else 0 }

    /** The links in the header of the free block at site s. */
    ghost predicate LinksAt(s: Site)
      reads words
    {
      && s.Ok(words.Length)
      && words[s.f + 1] == Tagged(startAddr, s.r)
      && words[s.f + 2] == Tagged(startAddr, s.l)
    }

    /** Sets the backward link of the used block at word r, when there is one. */
    method SetPreMB(nextUMB: U32, to: U32, ghost r: int)
      requires startAddr > 0 && nextUMB == Tagged(startAddr, r) && r + 1 < words.Length
      modifies words
      ensures forall j :: 0 <= j < words.Length ==> words[j] == if r >= 0 && j == r + 1 then to else old(words[j])
    {
      if nextUMB != NULL {
        var tmpUMB := nextUMB - 1;
        words[W(tmpUMB) + 1] := to;
      }
    }

    /** Sets the forward link of the used block at word l, when there is one. */
    method SetNextMB(preUMB: U32, to: U32, ghost l: int)
      requires startAddr > 0 && preUMB == Tagged(startAddr, l) && l < words.Length
      modifies words
      ensures forall j :: 0 <= j < words.Length ==> words[j] == if l >= 0 && j == l then to else old(words[j])
    {
      if preUMB != NULL {
        var tmpUMB := preUMB - 1;
        words[W(tmpUMB)] := to;
      }
    }

    /** Sets the link to a free block: that of free block p, or the list head when p is not given. */
    method SetLink(preFMB: U32, to: U32, ghost p: int)
      requires startAddr > 0 && preFMB == (if p >= 0 then startAddr + 4 * p else NULL) && p < words.Length
      modifies this`FMBlist, words
      ensures forall j :: 0 <= j < words.Length ==> words[j] == if p >= 0 && j == p then to else old(words[j])
      ensures FMBlist == if p >= 0 then old(FMBlist) else to
    {
      if preFMB != NULL {
        words[W(preFMB)] := to;
      } else {
        FMBlist := to;
      }
    }

    /** Writes a used header. */
    method SetUMB(n: nat, nextMB: U32, preMB: U32)
      requires n + 1 < words.Length
      modifies words
      ensures words[n] == nextMB && words[n + 1] == preMB
      ensures forall j :: 0 <= j < words.Length && !(n <= j < n + 2) ==> words[j] == old(words[j])
    {
      words[n] := nextMB;
      words[n + 1] := preMB;
    }

    /** Writes a free header. */
    method SetFMB(n: nat, nextFMB: U32, nextUMB: U32, preUMB: U32)
      requires n + 2 < words.Length
      modifies words
      ensures words[n] == nextFMB && words[n + 1] == nextUMB && words[n + 2] == preUMB
      ensures forall j :: 0 <= j < words.Length && !(n <= j < n + 3) ==> words[j] == old(words[j])
    {
      words[n + 2] := preUMB;
      words[n + 1] := nextUMB;
      words[n] := nextFMB;
    }

    /** The rest would be too small for a header: the whole block is handed out. */
    method TakeWhole(freeMB: U32, preFMB: U32, ghost s: Site, ghost need: int)
      requires Placed() && LinksAt(s)
      requires freeMB == startAddr + 4 * s.f && preFMB == PreFMB(s)
      requires 3 <= need <= s.size < need + 3
      modifies this`FMBlist, words
      ensures CarvedWords(old(words[..]), words[..], startAddr, s, need)
      ensures FMBlist == if s.p >= 0 then old(FMBlist) else old(words[s.f])
    {
      var f, usedMB := W(freeMB), freeMB;
      SetLink(preFMB, words[f], s.p);
      SetPreMB(words[f + 1], usedMB + 1, s.r);
      SetUMB(f, words[f + 1], words[f + 2]);
      SetNextMB(words[f + 2], usedMB + 1, s.l);
    }

    /** The first `bytes` bytes are handed out and the rest becomes a free block of its own. */
    method Split(freeMB: U32, preFMB: U32, bytes: U32, ghost s: Site, ghost need: int)
      requires Placed() && LinksAt(s)
      requires freeMB == startAddr + 4 * s.f && preFMB == PreFMB(s)
      requires bytes == 4 * need && 3 <= need && need + 3 <= s.size
      modifies this`FMBlist, words
      ensures CarvedWords(old(words[..]), words[..], startAddr, s, need)
      ensures FMBlist == if s.p >= 0 then old(FMBlist) else freeMB + bytes
    {
      var f, usedMB, newFMB := W(freeMB), freeMB, freeMB + bytes;
      var n := W(newFMB);
      SetLink(preFMB, newFMB, s.p);
      SetFMB(n, words[f], words[f + 1], usedMB + 1);
      SetPreMB(words[f + 1], newFMB, s.r);
      SetUMB(f, newFMB, words[f + 2]);
      SetNextMB(words[f + 2], usedMB + 1, s.l);
    }

    /** Carves `bytes` bytes out of free block k. */
    method AssignBlock(freeMB: U32, preFMB: U32, freeSize: U32, bytes: U32, ghost k: nat) returns (memAddr: U32)
      requires Valid()
      requires k < |blocks| && !blocks[k].used && freeMB == startAddr + 4 * blocks[k].start
      requires preFMB == PreFMB(SiteOf(blocks, k, k + 1))
      requires bytes % 4 == 0 && 4 * MIN_WORDS <= bytes <= freeSize == 4 * blocks[k].words
      modifies this`FMBlist, this`blocks, words
      ensures Valid()
      ensures blocks == Splice(old(blocks), k, k + 1, Carve(old(blocks)[k], bytes / 4))
      ensures memAddr == freeMB + 8
      ensures OthersKept(old(words[..]), words[..], old(blocks), k, k + 1)
    {
      ghost var L, w, need := blocks, words[..], bytes / 4;
      ghost var s := SiteOf(L, k, k + 1);
      FreeLinks(w, startAddr, FMBlist, L, k);
      memAddr := freeMB + 8;
      if freeSize - bytes < 12 {
        TakeWhole(freeMB, preFMB, s, need);
      } else {
        Split(freeMB, preFMB, bytes, s, need);
      }
      CarvedRepresents(w, words[..], startAddr, old(FMBlist), FMBlist, L, k, need);
      blocks := Splice(L, k, k + 1, Carve(L[k], need));
    }

    /** The walk of CoKmalloc along the free list. */
    method FindFit(bytes: U32, ghost need: nat) returns (freeMB: U32, preFMB: U32, freeSize: U32, ghost k: nat)
      requires Valid()
      requires bytes == 4 * need
      ensures k == FirstFit(blocks, need, 0)
      ensures freeMB == NULL <==> k == |blocks|
      ensures k < |blocks| ==>
                && freeMB == startAddr + 4 * blocks[k].start && freeSize == 4 * blocks[k].words
                && preFMB == PreFMB(SiteOf(blocks, k, k + 1))
    {
      freeMB, preFMB, freeSize := FMBlist, NULL, 0;
      k := NextFree(blocks, 0);
      while freeMB != NULL
        invariant 0 <= k <= |blocks| && (k < |blocks| ==> !blocks[k].used)
        invariant freeMB == FreeAddr(startAddr, blocks, k)
        invariant k < |blocks| ==> preFMB == PreFMB(SiteOf(blocks, k, k + 1))
        invariant forall i :: 0 <= i < k ==> !Fits(blocks[i], need)
        decreases |blocks| - k
      {
        FreeLinks(words[..], startAddr, FMBlist, blocks, k);
        var f := W(freeMB);
        freeSize := if words[f + 1] == NULL then endAddr - freeMB else words[f + 1] - 1 - freeMB;
        if freeSize >= bytes {
          return;
        }
        preFMB := freeMB;
        freeMB := words[f];
        ghost var k' := NextFree(blocks, k + 1);
        assert PrevFree(blocks, k') == k;
        k := k';
      }
    }

    /** First fit: the lowest free block that holds the rounded request is carved; NULL iff none does. */
    method CoKmalloc(size: U32) returns (memAddr: U32)
      requires Valid()
      requires size <= MAX_REQUEST
      modifies this`FMBlist, this`blocks, words
      ensures Valid()
      ensures blocks == Step(old(blocks), Kmalloc(size))
      ensures memAddr == NULL ==> words[..] == old(words[..])
      ensures memAddr == NULL <==>
                size == 0 || forall i :: 0 <= i < |old(blocks)| ==>
                  old(blocks)[i].used || old(blocks)[i].words < Need(size)
      ensures memAddr != NULL ==>
                forall i :: 0 <= i < |old(blocks)| && startAddr + 4 * old(blocks)[i].start + 8 < memAddr ==>
                  old(blocks)[i].used || old(blocks)[i].words < Need(size)
      ensures memAddr != NULL ==> LiveAt(FirstFit(old(blocks), Need(size), 0), memAddr)
      ensures OthersKept(old(words[..]), words[..], old(blocks), 0, 0)
    {
      if size == 0 {
        return NULL;
      }
      NeedHoldsRequestIff(size);
      var bytes := RoundedBytes(size);
      var freeMB, preFMB, freeSize, k := FindFit(bytes, Need(size));
      if freeMB == NULL {
        return NULL;
      }
      LowerIsBefore(blocks, words.Length, k);
      memAddr := AssignBlock(freeMB, preFMB, freeSize, bytes, k);
    }

    // ----- CoKfree -----

    /** The walk back from the first free block. */
    method WalkBack(usedMB: U32, ghost k: nat)
      requires Valid()
      requires k < NextFree(blocks, 0) < |blocks| && usedMB == startAddr + 4 * blocks[k].start
    {
      ghost var L, w := blocks, words[..];
      ghost var i := NextFree(L, 0) - 1;
      FreeLinks(w, startAddr, FMBlist, L, i + 1);
      var preUMB := words[W(FMBlist) + 2] - 1;
      while preUMB != usedMB
        invariant k <= i < NextFree(L, 0) && preUMB == startAddr + 4 * L[i].start
        decreases i
      {
        assert preUMB != NULL && HeaderOk(w, startAddr, L, i);
        preUMB := words[W(preUMB) + 1] - 1;
        i := i - 1;
      }
    }

    /** The walk on from the first free block, or from the start of a heap that has none. */
    method WalkOn(usedMB: U32, ghost k: nat)
      requires Valid()
      requires k < |blocks| && blocks[k].used && usedMB == startAddr + 4 * blocks[k].start
      requires NextFree(blocks, 0) < k || NextFree(blocks, 0) == |blocks|
    {
      ghost var L, w := blocks, words[..];
      var nextUMB := startAddr;
      ghost var i: nat := 0;
      if FMBlist != NULL {
        FreeLinks(w, startAddr, FMBlist, L, NextFree(L, 0));
        nextUMB := if words[W(FMBlist) + 1] != NULL then words[W(FMBlist) + 1] - 1 else NULL;
        i := NextFree(L, 0) + 1;
      }
      while nextUMB != usedMB
        invariant 0 <= i <= k && L[i].used && nextUMB == startAddr + 4 * L[i].start
        decreases k - i
      {
        assert nextUMB != NULL;
        nextUMB, i := NextUsed(nextUMB, i, k);
      }
    }

    /** The used block behind used block i, over a free block if there is one. */
    method NextUsed(usedMB: U32, ghost i: nat, ghost k: nat) returns (nextUMB: U32, ghost i': nat)
      requires Valid()
      requires i < k < |blocks| && blocks[i].used && blocks[k].used && usedMB == startAddr + 4 * blocks[i].start
      ensures i < i' <= k && blocks[i'].used && nextUMB == startAddr + 4 * blocks[i'].start
    {
      assert HeaderOk(words[..], startAddr, blocks, i);
      LinkParity(startAddr, blocks[i + 1].start);
      if words[W(usedMB)] % 2 == 0 {
        var nextFMB := words[W(usedMB)];
        FreeLinks(words[..], startAddr, FMBlist, blocks, i + 1);
        nextUMB := words[W(nextFMB) + 1] - 1;
        i' := i + 2;
      } else {
        nextUMB := words[W(usedMB)] - 1;
        i' := i + 1;
      }
    }

    /** The check that usedMB is in use.  For a live block both walks end at it, and neither meets the NULL
        link on which the kernel gives up. */
    method FindUsed(usedMB: U32, ghost k: nat)
      requires Valid()
      requires k < |blocks| && blocks[k].used && usedMB == startAddr + 4 * blocks[k].start
    {
      ghost var f := NextFree(blocks, 0);
      if f < |blocks| {
        if k < f { BlocksOrdered(blocks, words.Length, k, f); } else { BlocksOrdered(blocks, words.Length, f, k); }
      }
      if usedMB < FMBlist {
        WalkBack(usedMB, k);
      } else {
        WalkOn(usedMB, k);
      }
    }

    /** The backward link of used block i: tagged, it leads to the used block before it. */
    method LinkBack(usedMB: U32, ghost i: nat) returns (preUsed: bool, link: U32)
      requires Valid()
      requires i < |blocks| && blocks[i].used && usedMB == startAddr + 4 * blocks[i].start
      ensures preUsed ==> i > 0 && blocks[i - 1].used && link == startAddr + 4 * blocks[i - 1].start
                          && PrevFree(blocks, i - 1) == PrevFree(blocks, i)
      ensures !preUsed ==> link == if PrevFree(blocks, i) >= 0 then startAddr + 4 * blocks[PrevFree(blocks, i)].start
              else NULL
    {
      assert HeaderOk(words[..], startAddr, blocks, i);
      if i > 0 { LinkParity(startAddr, blocks[i - 1].start); }
      var preMB := words[W(usedMB) + 1];
      assert preMB == Link(startAddr, blocks, i - 1);
      preUsed := preMB % 2 == 1;
      link := if preUsed then preMB - 1 else preMB;
    }

    method GetPreFMB(usedMB: U32, ghost k: nat) returns (preFMB: U32)
      requires Valid()
      requires k < |blocks| && blocks[k].used && usedMB == startAddr + 4 * blocks[k].start
      ensures preFMB == if PrevFree(blocks, k) >= 0 then startAddr + 4 * blocks[PrevFree(blocks, k)].start else NULL
    {
      var preUsed;
      preUsed, preFMB := LinkBack(usedMB, k);
      ghost var i := k;
      while preUsed
        invariant 0 <= i <= k && PrevFree(blocks, i) == PrevFree(blocks, k)
        invariant preUsed ==> i > 0 && blocks[i - 1].used && preFMB == startAddr + 4 * blocks[i - 1].start
                              && PrevFree(blocks, i - 1) == PrevFree(blocks, i)
        invariant !preUsed ==>
                    preFMB == if PrevFree(blocks, i) >= 0 then startAddr + 4 * blocks[PrevFree(blocks, i)].start
                              else NULL
        decreases i
      {
        i := i - 1;
        preUsed, preFMB := LinkBack(preFMB, i);
      }
    }

    /** Both neighbours are free blocks or the ends of the heap. */
    method FreeBetweenFree(usedMB: U32, ghost s: Site, ghost u: int, ghost x: int, ghost nf: int) returns (curFMB: U32)
      requires Placed() && FreeingSite(words[..], startAddr, FMBlist, s, u, x, nf)
      requires usedMB == startAddr + 4 * u && (x >= 0 || s.r < 0) && (u > s.f || s.l < 0)
      modifies this`FMBlist, words
      ensures FreedHeader(old(words[..]), words[..], startAddr, s, nf)
      ensures curFMB == startAddr + 4 * s.f && FMBlist == if s.p >= 0 then old(FMBlist) else curFMB
    {
      var nextMB, preMB := words[W(usedMB)], words[W(usedMB) + 1];
      if nextMB == NULL && preMB == NULL {
        curFMB := usedMB;
        SetFMB(W(curFMB), NULL, NULL, NULL);
        FMBlist := curFMB;
      } else if preMB == NULL {
        curFMB := usedMB;
        var nextFMB := nextMB;
        words[W(curFMB)] := words[W(nextFMB)];
        words[W(curFMB) + 1] := words[W(nextFMB) + 1];
        words[W(curFMB) + 2] := NULL;
        FMBlist := curFMB;
      } else if nextMB == NULL {
        curFMB := preMB;
        words[W(curFMB)] := NULL;
        words[W(curFMB) + 1] := NULL;
      } else {
        var nextFMB := nextMB;
        curFMB := preMB;
        words[W(curFMB)] := words[W(nextFMB)];
        words[W(curFMB) + 1] := words[W(nextFMB) + 1];
      }
    }

    /** The block before is free or absent, the one after is used. */
    method FreeAfterFree(usedMB: U32, ghost s: Site, ghost u: int, ghost nf: int) returns (curFMB: U32)
      requires Placed() && FreeingSite(words[..], startAddr, FMBlist, s, u, -1, nf)
      requires usedMB == startAddr + 4 * u && s.r >= 0 && (u > s.f || s.l < 0)
      modifies this`FMBlist, words
      ensures FreedHeader(old(words[..]), words[..], startAddr, s, nf)
      ensures curFMB == startAddr + 4 * s.f && FMBlist == if s.p >= 0 then old(FMBlist) else curFMB
    {
      if words[W(usedMB) + 1] == NULL {
        curFMB := usedMB;
        var nextUMB := words[W(usedMB)];
        words[W(curFMB) + 1] := nextUMB;
        words[W(curFMB) + 2] := NULL;
        words[W(curFMB)] := FMBlist;
        FMBlist := curFMB;
      } else {
        curFMB := words[W(usedMB) + 1];
        var nextUMB := words[W(usedMB)];
        words[W(curFMB) + 1] := nextUMB;
      }
    }

    /** The block before is used, the one after is free or absent. */
    method FreeBeforeFree(usedMB: U32, preFMB: U32, ghost s: Site, ghost x: int, ghost nf: int) returns (curFMB: U32)
      requires Placed() && FreeingSite(words[..], startAddr, FMBlist, s, s.f, x, nf)
      requires usedMB == startAddr + 4 * s.f && (x >= 0 || s.r < 0) && preFMB == PreFMB(s)
      modifies this`FMBlist, words
      ensures FreedHeader(old(words[..]), words[..], startAddr, s, nf)
      ensures curFMB == startAddr + 4 * s.f && FMBlist == if s.p >= 0 then old(FMBlist) else curFMB
    {
      var preUMB := words[W(usedMB) + 1];
      curFMB := usedMB;
      var nextFMB;
      if preFMB == NULL {
        nextFMB := FMBlist;
        FMBlist := curFMB;
      } else {
        nextFMB := words[W(preFMB)];
        words[W(preFMB)] := curFMB;
      }
      if nextFMB == NULL {
        words[W(curFMB) + 2] := preUMB;
        words[W(curFMB) + 1] := NULL;
        words[W(curFMB)] := NULL;
      } else {
        words[W(curFMB) + 2] := preUMB;
        words[W(curFMB) + 1] := words[W(nextFMB) + 1];
        words[W(curFMB)] := words[W(nextFMB)];
      }
    }

    /** Both neighbours are used. */
    method FreeBetweenUsed(usedMB: U32, preFMB: U32, ghost s: Site, ghost nf: int) returns (curFMB: U32)
      requires Placed() && FreeingSite(words[..], startAddr, FMBlist, s, s.f, -1, nf)
      requires usedMB == startAddr + 4 * s.f && preFMB == PreFMB(s)
      modifies this`FMBlist, words
      ensures FreedHeader(old(words[..]), words[..], startAddr, s, nf)
      ensures curFMB == startAddr + 4 * s.f && FMBlist == if s.p >= 0 then old(FMBlist) else curFMB
    {
      curFMB := usedMB;
      var preUMB, nextUMB := words[W(usedMB) + 1], words[W(usedMB)];
      var nextFMB;
      if preFMB == NULL {
        nextFMB := FMBlist;
        FMBlist := curFMB;
      } else {
        nextFMB := words[W(preFMB)];
        words[W(preFMB)] := curFMB;
      }
      words[W(curFMB) + 2] := preUMB;
      words[W(curFMB) + 1] := nextUMB;
      words[W(curFMB)] := nextFMB;
    }

    /** The neighbours of the new free block are told that it is free. */
    method LinkNeighbours(curFMB: U32, ghost s: Site)
      requires Placed() && LinksAt(s) && curFMB == startAddr + 4 * s.f
      modifies words
      ensures forall j :: 0 <= j < words.Length ==>
                words[j] == if (s.l >= 0 && j == s.l) || (s.r >= 0 && j == s.r + 1) then curFMB else old(words[j])
    {
      SetNextMB(words[W(curFMB) + 2], curFMB, s.l);
      SetPreMB(words[W(curFMB) + 1], curFMB, s.r);
    }

    /** The four-way case split of CoKfree on what lies next to the block. */
    method FreeHeader(usedMB: U32, ghost k: nat, ghost s: Site, ghost x: int, ghost nf: int) returns (curFMB: U32)
      requires Valid() && k < |blocks| && blocks[k].used && usedMB == startAddr + 4 * blocks[k].start
      requires FreeingSite(words[..], startAddr, FMBlist, s, blocks[k].start, x, nf)
      requires blocks[k].start == s.f ==> s.p == StartOf(blocks, PrevFree(blocks, k))
      modifies this`FMBlist, words
      ensures FreedHeader(old(words[..]), words[..], startAddr, s, nf)
      ensures curFMB == startAddr + 4 * s.f && FMBlist == if s.p >= 0 then old(FMBlist) else curFMB
    {
      ghost var u := blocks[k].start;
      LinkParity(startAddr, x);
      LinkParity(startAddr, s.r);
      LinkParity(startAddr, s.f);
      LinkParity(startAddr, s.l);
      var nextMB, preMB := words[W(usedMB)], words[W(usedMB) + 1];
      if nextMB % 2 == 0 && preMB % 2 == 0 {
        curFMB := FreeBetweenFree(usedMB, s, u, x, nf);
      } else if preMB % 2 == 0 {
        curFMB := FreeAfterFree(usedMB, s, u, nf);
      } else {
        var preFMB := GetPreFMB(usedMB, k);
        if nextMB % 2 == 0 {
          curFMB := FreeBeforeFree(usedMB, preFMB, s, x, nf);
        } else {
          curFMB := FreeBetweenUsed(usedMB, preFMB, s, nf);
        }
      }
    }

    /** Frees a live block and joins it with its free neighbours; a NULL or outside pointer is ignored. */
    method CoKfree(memBuf: U32, ghost k: nat)
      requires Valid()
      requires startAddr <= memBuf <= endAddr ==> LiveAt(k, memBuf)
      modifies this`FMBlist, this`blocks, words
      ensures Valid()
      ensures if startAddr <= memBuf <= endAddr
              then blocks == Release(old(blocks), k)
              else blocks == old(blocks) && words[..] == old(words[..]) && FMBlist == old(FMBlist)
      ensures OthersKept(old(words[..]), words[..], old(blocks), k, k + 1)
    {
      if memBuf == NULL {
        return;
      }
      if memBuf < startAddr {
        return;
      }
      if memBuf > endAddr {
        return;
      }
      ReleaseBlock(memBuf - 8, k);
    }

    method ReleaseBlock(usedMB: U32, ghost k: nat)
      requires Valid()
      requires k < |blocks| && blocks[k].used && usedMB == startAddr + 4 * blocks[k].start
      modifies this`FMBlist, this`blocks, words
      ensures Valid()
      ensures blocks == Release(old(blocks), k)
      ensures OthersKept(old(words[..]), words[..], old(blocks), k, k + 1)
    {
      ghost var L, w := blocks, words[..];
      ghost var s := SiteOf(L, MergeLo(L, k), MergeHi(L, k));
      ghost var x, nf := if MergeHi(L, k) == k + 2 then L[k + 1].start else -1, FreeAddr(startAddr, L, MergeHi(L, k));
      FindUsed(usedMB, k);
      UsedLinks(w, startAddr, FMBlist, L, k);
      StartsMerge(L, words.Length, k);
      var curFMB := FreeHeader(usedMB, k, s, x, nf);
      LinkNeighbours(curFMB, s);
      FreedRepresents(w, words[..], startAddr, old(FMBlist), FMBlist, L, k);
      blocks := Release(L, k);
    }
  }
}
