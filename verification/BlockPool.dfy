/** A partition of memory into blocks of one size; the free blocks are linked through their own first words. */
module BlockPool {
  import opened Links

  const Co_NULL: int := 0

  /** The address of block i. */
  function Addr(memAddr: int, blockSize: int, i: int): int { memAddr + i * blockSize }

  /** The address of entry k of a list of blocks, Co_NULL behind its end. */
  function AddrAt(memAddr: int, blockSize: int, q: seq<int>, k: int): int {
    if 0 <= k < |q| then Addr(memAddr, blockSize, q[k]) else Co_NULL
  }

  /** The checks that a buffer handed back has to pass. */
  predicate Accepted(memAddr: int, blockSize: int, blockNum: int, buf: int)
    requires blockSize > 0
  {
    buf != Co_NULL && buf >= memAddr && buf <= memAddr + blockSize * blockNum && (buf - memAddr) % blockSize == 0
  }

  lemma Multiple(i: int, size: int)
    requires size > 0
    ensures i * size % size == 0 && i * size / size == i
  {
    var a := i * size;
    assert a == size * (a / size) + a % size;
    var d := a / size - i;
    assert size * d == -(a % size);
    Sign(d, size);
  }

  lemma Sign(d: int, size: int)
    requires size > 0
    ensures d >= 1 ==> size * d >= size
    ensures d <= -1 ==> size * d <= -size
    ensures d == 0 ==> size * d == 0
  {
  }

  /** They accept the addresses of the blocks, and also the address just behind the last one. */
  lemma AcceptedIff(memAddr: int, blockSize: int, blockNum: int, buf: int)
    requires memAddr > 0 && blockSize > 0 && blockNum > 0
    ensures Accepted(memAddr, blockSize, blockNum, buf) <==>
              exists i :: 0 <= i <= blockNum && buf == Addr(memAddr, blockSize, i)
  {
    if Accepted(memAddr, blockSize, blockNum, buf) {
      var i := (buf - memAddr) / blockSize;
      assert buf - memAddr == i * blockSize;
      Order(blockNum, i, blockSize);
      Order(i, 0, blockSize);
      assert buf == Addr(memAddr, blockSize, i);
    }
    if i :| 0 <= i <= blockNum && buf == Addr(memAddr, blockSize, i) {
      Multiple(i, blockSize);
      Order(blockNum, i, blockSize);
      Order(i, 0, blockSize);
    }
  }

  /** Multiples are in the order of their factors. */
  lemma Order(i: int, j: int, size: int)
    requires size > 0
    ensures i >= j <==> i * size >= j * size
  {
    var d := i - j;
    Sign(d, size);
    assert i * size - j * size == size * d;
  }

  lemma AddrIndex(memAddr: int, blockSize: int, i: int)
    requires blockSize > 0
    ensures (Addr(memAddr, blockSize, i) - memAddr) / blockSize == i
    ensures memAddr > 0 && i >= 0 ==> Addr(memAddr, blockSize, i) > 0
  {
    Multiple(i, blockSize);
    Order(i, 0, blockSize);
  }

  /** Block q[k] points to the next block of the list. */
  ghost predicate NextOk(memAddr: int, blockSize: int, next: seq<int>, q: seq<int>, k: int)
    requires 0 <= k < |q| && 0 <= q[k] < |next|
  {
    next[q[k]] == AddrAt(memAddr, blockSize, q, k + 1)
  }

  ghost predicate FreeList(memAddr: int, blockSize: int, next: seq<int>, head: int, q: seq<int>) {
    && InTable(q, |next|) && Distinct(q) && head == AddrAt(memAddr, blockSize, q, 0)
    && forall k :: 0 <= k < |q| ==> NextOk(memAddr, blockSize, next, q, k)
  }

  lemma PopFree(memAddr: int, blockSize: int, next: seq<int>, head: int, q: seq<int>)
    requires FreeList(memAddr, blockSize, next, head, q) && q != []
    ensures FreeList(memAddr, blockSize, next, next[q[0]], q[1..]) && q[0] !in q[1..]
  {
    assert NextOk(memAddr, blockSize, next, q, 0);
    forall k | 0 <= k < |q| - 1
      ensures NextOk(memAddr, blockSize, next, q[1..], k)
    {
      assert NextOk(memAddr, blockSize, next, q, k + 1);
    }
  }

  lemma PushFree(memAddr: int, blockSize: int, next: seq<int>, head: int, q: seq<int>, i: int)
    requires FreeList(memAddr, blockSize, next, head, q) && 0 <= i < |next| && i !in q
    ensures FreeList(memAddr, blockSize, next[i := head], Addr(memAddr, blockSize, i), [i] + q)
  {
    var r, next' := [i] + q, next[i := head];
    InsertDistinct(q, 0, i);
    assert r == InsertAt(q, 0, i);
    forall k | 0 <= k < |r|
      ensures NextOk(memAddr, blockSize, next', r, k)
    {
      if k > 0 { assert NextOk(memAddr, blockSize, next, q, k - 1); }
    }
  }

  /** The block counter of the creation is a byte. */
  function Inc8(j: int): int { (j + 1) % 256 }

  /** Its loop ends if and only if there are at most 256 blocks. */
  lemma CountsUpIff(blockNum: int)
    requires blockNum > 1
    ensures (exists j: nat :: CounterAt(j) == blockNum - 1) <==> blockNum <= 256
  {
    if blockNum <= 256 {
      CounterIs(blockNum - 1);
      assert CounterAt(blockNum - 1) == blockNum - 1;
    }
  }

  /** The counter after j rounds. */
  function CounterAt(j: nat): (c: int)
    ensures 0 <= c < 256
  {
    if j == 0 then 0 else Inc8(CounterAt(j - 1))
  }

  lemma NoWrap(j: int)
    requires 0 <= j < 255
    ensures Inc8(j) == j + 1
  {
  }

  lemma {:induction false} CounterIs(j: nat)
    requires j < 256
    ensures CounterAt(j) == j
  {
    if j > 0 {
      CounterIs(j - 1);
      NoWrap(j - 1);
    }
  }

  class Pool {
    const memAddr: int
    const blockSize: int
    const blockNum: int
    const nextBlock: array<int>
    var freeBlock: int
    ghost var free: seq<int>

    /** The free blocks are linked, each once; the others are handed out. */
    ghost predicate Valid()
      reads this, nextBlock
    {
      && memAddr > 0 && blockSize > 0 && blockNum == nextBlock.Length
      && FreeList(memAddr, blockSize, nextBlock[..], freeBlock, free)
    }

    /** The blocks that are handed out. */
    ghost function Outstanding(): set<int>
      reads `free
    {
      Others(free, blockNum)
    }

    /** CoCreateMemPartition, with its checks passed; for more blocks its loop does not end. */
    constructor (memBuf: int, size: int, num: int)
      requires memBuf > 0 && size > 0 && size % 4 == 0 && 1 < num <= 256
      ensures Valid() && memAddr == memBuf && blockSize == size && blockNum == num && fresh(nextBlock)
      ensures free == seq(num, i => i) && Outstanding() == {}
    {
      memAddr, blockSize, blockNum := memBuf, size, num;
      nextBlock := new int[num](_ => Co_NULL);
      freeBlock := memBuf;
      free := seq(num, i => i);
      new;
      var memory, memBlk := memBuf, 0;
      var j := 0;
      while j < num - 1
        invariant 0 <= j <= num - 1 && memBlk == j && memory == Addr(memBuf, size, j)
        invariant forall i :: 0 <= i < num ==> nextBlock[i] == if i < j then Addr(memBuf, size, i + 1) else Co_NULL
        modifies nextBlock
      {
        memory := memory + size;
        nextBlock[memBlk] := memory;
        memBlk := memBlk + 1;
        j := Inc8(j);
      }
      nextBlock[memBlk] := Co_NULL;
      AllFree(memAddr, blockSize, nextBlock[..], free);
    }

    /** The number of free blocks, by a walk along the list. */
    method CoGetFreeBlockNum() returns (fbNum: int)
      requires Valid()
      ensures fbNum == |free| && fbNum + |Outstanding()| == blockNum
    {
      var memBlk := freeBlock;
      fbNum := 0;
      while memBlk != Co_NULL
        invariant 0 <= fbNum <= |free| && memBlk == AddrAt(memAddr, blockSize, free, fbNum)
        decreases |free| - fbNum
      {
        if fbNum < |free| {
          AddrIndex(memAddr, blockSize, free[fbNum]);
          assert NextOk(memAddr, blockSize, nextBlock[..], free, fbNum);
        }
        fbNum := fbNum + 1;
        memBlk := nextBlock[(memBlk - memAddr) / blockSize];
      }
      if fbNum < |free| { AddrIndex(memAddr, blockSize, free[fbNum]); }
      Shared(free, blockNum);
    }

    /** Hands out the first free block: an address in the partition, on a block boundary, of a block that was not
        handed out; Co_NULL when there is none. */
    method CoGetMemoryBuffer() returns (buf: int)
      requires Valid()
      modifies this`freeBlock, this`free
      ensures Valid()
      ensures buf == Co_NULL <==> old(free) == []
      ensures buf == Co_NULL ==> free == old(free)
      ensures buf != Co_NULL ==>
                && free == old(free)[1..] && buf == Addr(memAddr, blockSize, old(free)[0])
                && 0 <= old(free)[0] < blockNum
                && old(free)[0] !in old(Outstanding()) && Outstanding() == old(Outstanding()) + {old(free)[0]}
    {
      if free != [] {
        AddrIndex(memAddr, blockSize, free[0]);
        PopFree(memAddr, blockSize, nextBlock[..], freeBlock, free);
        assert forall i :: i in free <==> i == free[0] || i in free[1..] by { assert free == [free[0]] + free[1..]; }
      }
      if freeBlock == Co_NULL {
        return Co_NULL;
      }
      buf := freeBlock;
      freeBlock := nextBlock[(buf - memAddr) / blockSize];
      free := free[1..];
    }

    /** Takes back a buffer: one that passes the checks has to be a block that is handed out. */
    method CoFreeMemoryBuffer(buf: int, ghost i: int) returns (ok: bool)
      requires Valid()
      requires Accepted(memAddr, blockSize, blockNum, buf) ==> i in Outstanding() && buf == Addr(memAddr, blockSize, i)
      modifies nextBlock, this`freeBlock, this`free
      ensures Valid() && ok == Accepted(memAddr, blockSize, blockNum, buf)
      ensures free == (if ok then [i] + old(free) else old(free))
      ensures Outstanding() == if ok then old(Outstanding()) - {i} else old(Outstanding())
    {
      if buf == Co_NULL {
        return false;
      }
      if buf < memAddr {
        return false;
      }
      if buf > memAddr + blockSize * blockNum {
        return false;
      }
      if (buf - memAddr) % blockSize != 0 {
        return false;
      }
      AddrIndex(memAddr, blockSize, i);
      PushFree(memAddr, blockSize, nextBlock[..], freeBlock, free, i);
      ghost var was := nextBlock[..];
      nextBlock[(buf - memAddr) / blockSize] := freeBlock;
      assert nextBlock[..] == was[i := freeBlock];
      freeBlock := buf;
      free := [i] + free;
      return true;
    }
  }

  lemma AllFree(memAddr: int, blockSize: int, next: seq<int>, q: seq<int>)
    requires |q| == |next| > 0 && forall i :: 0 <= i < |q| ==> q[i] == i
    requires forall i :: 0 <= i < |next| ==> next[i] == if i < |next| - 1 then Addr(memAddr, blockSize, i + 1)
            else Co_NULL
    ensures FreeList(memAddr, blockSize, next, memAddr, q) && forall i :: 0 <= i < |q| ==> i in q
  {
    forall k | 0 <= k < |q|
      ensures NextOk(memAddr, blockSize, next, q, k) && k in q
    {
      assert q[k] == k;
    }
  }

  /** The blocks that are not on list q. */
  ghost function Others(q: seq<int>, n: int): set<int> { set i | 0 <= i < n && i !in q }

  /** The blocks of a list without repetition and the others are all there are. */
  lemma {:induction false} Shared(q: seq<int>, n: int)
    requires 0 <= n && Distinct(q) && InTable(q, n)
    ensures |q| + |Others(q, n)| == n
    decreases |q|
  {
    if q == [] {
      NoneListed(q, n);
    } else {
      RemoveDistinct(q, 0);
      assert RemoveAt(q, 0) == q[1..];
      Shared(q[1..], n);
      assert Others(q[1..], n) == Others(q, n) + {q[0]};
    }
  }

  lemma {:induction false} NoneListed(q: seq<int>, n: int)
    requires n >= 0 && q == []
    ensures |Others(q, n)| == n
  {
    if n > 0 {
      NoneListed(q, n - 1);
      assert Others(q, n) == Others(q, n - 1) + {n - 1};
    } else {
      assert Others(q, n) == {};
    }
  }
}
