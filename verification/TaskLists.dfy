/** The two links of a task control block serve three lists: ready, delay and free.  How the kernel's writes to
    the links move a task from one to another. */
module TaskLists {
  import opened Links

  /** The free list is linked one way. */
  ghost predicate FreeChain(nx: seq<int>, head: int, q: seq<int>) {
    && InTable(q, |nx|) && Distinct(q) && head == At(q, 0)
    && forall i :: 0 <= i < |q| ==> NextOk(nx, q, i)
  }

  ghost predicate NextOk(nx: seq<int>, q: seq<int>, i: int)
    requires 0 <= i < |q| && 0 <= q[i] < |nx|
  {
    nx[q[i]] == At(q, i + 1)
  }

  ghost predicate Apart(q: seq<int>, r: seq<int>) { forall x :: x in q ==> x !in r }

  /** Lists r and d are doubly linked, f is the free list, no task is on two of them, and a task on none has
      no links; those in hand have been taken from the free list and not been set up yet. */
  ghost predicate Linked(nx: seq<int>, pv: seq<int>, rh: int, r: seq<int>, dh: int, d: seq<int>,
                         fh: int, f: seq<int>, hand: set<int>) {
    && Chain(nx, pv, rh, r) && Chain(nx, pv, dh, d) && FreeChain(nx, fh, f)
    && Apart(r, d) && Apart(f, r) && Apart(f, d)
    && (forall x :: x in hand ==> x !in r && x !in d && x !in f)
    && (forall x :: 0 <= x < |nx| ==> LinksOff(nx, pv, r, d, f, hand, x))
  }

  ghost predicate LinksOff(nx: seq<int>, pv: seq<int>, r: seq<int>, d: seq<int>, f: seq<int>, hand: set<int>, x: int)
    requires 0 <= x < |nx| == |pv|
  {
    x !in r && x !in d ==> pv[x] == NULL && (x !in f && x !in hand ==> nx[x] == NULL)
  }

  lemma AllFree(nx: seq<int>, pv: seq<int>, f: seq<int>)
    requires |nx| == |pv| == |f| > 0
    requires forall j :: 0 <= j < |f| ==> nx[j] == (if j < |f| - 1 then j + 1 else NULL) && pv[j] == NULL && f[j] == j
    ensures Linked(nx, pv, NULL, [], NULL, [], 0, f, {})
    ensures forall x :: 0 <= x < |f| ==> x in f
  {
    forall i | 0 <= i < |f|
      ensures i in f && NextOk(nx, f, i) && LinksOff(nx, pv, [], [], f, {}, i)
    {
      assert f[i] == i;
    }
  }

  lemma FrameFree(nx: seq<int>, nx': seq<int>, fh: int, f: seq<int>)
    requires FreeChain(nx, fh, f) && |nx'| == |nx|
    requires forall x :: 0 <= x < |nx| && x in f ==> nx'[x] == nx[x]
    ensures FreeChain(nx', fh, f)
  {
    forall i | 0 <= i < |f|
      ensures NextOk(nx', f, i)
    {
      assert NextOk(nx, f, i) && f[i] in f;
    }
  }

  /** What happens on list r does not touch d and f. */
  lemma OtherLists(nx: seq<int>, pv: seq<int>, nx': seq<int>, pv': seq<int>, dh: int, d: seq<int>, fh: int, f: seq<int>)
    requires Chain(nx, pv, dh, d) && FreeChain(nx, fh, f) && |nx'| == |nx| && |pv'| == |pv|
    requires forall x :: 0 <= x < |nx| && (x in d || x in f) ==> nx'[x] == nx[x] && pv'[x] == pv[x]
    ensures Chain(nx', pv', dh, d) && FreeChain(nx', fh, f)
  {
    forall i | 0 <= i < |d|
      ensures nx'[d[i]] == nx[d[i]] && pv'[d[i]] == pv[d[i]]
    {
      assert d[i] in d;
    }
    FrameChain(nx, pv, nx', pv', dh, d);
    FrameFree(nx, nx', fh, f);
  }

  /** The writes touch x and tasks of q only. */
  lemma InFrame(nx: seq<int>, pv: seq<int>, nx': seq<int>, pv': seq<int>, q: seq<int>, k: nat, x: int)
    requires LinkedIn(nx, pv, nx', pv', q, k, x)
    ensures forall y :: 0 <= y < |nx| && y != x && y !in q ==> nx'[y] == nx[y] && pv'[y] == pv[y]
  {
    assert k > 0 ==> q[k - 1] in q;
    assert k < |q| ==> q[k] in q;
  }

  lemma OutFrame(nx: seq<int>, pv: seq<int>, nx': seq<int>, pv': seq<int>, q: seq<int>, k: nat)
    requires LinkedOut(nx, pv, nx', pv', q, k)
    ensures forall y :: 0 <= y < |nx| && y !in q ==> nx'[y] == nx[y] && pv'[y] == pv[y]
  {
    assert q[k] in q;
    assert k > 0 ==> q[k - 1] in q;
    assert k + 1 < |q| ==> q[k + 1] in q;
  }

  lemma LinkReady(nx: seq<int>, pv: seq<int>, nx': seq<int>, pv': seq<int>, rh: int, r: seq<int>, dh: int, d: seq<int>,
                  fh: int, f: seq<int>, hand: set<int>, k: nat, x: int)
    requires Linked(nx, pv, rh, r, dh, d, fh, f, hand)
    requires x !in r && x !in d && x !in f && x !in hand
    requires LinkedIn(nx, pv, nx', pv', r, k, x)
    ensures Linked(nx', pv', if k == 0 then x else rh, InsertAt(r, k, x), dh, d, fh, f, hand)
  {
    InsertChain(nx, pv, nx', pv', rh, r, k, x);
    InsertDistinct(r, k, x);
    InFrame(nx, pv, nx', pv', r, k, x);
    OtherLists(nx, pv, nx', pv', dh, d, fh, f);
    forall y | 0 <= y < |nx|
      ensures LinksOff(nx', pv', InsertAt(r, k, x), d, f, hand, y)
    {
      assert LinksOff(nx, pv, r, d, f, hand, y);
    }
  }

  lemma UnlinkReady(nx: seq<int>, pv: seq<int>, nx': seq<int>, pv': seq<int>, rh: int, r: seq<int>, dh: int,
                    d: seq<int>,
                    fh: int, f: seq<int>, hand: set<int>, k: nat)
    requires Linked(nx, pv, rh, r, dh, d, fh, f, hand)
    requires LinkedOut(nx, pv, nx', pv', r, k)
    ensures Linked(nx', pv', if k == 0 then At(r, 1) else rh, RemoveAt(r, k), dh, d, fh, f, hand)
  {
    RemoveChain(nx, pv, nx', pv', rh, r, k);
    RemoveDistinct(r, k);
    OutFrame(nx, pv, nx', pv', r, k);
    OtherLists(nx, pv, nx', pv', dh, d, fh, f);
    forall y | 0 <= y < |nx|
      ensures LinksOff(nx', pv', RemoveAt(r, k), d, f, hand, y)
    {
      assert LinksOff(nx, pv, r, d, f, hand, y);
    }
  }

  /** A listed task without links is the only one of its list. */
  lemma DropOnly(nx: seq<int>, pv: seq<int>, rh: int, r: seq<int>, dh: int, d: seq<int>, fh: int, f: seq<int>,
                 hand: set<int>, x: int)
    requires Linked(nx, pv, rh, r, dh, d, fh, f, hand) && x in r && nx[x] == NULL && pv[x] == NULL
    ensures r == [x] && IndexOf(r, x) == 0
    ensures Linked(nx, pv, NULL, [], dh, d, fh, f, hand)
  {
    OnlyEntry(nx, pv, rh, r, x);
    UnlinkReady(nx, pv, nx, pv, rh, r, dh, d, fh, f, hand, 0);
    assert RemoveAt(r, 0) == [];
  }

  /** The ready list and the delay list play the same part. */
  lemma Swapped(nx: seq<int>, pv: seq<int>, rh: int, r: seq<int>, dh: int, d: seq<int>, fh: int, f: seq<int>,
                hand: set<int>)
    requires Linked(nx, pv, rh, r, dh, d, fh, f, hand)
    ensures Linked(nx, pv, dh, d, rh, r, fh, f, hand)
  {
    forall y | 0 <= y < |nx|
      ensures LinksOff(nx, pv, d, r, f, hand, y)
    {
      assert LinksOff(nx, pv, r, d, f, hand, y);
    }
  }

  /** The head of the free list is taken in hand. */
  lemma TakeFree(nx: seq<int>, pv: seq<int>, rh: int, r: seq<int>, dh: int, d: seq<int>, fh: int, f: seq<int>,
                 hand: set<int>)
    requires Linked(nx, pv, rh, r, dh, d, fh, f, hand) && f != []
    ensures fh == f[0] && 0 <= fh < |nx| && Linked(nx, pv, rh, r, dh, d, nx[fh], f[1..], hand + {fh})
  {
    assert NextOk(nx, f, 0) && f[0] in f;
    var g := f[1..];
    forall i | 0 <= i < |g|
      ensures NextOk(nx, g, i)
    {
      assert NextOk(nx, f, i + 1);
    }
    assert forall x :: x in f <==> x == fh || x in g by { assert f == [fh] + g; }
    forall y | 0 <= y < |nx|
      ensures LinksOff(nx, pv, r, d, g, hand + {fh}, y)
    {
      assert LinksOff(nx, pv, r, d, f, hand, y);
    }
  }

  /** A task in hand gets empty links. */
  lemma SetUp(nx: seq<int>, pv: seq<int>, rh: int, r: seq<int>, dh: int, d: seq<int>, fh: int, f: seq<int>,
              hand: set<int>, x: int)
    requires Linked(nx, pv, rh, r, dh, d, fh, f, hand) && x in hand && 0 <= x < |nx|
    ensures Linked(nx[x := NULL], pv[x := NULL], rh, r, dh, d, fh, f, hand - {x})
  {
    var nx', pv' := nx[x := NULL], pv[x := NULL];
    OtherLists(nx, pv, nx', pv', dh, d, fh, f);
    OtherLists(nx, pv, nx', pv', rh, r, fh, f);
    forall y | 0 <= y < |nx|
      ensures LinksOff(nx', pv', r, d, f, hand - {x}, y)
    {
      assert LinksOff(nx, pv, r, d, f, hand, y);
    }
  }

  /** A task on no list is put in front of the free list. */
  lemma GiveFree(nx: seq<int>, pv: seq<int>, rh: int, r: seq<int>, dh: int, d: seq<int>, fh: int, f: seq<int>,
                 hand: set<int>, x: int)
    requires Linked(nx, pv, rh, r, dh, d, fh, f, hand) && 0 <= x < |nx|
    requires x !in r && x !in d && x !in f && x !in hand
    ensures Linked(nx[x := fh], pv, rh, r, dh, d, x, [x] + f, hand)
  {
    var nx', g := nx[x := fh], [x] + f;
    OtherLists(nx, pv, nx', pv, dh, d, fh, f);
    OtherLists(nx, pv, nx', pv, rh, r, fh, f);
    InsertDistinct(f, 0, x);
    assert g == InsertAt(f, 0, x);
    forall i | 0 <= i < |g|
      ensures NextOk(nx', g, i)
    {
      if i > 0 { assert NextOk(nx', f, i - 1); }
    }
    forall y | 0 <= y < |nx|
      ensures LinksOff(nx', pv, r, d, g, hand, y)
    {
      assert LinksOff(nx, pv, r, d, f, hand, y);
    }
  }
}
