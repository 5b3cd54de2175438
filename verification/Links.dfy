/** Doubly linked lists threaded through a table: nx[i] and pv[i] are the links of table entry i, -1 is Co_NULL. */
module Links {

  const NULL := -1

  predicate Distinct(q: seq<int>) { forall i, j :: 0 <= i < j < |q| ==> q[i] != q[j] }

  function At(q: seq<int>, i: int): int { if 0 <= i < |q| then q[i] else NULL }

  predicate InTable(q: seq<int>, n: int) { forall i :: 0 <= i < |q| ==> 0 <= q[i] < n }

  ghost predicate LinkOk(nx: seq<int>, pv: seq<int>, q: seq<int>, i: int)
    requires 0 <= i < |q| && 0 <= q[i] < |nx| && |pv| == |nx|
  {
    nx[q[i]] == At(q, i + 1) && pv[q[i]] == At(q, i - 1)
  }

  /** The list that starts at head runs through exactly the entries q, in order, and back. */
  ghost predicate Chain(nx: seq<int>, pv: seq<int>, head: int, q: seq<int>) {
    && |pv| == |nx| && InTable(q, |nx|) && Distinct(q)
    && head == At(q, 0)
    && forall i :: 0 <= i < |q| ==> LinkOk(nx, pv, q, i)
  }

  function InsertAt(q: seq<int>, k: nat, x: int): (r: seq<int>)
    requires k <= |q|
    ensures |r| == |q| + 1
  {
    q[..k] + [x] + q[k..]
  }

  function RemoveAt(q: seq<int>, k: nat): (r: seq<int>)
    requires k < |q|
    ensures |r| == |q| - 1
  {
    q[..k] + q[k + 1..]
  }

  function IndexOf(q: seq<int>, x: int): (k: nat)
    ensures k <= |q|
    ensures k < |q| ==> q[k] == x
    ensures x in q <==> k < |q|
    ensures forall j :: 0 <= j < k ==> q[j] != x
  {
    if q == [] || q[0] == x then 0 else 1 + IndexOf(q[1..], x)
  }

  /** The links after x was linked in at position k; every other link is as it was. */
  ghost predicate LinkedIn(nx: seq<int>, pv: seq<int>, nx': seq<int>, pv': seq<int>, q: seq<int>, k: nat, x: int) {
    && |nx'| == |nx| == |pv| == |pv'| && k <= |q| && InTable(q, |nx|) && 0 <= x < |nx|
    && nx'[x] == At(q, k) && pv'[x] == At(q, k - 1)
    && (k > 0 ==> nx'[q[k - 1]] == x)
    && (k < |q| ==> pv'[q[k]] == x)
    && (forall j :: 0 <= j < |nx| && j != x && j != At(q, k - 1) ==> nx'[j] == nx[j])
    && (forall j :: 0 <= j < |nx| && j != x && j != At(q, k) ==> pv'[j] == pv[j])
  }

  lemma InsertDistinct(q: seq<int>, k: nat, x: int)
    requires k <= |q| && Distinct(q) && x !in q
    ensures Distinct(InsertAt(q, k, x))
    ensures forall y :: y in InsertAt(q, k, x) <==> y == x || y in q
  {
    var r := InsertAt(q, k, x);
    assert r[k] == x;
    assert forall i :: 0 <= i < k ==> r[i] == q[i];
    assert forall i :: k < i < |r| ==> r[i] == q[i - 1];
    forall y | y in q
      ensures y in r
    {
      var i :| 0 <= i < |q| && q[i] == y;
      assert r[if i < k then i else i + 1] == y;
    }
  }

  lemma InsertLink(nx: seq<int>, pv: seq<int>, nx': seq<int>, pv': seq<int>, q: seq<int>, k: nat, x: int, i: int)
    requires LinkedIn(nx, pv, nx', pv', q, k, x) && x !in q && Distinct(q)
    requires forall j :: 0 <= j < |q| ==> LinkOk(nx, pv, q, j)
    requires 0 <= i <= |q|
    ensures var r := InsertAt(q, k, x); 0 <= r[i] < |nx'| && LinkOk(nx', pv', r, i)
  {
    var r := InsertAt(q, k, x);
    if i < k {
      assert LinkOk(nx, pv, q, i);
    } else if i > k {
      assert LinkOk(nx, pv, q, i - 1);
    }
  }

  lemma InsertChain(nx: seq<int>, pv: seq<int>, nx': seq<int>, pv': seq<int>, head: int, q: seq<int>, k: nat, x: int)
    requires Chain(nx, pv, head, q) && LinkedIn(nx, pv, nx', pv', q, k, x) && x !in q
    ensures Chain(nx', pv', if k == 0 then x else head, InsertAt(q, k, x))
  {
    var r := InsertAt(q, k, x);
    InsertDistinct(q, k, x);
    forall i | 0 <= i < |r|
      ensures 0 <= r[i] < |nx'| && LinkOk(nx', pv', r, i)
    {
      InsertLink(nx, pv, nx', pv', q, k, x, i);
    }
  }

  /** The links after entry k of q was linked out and its own links cleared. */
  ghost predicate LinkedOut(nx: seq<int>, pv: seq<int>, nx': seq<int>, pv': seq<int>, q: seq<int>, k: nat) {
    && |nx'| == |nx| == |pv| == |pv'| && k < |q| && InTable(q, |nx|)
    && nx'[q[k]] == NULL && pv'[q[k]] == NULL
    && (k > 0 ==> nx'[q[k - 1]] == At(q, k + 1))
    && (k + 1 < |q| ==> pv'[q[k + 1]] == At(q, k - 1))
    && (forall j :: 0 <= j < |nx| && j != q[k] && j != At(q, k - 1) ==> nx'[j] == nx[j])
    && (forall j :: 0 <= j < |nx| && j != q[k] && j != At(q, k + 1) ==> pv'[j] == pv[j])
  }

  lemma RemoveDistinct(q: seq<int>, k: nat)
    requires k < |q| && Distinct(q)
    ensures Distinct(RemoveAt(q, k))
    ensures forall y :: y in RemoveAt(q, k) <==> y != q[k] && y in q
  {
    var r := RemoveAt(q, k);
    assert forall i :: 0 <= i < |r| ==> r[i] == q[if i < k then i else i + 1];
    forall y | y in q && y != q[k]
      ensures y in r
    {
      var i :| 0 <= i < |q| && q[i] == y;
      assert r[if i < k then i else i - 1] == y;
    }
  }

  lemma RemoveLink(nx: seq<int>, pv: seq<int>, nx': seq<int>, pv': seq<int>, q: seq<int>, k: nat, i: int)
    requires LinkedOut(nx, pv, nx', pv', q, k) && Distinct(q)
    requires forall j :: 0 <= j < |q| ==> LinkOk(nx, pv, q, j)
    requires 0 <= i < |q| - 1
    ensures var r := RemoveAt(q, k); 0 <= r[i] < |nx'| && LinkOk(nx', pv', r, i)
  {
    var r := RemoveAt(q, k);
    if i < k {
      assert LinkOk(nx, pv, q, i);
    } else {
      assert LinkOk(nx, pv, q, i + 1);
    }
  }

  lemma RemoveChain(nx: seq<int>, pv: seq<int>, nx': seq<int>, pv': seq<int>, head: int, q: seq<int>, k: nat)
    requires Chain(nx, pv, head, q) && LinkedOut(nx, pv, nx', pv', q, k)
    ensures Chain(nx', pv', if k == 0 then At(q, 1) else head, RemoveAt(q, k))
  {
    var r := RemoveAt(q, k);
    RemoveDistinct(q, k);
    forall i | 0 <= i < |r|
      ensures 0 <= r[i] < |nx'| && LinkOk(nx', pv', r, i)
    {
      RemoveLink(nx, pv, nx', pv', q, k, i);
    }
  }

  /** A list keeps its links when nothing on it was written. */
  lemma FrameChain(nx: seq<int>, pv: seq<int>, nx': seq<int>, pv': seq<int>, head: int, q: seq<int>)
    requires Chain(nx, pv, head, q) && |nx'| == |nx| && |pv'| == |pv|
    requires forall i :: 0 <= i < |q| ==> nx'[q[i]] == nx[q[i]] && pv'[q[i]] == pv[q[i]]
    ensures Chain(nx', pv', head, q)
  {
    forall i | 0 <= i < |q|
      ensures LinkOk(nx', pv', q, i)
    {
      assert LinkOk(nx, pv, q, i);
    }
  }

  /** A listed entry without links is the only one. */
  lemma OnlyEntry(nx: seq<int>, pv: seq<int>, head: int, q: seq<int>, x: int)
    requires Chain(nx, pv, head, q) && x in q && nx[x] == NULL && pv[x] == NULL
    ensures q == [x] && IndexOf(q, x) == 0
  {
    var k := IndexOf(q, x);
    assert LinkOk(nx, pv, q, k);
  }
}
