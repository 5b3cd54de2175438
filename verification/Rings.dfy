/** Ring buffers: cnt elements from position head on, around the end of the cells. */
module Rings {

  /** Position a, less than two rounds from the start, on a ring of n cells. */
  function Wrap(a: int, n: int): int { if a < n then a else a - n }

  lemma WrapMod(a: int, n: int)
    requires 0 <= a < 2 * n
    ensures a % n == Wrap(a, n)
  {
    OneQuotient(a / n, n);
    if a >= n { OneQuotient(1, n); }
  }

  /** Where n times d can lie. */
  lemma OneQuotient(d: int, n: int)
    requires n > 0
    ensures d <= -1 ==> n * d <= -n
    ensures d == 0 ==> n * d == 0
    ensures d == 1 ==> n * d == n
    ensures d >= 2 ==> n * d >= 2 * n
  {
  }

  /** The elements of the ring, oldest first. */
  function Elements<T>(cell: seq<T>, head: int, cnt: int): (r: seq<T>)
    requires 0 <= head < |cell| && 0 <= cnt <= |cell|
    ensures |r| == cnt && forall i :: 0 <= i < cnt ==> r[i] == cell[Wrap(head + i, |cell|)]
  {
    seq(cnt, i requires 0 <= i < cnt => cell[Wrap(head + i, |cell|)])
  }

  lemma Pushed<T>(cell: seq<T>, head: int, cnt: int, x: T)
    requires 0 <= head < |cell| && 0 <= cnt < |cell|
    ensures Elements(cell[Wrap(head + cnt, |cell|) := x], head, cnt + 1) == Elements(cell, head, cnt) + [x]
  {
  }

  lemma Popped<T>(cell: seq<T>, head: int, cnt: int)
    requires 0 <= head < |cell| && 0 < cnt <= |cell|
    ensures Elements(cell, head, cnt) == [cell[head]] + Elements(cell, Wrap(head + 1, |cell|), cnt - 1)
  {
    var r, s := Elements(cell, head, cnt), Elements(cell, Wrap(head + 1, |cell|), cnt - 1);
    forall i | 1 <= i < cnt
      ensures r[i] == s[i - 1]
    {
    }
  }
}
