/** Delta lists kept in a table: the entries are table indices, and each has a counter. */
module DeltaTable {
  import opened DeltaList
  import opened Links

  /** The delta list that entries q of a table with counters cnt form. */
  function Entries(q: seq<int>, cnt: seq<U32>): (l: seq<Entry>)
    requires InTable(q, |cnt|)
    ensures |l| == |q|
  {
    seq(|q|, i requires 0 <= i < |q| => Entry(q[i], cnt[q[i]]))
  }

  /** Linking x in at k and setting the two counters is an insertion into the delta list. */
  lemma EntriesInsert(q: seq<int>, cnt: seq<U32>, cnt': seq<U32>, k: nat, x: int, nextDelta: U32)
    requires InTable(q, |cnt|) && Distinct(q) && k <= |q| && x !in q && 0 <= x < |cnt| && |cnt'| == |cnt|
    requires k < |q| ==> cnt'[q[k]] == nextDelta
    requires forall j :: 0 <= j < |cnt| && j != x && j != At(q, k) ==> cnt'[j] == cnt[j]
    ensures InTable(InsertAt(q, k, x), |cnt|)
    ensures Entries(InsertAt(q, k, x), cnt')
            == InsertEntry(Entries(q, cnt), k, Entry(x, cnt'[x]), nextDelta)
  {
    var r := InsertAt(q, k, x);
    assert forall i :: 0 <= i < |r| ==> r[i] == if i < k then q[i] else if i == k then x else q[i - 1];
    var l, e := Entries(q, cnt), Entry(x, cnt'[x]);
    forall i | 0 <= i < |r|
      ensures Entries(r, cnt')[i] == InsertEntry(l, k, e, nextDelta)[i]
    {
      EntryAt(l, k, e, nextDelta, i);
    }
  }

  lemma EntryAt(l: seq<Entry>, k: nat, e: Entry, nextDelta: U32, i: nat)
    requires k <= |l| && i <= |l|
    ensures var m := InsertEntry(l, k, e, nextDelta);
            |m| == |l| + 1
            && m[i] == if i < k then l[i] else if i == k then e
                       else if i == k + 1 then l[k].(delta := nextDelta) else l[i - 1]
  {
  }

  lemma EntriesRemove(q: seq<int>, cnt: seq<U32>, cnt': seq<U32>, k: nat)
    requires InTable(q, |cnt|) && Distinct(q) && k < |q| && |cnt'| == |cnt|
    requires k + 1 < |q| ==> cnt'[q[k + 1]] == (cnt[q[k + 1]] + cnt[q[k]]) % U32_SIZE
    requires forall j :: 0 <= j < |cnt| && j != At(q, k + 1) ==> cnt'[j] == cnt[j]
    ensures InTable(RemoveAt(q, k), |cnt|)
    ensures Entries(RemoveAt(q, k), cnt') == Remove(Entries(q, cnt), k)
  {
    var r := RemoveAt(q, k);
    assert forall i :: 0 <= i < |r| ==> r[i] == q[if i < k then i else i + 1];
  }

  /** What an insertion does after a walk that stopped before entry k, or past the end, with d left. */
  lemma InsertsBefore(l: seq<Entry>, x: int, ticks: U32, k: nat, d: S32)
    requires k < |l| && d < 0 && Walk(l, 0, ToS32(ticks)) == (k, d)
    ensures var delta := (l[k].delta + d) % U32_SIZE;
            Insert(l, x, ticks) == InsertEntry(l, k, Entry(x, delta), (l[k].delta - delta) % U32_SIZE)
  {
    var w := Walk(l, 0, ToS32(ticks));
    assert w.0 == k && w.1 == d;
  }

  lemma InsertsLast(l: seq<Entry>, x: int, ticks: U32, d: S32)
    requires l != [] && d >= 0 && Walk(l, 0, ToS32(ticks)) == (|l|, d)
    ensures Insert(l, x, ticks) == l + [Entry(x, d)]
  {
    var w := Walk(l, 0, ToS32(ticks));
    assert w.0 == |l| && w.1 == d;
  }
}
