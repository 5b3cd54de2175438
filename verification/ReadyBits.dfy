/** The bit map of ready priorities: 32 sequence numbers to a word.  A word is the row of its bits, lowest first, and
    the operations of C on unsigned words are those on the rows. */
module ReadyBits {

  type Word = w: seq<bool> | |w| == 32 witness seq(32, _ => false)

  const ZERO: Word := seq(32, _ => false)

  function And(v: Word, w: Word): (r: Word)
    ensures forall k :: 0 <= k < 32 ==> r[k] == (v[k] && w[k])
  {
    seq(32, k requires 0 <= k < 32 => v[k] && w[k])
  }

  function Or(v: Word, w: Word): (r: Word)
    ensures forall k :: 0 <= k < 32 ==> r[k] == (v[k] || w[k])
  {
    seq(32, k requires 0 <= k < 32 => v[k] || w[k])
  }

  function Not(w: Word): (r: Word)
    ensures forall k :: 0 <= k < 32 ==> r[k] == !w[k]
  {
    seq(32, k requires 0 <= k < 32 => !w[k])
  }

  /** n ones from bit lo on: 1 << lo is Ones(lo, 1), 0xff << lo is Ones(lo, 8), 0xf0 << lo is Ones(lo + 4, 4). */
  function Ones(lo: int, n: int): (r: Word)
    ensures forall k :: 0 <= k < 32 ==> r[k] == (lo <= k < lo + n)
  {
    seq(32, k => lo <= k < lo + n)
  }

  /** Sequence number k is marked ready. */
  predicate Marked(info: seq<Word>, k: nat)
    requires k / 32 < |info|
  {
    info[k / 32][k % 32]
  }

  /** A word has a bit in common with a mask if and only if one of the bits that the mask selects is set. */
  lemma TestMask(w: Word, lo: int, n: int)
    ensures And(w, Ones(lo, n)) != ZERO <==> exists k :: 0 <= k < 32 && lo <= k < lo + n && w[k]
  {
    var r := And(w, Ones(lo, n));
    if r != ZERO {
      assert exists k :: 0 <= k < 32 && r[k];
    }
    if k :| 0 <= k < 32 && lo <= k < lo + n && w[k] {
      assert r[k] && !ZERO[k];
    }
  }

  lemma TestBit(w: Word, k: int)
    requires 0 <= k < 32
    ensures And(w, Ones(k, 1)) != ZERO <==> w[k]
  {
    TestMask(w, k, 1);
  }

  lemma SetBit(w: Word, k: int)
    requires 0 <= k < 32
    ensures Or(w, Ones(k, 1)) == w[k := true] && And(w, Not(Ones(k, 1))) == w[k := false]
  {
  }

  // ----- the scan for the highest bit -----

  /** r is the highest bit of w among lo..hi, -1 if there is none. */
  ghost predicate Highest(w: Word, lo: int, hi: int, r: int) {
    && (r == -1 || (lo <= r <= hi && 0 <= r < 32 && w[r]))
    && forall k :: lo <= k <= hi && r < k && 0 <= k < 32 ==> !w[k]
  }

  /** The two bit loops of the scan. */
  method ScanDown(tmp: Word, lo: int, hi: int) returns (r: int)
    requires 0 <= lo && hi < 32
    ensures Highest(tmp, lo, hi, r)
  {
    var cnt := hi;
    while cnt >= lo
      invariant cnt <= hi
      invariant forall k :: cnt < k <= hi && lo <= k ==> !tmp[k]
    {
      TestBit(tmp, cnt);
      if And(tmp, Ones(cnt, 1)) != ZERO {
        return cnt;
      }
      cnt := cnt - 1;
    }
    return -1;
  }

  /** Bits j and down of one byte: the upper half is skipped when it is empty. */
  method ScanByte(tmp: Word, num: nat, j: nat) returns (r: int)
    requires num < 4 && num * 8 <= j < num * 8 + 8
    ensures Highest(tmp, num * 8, j, r)
  {
    TestMask(tmp, num * 8, 8);
    TestMask(tmp, num * 8 + 4, 4);
    if And(tmp, Ones(num * 8, 8)) == ZERO {
      return -1;
    }
    if And(tmp, Ones(num * 8 + 4, 4)) != ZERO {
      r := ScanDown(tmp, num * 8 + 4, j);
      if r != -1 {
        return;
      }
    }
    // j & 4 is set in the upper half of a byte; (j | 3) - 4 is the top of the lower half
    var low := if j / 4 % 2 == 1 then j / 4 * 4 - 1 else j;
    r := ScanDown(tmp, num * 8, low);
  }

  /** Bits j and down of a word, byte by byte. */
  method ScanWord(tmp: Word, j: nat) returns (r: int)
    requires j < 32
    ensures Highest(tmp, 0, j, r)
  {
    if tmp == ZERO {
      return -1;
    }
    var num, top := j / 8, j;
    while true
      invariant 0 <= num < 4 && num * 8 <= top < num * 8 + 8 && top <= j
      invariant forall k :: top < k <= j ==> !tmp[k]
      decreases num
    {
      r := ScanByte(tmp, num, top);
      if r != -1 || num == 0 {
        return;
      }
      top := num * 8 - 1;
      num := num - 1;
    }
  }

  ghost predicate HighestMark(info: seq<Word>, hi: nat, r: int)
    requires hi / 32 < |info|
  {
    && (r == -1 || (0 <= r <= hi && Marked(info, r)))
    && forall k: nat :: r < k <= hi ==> !Marked(info, k)
  }

  lemma NumberParts(i: nat, b: nat)
    requires b < 32
    ensures (32 * i + b) / 32 == i && (32 * i + b) % 32 == b
  {
  }

  /** What the scan of word i says about the sequence numbers in it. */
  lemma WordMarks(info: seq<Word>, i: nat, j: nat, cnt: int)
    requires i < |info| && j < 32 && Highest(info[i], 0, j, cnt)
    ensures cnt != -1 ==> 0 <= cnt <= j && Marked(info, 32 * i + cnt)
    ensures forall k: nat :: 32 * i + cnt < k <= 32 * i + j && 32 * i <= k ==> k / 32 == i && !Marked(info, k)
  {
    if cnt != -1 { NumberParts(i, cnt); }
    forall k: nat | 32 * i + cnt < k <= 32 * i + j && 32 * i <= k
      ensures k / 32 == i && !Marked(info, k)
    {
      NumberParts(i, k - 32 * i);
    }
  }

  // ----- the map rebuilt -----

  /** The bits below n, by a loop. */
  method LowBits(n: nat) returns (tmp: Word)
    requires n < 32
    ensures tmp == Ones(0, n)
  {
    tmp := ZERO;
    for i := 0 to n
      invariant tmp == Ones(0, i)
    {
      SetBit(tmp, i);
      assert tmp[i := true] == Ones(0, i + 1);
      tmp := Or(tmp, Ones(i, 1));
    }
  }

  /** Up to sequence number i, the map says what marks says; word j of the map is still to be written back from
      tmp, in which nothing is set from i on. */
  ghost predicate Mapped(info: seq<Word>, j: nat, tmp: Word, marks: seq<bool>, i: nat) {
    && j < |info| && i <= |marks| && 32 * j <= i <= 32 * j + 32
    && (forall a, b :: 0 <= a < j && 0 <= b < 32 ==> info[a][b] == marks[32 * a + b])
    && (forall b :: 0 <= b < 32 ==> tmp[b] == (32 * j + b < i && marks[32 * j + b]))
  }

  lemma RemapStart(info: seq<Word>, marks: seq<bool>, n: nat)
    requires n / 32 < |info| && n <= |marks| && forall k: nat :: k < n ==> (Marked(info, k) <==> marks[k])
    ensures Mapped(info, n / 32, And(Ones(0, n % 32), info[n / 32]), marks, n)
  {
    forall a, b | 0 <= a <= n / 32 && 0 <= b < 32 && 32 * a + b < n
      ensures info[a][b] == marks[32 * a + b]
    {
      NumberParts(a, b);
      assert Marked(info, 32 * a + b) <==> marks[32 * a + b];
    }
  }

  lemma RemapFlush(info: seq<Word>, j: nat, tmp: Word, marks: seq<bool>, i: nat)
    requires Mapped(info, j, tmp, marks, i) && i == 32 * j + 32 && j + 1 < |info|
    ensures Mapped(info[j := tmp], j + 1, ZERO, marks, i)
  {
  }

  lemma RemapStep(info: seq<Word>, j: nat, tmp: Word, marks: seq<bool>, i: nat)
    requires Mapped(info, j, tmp, marks, i) && i < |marks| && i < 32 * j + 32
    ensures i % 32 == i - 32 * j
    ensures Mapped(info, j, if marks[i] then Or(tmp, Ones(i % 32, 1)) else tmp, marks, i + 1)
  {
    NumberParts(j, i - 32 * j);
    SetBit(tmp, i - 32 * j);
  }

  lemma RemapEnd(info: seq<Word>, j: nat, tmp: Word, marks: seq<bool>)
    requires Mapped(info, j, tmp, marks, |marks|)
    ensures forall k: nat :: k < |marks| ==> (Marked(info[j := tmp], k) <==> marks[k])
  {
    forall k: nat | k < |marks|
      ensures Marked(info[j := tmp], k) <==> marks[k]
    {
      var a, b := k / 32, k % 32;
      assert k == 32 * a + b;
    }
  }
}
