/** The variable length field of MQTT packets: seven bits to a byte, lowest first, and the top bit says that more
    follow. */
module RemainingLength {

  const MAX_BYTES: int := 4
  const LIMIT: int := 268_435_456    // 128 to the power of 4

  /** The bytes that the encoder writes for a length. */
  function Encode(n: nat): (b: seq<int>)
    ensures |b| > 0 && forall i :: 0 <= i < |b| ==> 0 <= b[i] < 256
    decreases n
  {
    if n / 128 > 0 then [n % 128 + 128] + Encode(n / 128) else [n % 128]
  }

  /** The encoder's loop; `length` is an int of the program, at most 2^31 - 1. */
  method EncodeLength(length: nat) returns (buf: seq<int>)
    ensures buf == Encode(length)
  {
    buf := [];
    var rest := length;
    while true
      invariant buf + Encode(rest) == Encode(length)
      decreases rest
    {
      var d := rest % 128;
      ghost var was := rest;
      rest := rest / 128;
      if rest > 0 {
        d := d + 128;
      }
      NextByte(buf, was, d);
      buf := buf + [d];
      if rest == 0 {
        return;
      }
    }
  }

  lemma NextByte(buf: seq<int>, was: nat, d: int)
    requires d == was % 128 + if was / 128 > 0 then 128 else 0
    ensures buf + Encode(was) == buf + [d] + if was / 128 > 0 then Encode(was / 128) else []
  {
    Regroup(buf, [d], if was / 128 > 0 then Encode(was / 128) else []);
    if was / 128 == 0 { assert [d] + [] == [d]; }
  }

  lemma Regroup(x: seq<int>, y: seq<int>, z: seq<int>)
    ensures x + y + z == x + (y + z)
  {
  }

  /** What the decoder returns: bytes counted, and the value; `len` bytes have been counted before the rest s. */
  function Decode(s: seq<int>, len: nat, value: int, multiplier: int): (r: (int, int))
    decreases MAX_BYTES + 1 - len
  {
    if len + 1 > MAX_BYTES || s == [] then (len + 1, value)
    else
      var v := value + s[0] % 128 * multiplier;
      if s[0] / 128 % 2 == 1 then Decode(s[1..], len + 1, v, multiplier * 128) else (len + 1, v)
  }

  /** The decoder's loop over a source of bytes; it gives up when the source ends or after four bytes. */
  method DecodePacket(source: seq<int>) returns (len: int, value: int)
    ensures (len, value) == Decode(source, 0, 0, 1)
  {
    var multiplier, pos := 1, 0;
    len, value := 0, 0;
    while true
      invariant 0 <= len == pos <= MAX_BYTES && pos <= |source|
      invariant Decode(source[pos..], len, value, multiplier) == Decode(source, 0, 0, 1)
      decreases MAX_BYTES + 1 - len
    {
      len := len + 1;
      if len > MAX_BYTES {
        return;
      }
      if pos == |source| {
        return;
      }
      var i := source[pos];
      assert source[pos..][1..] == source[pos + 1..];
      pos := pos + 1;
      value := value + i % 128 * multiplier;
      multiplier := multiplier * 128;
      if i / 128 % 2 != 1 {
        return;
      }
    }
  }

  /** How many bytes a length takes. */
  lemma {:induction false} EncodedLen(n: nat)
    ensures |Encode(n)| == 1 <==> n < 128
    ensures |Encode(n)| <= 2 <==> n < 16_384
    ensures |Encode(n)| <= 3 <==> n < 2_097_152
    ensures |Encode(n)| <= 4 <==> n < LIMIT
    decreases n
  {
    if n / 128 > 0 { EncodedLen(n / 128); }
  }

  function Power(k: nat): (p: int)
    ensures p > 0
  {
    if k == 0 then 1 else 128 * Power(k - 1)
  }

  lemma Digits(n: nat, m: int)
    ensures n % 128 * m + n / 128 * (m * 128) == n * m
  {
    assert n == n / 128 * 128 + n % 128;
  }

  lemma Digit(d: int, value: int, m: int)
    requires 0 <= d < 128 && 0 <= value < m
    ensures 0 <= value + d * m < m * 128
  {
    assert 0 <= d * m <= 127 * m;
  }

  lemma DecodeFirst(n: nat, more: seq<int>, len: nat, value: int, multiplier: int)
    requires len + 1 <= MAX_BYTES
    ensures Decode(Encode(n) + more, len, value, multiplier) ==
            var v := value + n % 128 * multiplier;
            if n / 128 > 0 then Decode(Encode(n / 128) + more, len + 1, v, multiplier * 128) else (len + 1, v)
  {
    if n / 128 > 0 { assert (Encode(n) + more)[1..] == Encode(n / 128) + more; }
  }

  lemma {:induction false} DecodeEncoded(n: nat, more: seq<int>, len: nat, value: int, multiplier: int)
    requires len + |Encode(n)| <= MAX_BYTES
    ensures Decode(Encode(n) + more, len, value, multiplier) == (len + |Encode(n)|, value + n * multiplier)
    decreases n
  {
    Digits(n, multiplier);
    DecodeFirst(n, more, len, value, multiplier);
    if n / 128 > 0 {
      DecodeEncoded(n / 128, more, len + 1, value + n % 128 * multiplier, multiplier * 128);
    }
  }

  /** Four bytes carry less than LIMIT. */
  lemma {:induction false} DecodeSmall(s: seq<int>, len: nat, value: int, multiplier: int)
    requires len <= MAX_BYTES && multiplier == Power(len) && 0 <= value < multiplier
    ensures 0 <= Decode(s, len, value, multiplier).1 < Power(MAX_BYTES)
    decreases MAX_BYTES - len
  {
    PowerGrows(len, MAX_BYTES);
    if len < MAX_BYTES && s != [] {
      Digit(s[0] % 128, value, multiplier);
      PowerGrows(len + 1, MAX_BYTES);
      DecodeSmall(s[1..], len + 1, value + s[0] % 128 * multiplier, multiplier * 128);
    }
  }

  lemma {:induction false} PowerGrows(j: nat, k: nat)
    requires j <= k
    ensures Power(j) <= Power(k)
  {
    if j < k { PowerGrows(j, k - 1); }
  }

  /** The decoder gives back an encoded length, whatever follows it, if and only if the length is below LIMIT. */
  lemma RoundTripIff(n: nat, more: seq<int>)
    ensures Decode(Encode(n) + more, 0, 0, 1) == (|Encode(n)|, n) <==> n < LIMIT
  {
    EncodedLen(n);
    if n < LIMIT {
      DecodeEncoded(n, more, 0, 0, 1);
    } else {
      DecodeSmall(Encode(n) + more, 0, 0, 1);
      assert Power(1) == 128 && Power(2) == 16_384 && Power(3) == 2_097_152 && Power(4) == LIMIT;
    }
  }

  /** The byte says that another one follows. */
  predicate Continues(c: int) { c / 128 % 2 == 1 }

  /** Without a last byte among the first four, the decoder counts one byte more than it got and gives up. */
  lemma {:induction false} GivesUp(s: seq<int>, len: nat, value: int, multiplier: int)
    requires len <= MAX_BYTES && forall i :: 0 <= i < |s| && i + len < MAX_BYTES ==> Continues(s[i])
    ensures Decode(s, len, value, multiplier).0 == (if len + |s| < MAX_BYTES then len + |s| else MAX_BYTES) + 1
    decreases MAX_BYTES - len
  {
    if len < MAX_BYTES && s != [] {
      GivesUp(s[1..], len + 1, value + s[0] % 128 * multiplier, multiplier * 128);
    }
  }

  /** MQTTPacket_len: the size of a packet from that of its rest. The header byte is counted before the
      comparisons. */
  function PacketLen(rest: nat): int {
    var len := rest + 1;
    len + if len < 128 then 1 else if len < 16_384 then 2 else if len < 2_097_151 then 3 else 4
  }

  /** It is the header byte, the bytes that the encoder writes and the rest, but for the lengths just below those
      at which the encoder takes one byte more. */
  lemma PacketLenIff(n: nat)
    ensures PacketLen(n) == 1 + |Encode(n)| + n <==> n < LIMIT && n !in {127, 16_383, 2_097_150, 2_097_151}
  {
    EncodedLen(n);
  }
}
