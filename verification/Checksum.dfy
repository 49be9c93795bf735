/**
 * The internet checksum (section 1 of RFC 1071). `OnesSum` is the receiver's sum, with an end-around
 * carry at every addition; the program adds in 32 bits and folds the carries at the end.
 */
module Checksum {
  import opened Wire

  const ONES := 0xffff

  /** Ones'-complement addition. */
  function OnesAdd(a: nat, b: nat): nat {
    if a + b > ONES then a + b - ONES else a + b
  }

  /** The receiver's sum of the whole 16-bit words before `i`. */
  function OnesTo(data: Bytes, i: nat): (s: nat)
    requires i <= |data| && i % 2 == 0
    ensures s <= ONES
  {
    if i == 0 then 0 else OnesAdd(OnesTo(data, i - 2), Be16(data[i - 2], data[i - 1]))
  }

  /** An odd last octet counts as a high octet. */
  function LastOctet(data: Bytes): (w: nat)
    ensures w <= ONES
  {
    if |data| % 2 == 1 then 0x100 * data[|data| - 1] as nat else 0
  }

  function OnesSum(data: Bytes): (s: nat)
    ensures s <= ONES
  {
    OnesAdd(OnesTo(data, |data| - |data| % 2), LastOctet(data))
  }

  /** What the checksum field is to hold, if it was 0 in the data. */
  function Complement(data: Bytes): uint16 {
    ONES - OnesSum(data)
  }

  /** The plain sum of the whole words before `i`. */
  function SumTo(data: Bytes, i: nat): nat
    requires i <= |data| && i % 2 == 0
  {
    if i == 0 then 0 else SumTo(data, i - 2) + Be16(data[i - 2], data[i - 1])
  }

  function WordSum(data: Bytes): nat {
    SumTo(data, |data| - |data| % 2) + LastOctet(data)
  }

  /** An odd number of octets is summed as if a zero octet followed (section 1 of RFC 1071). */
  lemma {:induction false} OddIsPadded(data: Bytes)
    requires |data| % 2 == 1
    ensures OnesSum(data) == OnesSum(data + [0])
  {
    var n := |data| - 1;
    SameWords(data, data + [0], n);
    assert (data + [0])[n] == data[n] && (data + [0])[n + 1] == 0;
  }

  lemma {:induction false} SameWords(s: Bytes, t: Bytes, i: nat)
    requires i % 2 == 0 && i <= |s| && i <= |t| && forall k :: 0 <= k < i ==> s[k] == t[k]
    ensures OnesTo(s, i) == OnesTo(t, i)
  {
    if i > 0 {
      SameWords(s, t, i - 2);
    }
  }

  lemma {:induction false} SumToConcat(s: Bytes, t: Bytes, i: nat)
    requires |s| % 2 == 0 && i <= |t| && i % 2 == 0
    ensures SumTo(s + t, |s| + i) == SumTo(s, |s|) + SumTo(t, i)
  {
    if i > 0 {
      SumToConcat(s, t, i - 2);
      assert (s + t)[|s| + i - 2] == t[i - 2] && (s + t)[|s| + i - 1] == t[i - 1];
    } else {
      SameSum(s, s + t, |s|);
    }
  }

  lemma {:induction false} SameSum(s: Bytes, t: Bytes, i: nat)
    requires i % 2 == 0 && i <= |s| && i <= |t| && forall k :: 0 <= k < i ==> s[k] == t[k]
    ensures SumTo(s, i) == SumTo(t, i)
  {
    if i > 0 {
      SameSum(s, t, i - 2);
    }
  }

  /** Behind an even number of octets, sums add up. */
  lemma {:induction false} WordSumConcat(s: Bytes, t: Bytes)
    requires |s| % 2 == 0
    ensures WordSum(s + t) == WordSum(s) + WordSum(t)
  {
    SumToConcat(s, t, |t| - |t| % 2);
    assert |t| % 2 == 1 ==> (s + t)[|s + t| - 1] == t[|t| - 1];
  }

  // ----- folding carries

  /** The number from 1 to 0xffff with the same remainder, or 0 for 0. */
  function Folded(n: nat): (r: nat)
    ensures r <= ONES && (r == 0 <==> n == 0)
  {
    if n == 0 then 0 else 1 + (n - 1) % ONES
  }

  lemma {:induction false} FoldedAdd(a: nat, b: nat)
    requires a <= ONES
    ensures Folded(b + a) == OnesAdd(Folded(b), a)
  {
  }

  /** Adding high and low halves keeps what the sum folds to. */
  lemma {:induction false} FoldStep(n: nat)
    requires n > ONES
    ensures Folded(n / 0x1_0000 + n % 0x1_0000) == Folded(n)
    ensures 0 < n / 0x1_0000 + n % 0x1_0000 < n
  {
  }

  lemma {:induction false} OnesToFolds(data: Bytes, i: nat)
    requires i <= |data| && i % 2 == 0
    ensures OnesTo(data, i) == Folded(SumTo(data, i))
  {
    if i > 0 {
      OnesToFolds(data, i - 2);
      FoldedAdd(Be16(data[i - 2], data[i - 1]), SumTo(data, i - 2));
    }
  }

  /** The receiver's sum is the folded plain sum. */
  lemma {:induction false} OnesSumFolds(data: Bytes)
    ensures OnesSum(data) == Folded(WordSum(data))
  {
    var n := |data| - |data| % 2;
    OnesToFolds(data, n);
    FoldedAdd(LastOctet(data), SumTo(data, n));
  }

  lemma {:induction false} SumToBound(data: Bytes, i: nat)
    requires i <= |data| && i % 2 == 0
    ensures 2 * SumTo(data, i) <= ONES * i
  {
    if i > 0 {
      SumToBound(data, i - 2);
    }
  }

  /** As much data as is sure to add up within 32 bits: 65537 words. */
  const SAFE_LENGTH := 131074

  const MODULUS := 0x1_0000_0000

  lemma {:induction false} AddWraps(a: nat, b: nat)
    ensures (a % MODULUS + b) % MODULUS == (a + b) % MODULUS
  {
    assert a == MODULUS * (a / MODULUS) + a % MODULUS;
    assert a + b == MODULUS * (a / MODULUS) + (a % MODULUS + b);
  }

  lemma {:induction false} SafeSum(data: Bytes)
    requires |data| <= SAFE_LENGTH
    ensures WordSum(data) < MODULUS
  {
    SumToBound(data, |data| - |data| % 2);
  }

  lemma {:induction false} NextWord(data: Bytes, i: nat)
    requires i + 2 <= |data| && i % 2 == 0
    ensures SumTo(data, i + 2) == SumTo(data, i) + Be16(data[i], data[i + 1])
  {
  }

  /** The plain sum in 32 bits. */
  method AddWords(data: Bytes) returns (sum: uint32)
    ensures sum == WordSum(data) % MODULUS
    ensures |data| <= SAFE_LENGTH ==> sum == WordSum(data)
  {
    sum := 0;
    var i := 0;
    while i < |data| - 1
      invariant 0 <= i <= |data| && i % 2 == 0
      invariant sum == SumTo(data, i) % MODULUS
    {
      NextWord(data, i);
      AddWraps(SumTo(data, i), Be16(data[i], data[i + 1]));
      sum := (sum + Be16(data[i], data[i + 1])) % MODULUS;
      i := i + 2;
    }
    assert i == |data| - |data| % 2;
    if |data| % 2 == 1 {
      AddWraps(SumTo(data, i), LastOctet(data));
      sum := (sum + 0x100 * data[|data| - 1] as nat) % MODULUS;
    }
    if |data| <= SAFE_LENGTH {
      SafeSum(data);
    }
  }

  lemma {:induction false} MultipleAdds(k: nat, n: nat)
    ensures (ONES * k + n) % ONES == n % ONES
  {
    var q, r := n / ONES, n % ONES;
    assert ONES * k + n == ONES * (k + q) + r;
  }

  lemma {:induction false} SameRemainder(n: nat, q: nat)
    ensures (n + q) % ONES == n % ONES <==> q % ONES == 0
  {
    var k := (n + q) / ONES - n / ONES;
    assert q == ONES * k + ((n + q) % ONES - n % ONES);
    MultipleAdds(q / ONES, n);
  }

  /** Each wrap-around takes one away from what the sum folds to. */
  lemma {:induction false} WrapsLose(n: nat)
    ensures Folded(n % MODULUS) == Folded(n) <==> (n / MODULUS) % ONES == 0 && (n >= MODULUS ==> n % MODULUS > 0)
  {
    var q, r := n / MODULUS, n % MODULUS;
    assert n == ONES * (0x1_0001 * q) + (q + r);
    if r > 0 {
      MultipleAdds(0x1_0001 * q, r - 1 + q);
      assert n - 1 == ONES * (0x1_0001 * q) + (r - 1 + q);
      SameRemainder(r - 1, q);
    }
  }

  /** The complement of the ones'-complement sum, exactly as long as no wrap-around takes anything away. */
  method CalculateChecksum(data: Bytes) returns (c: uint16)
    ensures var n := WordSum(data);
            c == Complement(data) <==> (n / MODULUS) % ONES == 0 && (n >= MODULUS ==> n % MODULUS > 0)
    ensures c == ONES - Folded(WordSum(data) % MODULUS)
    ensures |data| <= SAFE_LENGTH ==> c == Complement(data)
  {
    var sum: uint32 := AddWords(data);
    ghost var total := sum;
    while sum > ONES
      invariant Folded(sum) == Folded(total)
      decreases sum
    {
      FoldStep(sum);
      sum := sum / 0x1_0000 + sum % 0x1_0000;
    }
    OnesSumFolds(data);
    WrapsLose(WordSum(data));
    if |data| <= SAFE_LENGTH {
      SafeSum(data);
    }
    c := ONES - sum;
  }

  // ----- a checksum in place verifies

  /** Only the two octets at `at` differ, and they were zero. */
  ghost predicate FieldFilled(s: Bytes, t: Bytes, at: nat) {
    && |s| == |t| && at % 2 == 0 && at + 2 <= |s| && s[at] == 0 && s[at + 1] == 0
    && forall i :: 0 <= i < |s| && i != at && i != at + 1 ==> s[i] == t[i]
  }

  lemma {:induction false} FilledSumTo(s: Bytes, t: Bytes, at: nat, i: nat)
    requires FieldFilled(s, t, at) && i <= |s| && i % 2 == 0
    ensures SumTo(t, i) == SumTo(s, i) + if i > at then Be16(t[at], t[at + 1]) else 0
  {
    if i > 0 {
      FilledSumTo(s, t, at, i - 2);
      assert i - 2 == at || (s[i - 2] == t[i - 2] && s[i - 1] == t[i - 1]);
    }
  }

  lemma {:induction false} FilledSum(s: Bytes, t: Bytes, at: nat)
    requires FieldFilled(s, t, at)
    ensures WordSum(t) == WordSum(s) + Be16(t[at], t[at + 1])
  {
    FilledSumTo(s, t, at, |s| - |s| % 2);
  }

  lemma {:induction false} SumVerifies(w: nat, c: nat)
    requires c == ONES - Folded(w) || (Folded(w) == ONES && c == ONES)
    ensures Folded(w + c) == ONES
  {
  }

  /** With the complement in a field that held zero, or ones for 0, the receiver's sum is all ones. */
  lemma {:induction false} ChecksumVerifies(s: Bytes, t: Bytes, at: nat, c: uint16)
    requires FieldFilled(s, t, at) && c == Be16(t[at], t[at + 1])
    requires c == Complement(s) || (Complement(s) == 0 && c == ONES)
    ensures OnesSum(t) == ONES
  {
    FilledSum(s, t, at);
    OnesSumFolds(s);
    OnesSumFolds(t);
    SumVerifies(WordSum(s), c);
  }
}
