/** Address blocks: membership by masking, as intervals, and when two blocks share an address. */
module CidrBlocks {
  datatype Address = Address(v6: bool, n: nat)

  /** A parsed CIDR: the network address and the length of the prefix. */
  datatype Block = Block(v6: bool, network: nat, ones: nat)

  function Pow2(n: nat): (p: nat)
    ensures p > 0
  {
    if n == 0 then 1 else 2 * Pow2(n - 1)
  }

  function Bits(v6: bool): nat {
    if v6 then 128 else 32
  }

  function Size(b: Block): (n: nat)
    requires b.ones <= Bits(b.v6)
    ensures n > 0
  {
    Pow2(Bits(b.v6) - b.ones)
  }

  /** What parsing yields: the host bits of the network address are zero. */
  predicate Parsed(b: Block) {
    b.ones <= Bits(b.v6) && b.network % Size(b) == 0
  }

  /** The address without its host bits is the network. */
  predicate Contains(b: Block, a: Address)
    requires Parsed(b)
  {
    a.v6 == b.v6 && a.n / Size(b) == b.network / Size(b)
  }

  predicate Overlaps(a: Block, b: Block)
    requires Parsed(a) && Parsed(b)
  {
    Contains(a, Address(b.v6, b.network)) || Contains(b, Address(a.v6, a.network))
  }

  /** A block is the interval from its network address on. */
  lemma {:induction false} ContainsIff(b: Block, a: Address)
    requires Parsed(b)
    ensures Contains(b, a) <==> a.v6 == b.v6 && b.network <= a.n < b.network + Size(b)
  {
    QuotientIff(b.network, Size(b), a.n);
  }

  lemma {:induction false} QuotientIff(m: nat, s: nat, n: nat)
    requires s > 0 && m % s == 0
    ensures n / s == m / s <==> m <= n < m + s
  {
    var q := m / s;
    assert m == s * q;
    if n / s == q {
      assert n == s * q + n % s;
    }
    if m <= n < m + s {
      QuotientIs(n, s, q, n - m);
    }
  }

  lemma {:induction false} QuotientIs(n: nat, s: nat, q: nat, r: nat)
    requires r < s && n == s * q + r
    ensures n / s == q
  {
    var p := n / s;
    assert s * p <= n < s * p + s;
    Next(s, p);
    Next(s, q);
    Cancel(s, p, q + 1);
    Cancel(s, q, p + 1);
  }

  lemma {:induction false} Next(s: nat, a: nat)
    ensures s * (a + 1) == s * a + s
  {
  }

  lemma {:induction false} Cancel(s: nat, a: nat, b: nat)
    requires s * a < s * b
    ensures a < b
  {
  }

  lemma {:induction false} Monotone(s: nat, a: nat, b: nat)
    requires a <= b
    ensures s * a <= s * b
  {
  }

  lemma {:induction false} Pow2Adds(a: nat, b: nat)
    ensures Pow2(a + b) == Pow2(a) * Pow2(b)
  {
    if a > 0 {
      Pow2Adds(a - 1, b);
    }
  }

  /** An aligned interval that meets a coarser aligned one starts in it. */
  lemma {:induction false} AlignedInside(m: nat, s: nat, k: nat, start: nat, x: nat)
    requires s > 0 && k > 0 && m % s == 0 && start % (s * k) == 0
    requires m <= x < m + s && start <= x < start + s * k
    ensures start <= m < start + s * k
  {
    var fine, coarse := m / s, start / (s * k);
    assert m == s * fine && start == (s * k) * coarse;
    Associates(s, k, coarse);
    Next(s, fine);
    Cancel(s, k * coarse, fine + 1);
    Monotone(s, k * coarse, fine);
  }

  lemma {:induction false} Associates(s: nat, k: nat, q: nat)
    ensures (s * k) * q == s * (k * q)
  {
  }

  /** A smaller block that meets a larger one has its network address in it. */
  lemma {:induction false} SmallerInside(a: Block, b: Block, x: Address)
    requires Parsed(a) && Parsed(b) && a.ones >= b.ones && Contains(a, x) && Contains(b, x)
    ensures Contains(b, Address(a.v6, a.network))
  {
    ContainsIff(a, x);
    ContainsIff(b, x);
    ContainsIff(b, Address(a.v6, a.network));
    var k := Pow2(a.ones - b.ones);
    Pow2Adds(Bits(a.v6) - a.ones, a.ones - b.ones);
    assert Size(b) == Size(a) * k;
    AlignedInside(a.network, Size(a), k, b.network, x.n);
  }

  /** The test on the two network addresses is true exactly if the blocks share an address. */
  lemma {:induction false} OverlapsIff(a: Block, b: Block)
    requires Parsed(a) && Parsed(b)
    ensures Overlaps(a, b) <==> exists x :: Contains(a, x) && Contains(b, x)
  {
    if Overlaps(a, b) {
      var x := if Contains(a, Address(b.v6, b.network)) then Address(b.v6, b.network) else Address(a.v6, a.network);
      ContainsIff(a, x);
      ContainsIff(b, x);
      assert Contains(a, x) && Contains(b, x);
    } else {
      forall x
        ensures !(Contains(a, x) && Contains(b, x))
      {
        if Contains(a, x) && Contains(b, x) {
          if a.ones >= b.ones {
            SmallerInside(a, b, x);
          } else {
            SmallerInside(b, a, x);
          }
        }
      }
    }
  }
}
