/**
 * IPv6 addresses as 128-bit numbers: big-endian octets without leading zeros, put right-aligned into
 * 16 octets, and the range a pool gets from its block.
 */
module BigIp {
  import opened Wire
  import opened CidrBlocks

  /** The number big-endian octets stand for. */
  function Value(s: Bytes): nat {
    if s == [] then 0 else 0x100 * Value(s[..|s| - 1]) + s[|s| - 1] as nat
  }

  /** The octets of a number without leading zeros. */
  function Octets(n: nat): Bytes {
    if n == 0 then [] else Octets(n / 0x100) + [(n % 0x100) as byte]
  }

  function Power(k: nat): (p: nat)
    ensures p > 0
  {
    if k == 0 then 1 else 0x100 * Power(k - 1)
  }

  /** Largest address and one more. */
  const ADDRESSES: nat := 0x1_0000_0000_0000_0000_0000_0000_0000_0000

  method IpToBig(ip: Bytes) returns (n: nat)
    ensures n == Value(ip)
  {
    n := 0;
    for i := 0 to |ip|
      invariant n == Value(ip[..i])
    {
      assert ip[..i + 1][..i] == ip[..i];
      n := 0x100 * n + ip[i] as nat;
    }
    assert ip[..|ip|] == ip;
  }

  /** The octets of the number, right-aligned. */
  method BigToIp(n: nat) returns (ip: array<byte>)
    requires n < ADDRESSES
    ensures fresh(ip) && ip.Length == 16 && Value(ip[..]) == n
  {
    ip := new byte[16](_ => 0);
    OctetsFit(n);
    var buf := Octets(n);
    for i := 0 to |buf|
      invariant forall j :: 0 <= j < 16 - |buf| ==> ip[j] == 0
      invariant forall j :: 0 <= j < i ==> ip[16 - |buf| + j] == buf[j]
    {
      ip[16 - |buf| + i] := buf[i];
    }
    Padded(ip[..], buf);
    OctetsInvert(n);
  }

  lemma {:induction false} ValueSnoc(s: Bytes, b: byte)
    ensures Value(s + [b]) == 0x100 * Value(s) + b as nat
  {
  }

  lemma {:induction false} OctetsInvert(n: nat)
    ensures Value(Octets(n)) == n
  {
    if n > 0 {
      OctetsInvert(n / 0x100);
      ValueSnoc(Octets(n / 0x100), (n % 0x100) as byte);
    }
  }

  lemma {:induction false} OctetsBound(n: nat, k: nat)
    ensures n < Power(k) <==> |Octets(n)| <= k
    decreases k
  {
    if n > 0 && k > 0 {
      OctetsBound(n / 0x100, k - 1);
    }
  }

  lemma {:induction false} OctetsFit(n: nat)
    requires n < ADDRESSES
    ensures |Octets(n)| <= 16
  {
    OctetsBound(n, 16);
    PowerIs();
  }

  lemma {:induction false} PowerIs()
    ensures Power(16) == ADDRESSES
  {
    assert Power(4) == 0x1_0000_0000;
    assert Power(8) == 0x1_0000_0000_0000_0000;
  }

  /** Leading zeros do not count. */
  lemma {:induction false} Padded(s: Bytes, t: Bytes)
    requires |t| <= |s| && forall i :: 0 <= i < |s| - |t| ==> s[i] == 0
    requires forall i :: 0 <= i < |t| ==> s[|s| - |t| + i] == t[i]
    ensures Value(s) == Value(t)
    decreases |s|
  {
    if s != [] {
      if t == [] {
        Padded(s[..|s| - 1], t);
      } else {
        Padded(s[..|s| - 1], t[..|t| - 1]);
      }
    }
  }

  /** Octets of the same number are the same, if they are as many: going to a number and back gives the address. */
  lemma {:induction false} ValueDetermines(s: Bytes, t: Bytes)
    requires |s| == |t| && Value(s) == Value(t)
    ensures s == t
    decreases |s|
  {
    if s != [] {
      var n := |s| - 1;
      ValueDetermines(s[..n], t[..n]);
      assert s == s[..n] + [s[n]] && t == t[..n] + [t[n]];
    }
  }

  // ----- the range of a pool

  /** The gateway is behind the network address, and the range behind the gateway, up to the last address. */
  method InitV6(b: Block) returns (ok: bool, gateway: nat, start: nat, end: int)
    requires Parsed(b)
    ensures ok <==> b.v6 && b.ones < 128
    ensures ok ==> forall n: nat ::
                     (Contains(b, Address(true, n)) <==> n == b.network || n == gateway || start <= n <= end)
    ensures ok ==> b.network < gateway < start
  {
    if !b.v6 || b.ones >= 128 {
      return false, 0, 0, 0;
    }
    var hosts := Pow2(128 - b.ones);
    gateway, start, end := b.network + 1, b.network + 2, b.network + (hosts - 1);
    forall n: nat
      ensures Contains(b, Address(true, n)) <==> b.network <= n < b.network + hosts
    {
      ContainsIff(b, Address(true, n));
    }
    assert hosts == 2 * Pow2(127 - b.ones);
    return true, gateway, start, end;
  }
}
