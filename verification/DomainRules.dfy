/** Which names the FakeDNS rules take over: a listed domain and all of its subdomains. */
module DomainRules {

  /** `d` is the domain `n` or a subdomain of it. */
  predicate Under(d: string, n: string) {
    d == n || (|d| > |n| && d[|d| - |n|..] == n && d[|d| - |n| - 1] == '.')
  }

  ghost predicate Listed(d: string, names: set<string>) {
    exists n :: n in names && Under(d, n)
  }

  method IndexDot(d: string) returns (idx: int)
    ensures -1 <= idx < |d|
    ensures idx >= 0 ==> d[idx] == '.'
    ensures forall i :: 0 <= i < (if idx < 0 then |d| else idx) ==> d[i] != '.'
  {
    for i := 0 to |d|
      invariant forall j :: 0 <= j < i ==> d[j] != '.'
    {
      if d[i] == '.' {
        return i;
      }
    }
    return -1;
  }

  /** Below the first dot, being under a name is being it or having one's parent under it. */
  lemma {:induction false} UnderParent(d: string, idx: nat, n: string)
    requires idx < |d| && d[idx] == '.' && forall i :: 0 <= i < idx ==> d[i] != '.'
    ensures Under(d, n) <==> d == n || Under(d[idx + 1..], n)
  {
  }

  lemma {:induction false} UnderNoParent(d: string, n: string)
    requires forall i :: 0 <= i < |d| ==> d[i] != '.'
    ensures Under(d, n) <==> d == n
  {
  }

  method MatchDomainSet(domain: string, names: set<string>) returns (found: bool)
    ensures found <==> Listed(domain, names)
  {
    var d := domain;
    while true
      invariant Listed(domain, names) <==> Listed(d, names)
      decreases |d|
    {
      if d in names {
        assert Under(d, d);
        return true;
      }
      var idx := IndexDot(d);
      if idx < 0 {
        forall n | n in names
          ensures !Under(d, n)
        {
          UnderNoParent(d, n);
        }
        return false;
      }
      forall n | n in names
        ensures Under(d, n) <==> Under(d[idx + 1..], n)
      {
        UnderParent(d, idx, n);
      }
      d := d[idx + 1..];
    }
  }

  /** A list of included names says what is taken over; a list of excluded ones alone, what is not. */
  method ShouldUseFakeIP(lowered: string, included: set<string>, excluded: set<string>) returns (use: bool)
    ensures use <==> if included != {} then Listed(lowered, included) else excluded != {} && !Listed(lowered, excluded)
  {
    if included != {} {
      use := MatchDomainSet(lowered, included);
      return use;
    }
    if excluded != {} {
      var hit := MatchDomainSet(lowered, excluded);
      return !hit;
    }
    return false;
  }

  /** A listed domain and the names with something and a dot in front of it, and no others. */
  lemma {:induction false} UnderIff(d: string, n: string)
    ensures Under(d, n) <==> d == n || exists front :: d == front + "." + n
  {
    if Under(d, n) && d != n {
      assert d == d[..|d| - |n| - 1] + "." + n;
    }
    if front :| d == front + "." + n {
      assert d[|front| + 1..] == n;
    }
  }

  /** A rule that covers a name covers its subdomains. */
  lemma {:induction false} SubdomainsFollow(d: string, front: string, names: set<string>)
    requires Listed(d, names)
    ensures Listed(front + "." + d, names)
  {
  }
}
