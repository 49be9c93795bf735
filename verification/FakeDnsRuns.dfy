/**
 * What the FakeDNS map keeps over whole runs: names and entries are inverse, every route belongs to an entry
 * in use, the firewall's rules are the routes; and exactly when a step would break one of these.
 */
module FakeDnsRuns {
  import opened Wire
  import opened FakeDns

  /** Names and entries of one family are inverse to each other. */
  ghost predicate Inverse<A(!new)>(active: map<A, Entry>, names: map<string, A>) {
    && (forall d {:trigger d in names} :: d in names ==> names[d] in active && active[names[d]].domain == d)
    && (forall a {:trigger a in active} :: a in active ==> active[a].domain in names && names[active[a].domain] == a)
  }

  ghost predicate RulesMatch(s: State) {
    forall a, r :: (a, r) in s.rules <==> a in s.routes && s.routes[a] == r
  }

  /** Every route goes somewhere and belongs to an address in use. */
  ghost predicate RoutesInUse(s: State) {
    forall a <- s.routes :: InUse(s, a) && s.routes[a] != ""
  }

  ghost predicate Consistent(s: State) {
    && Inverse(s.active, s.names) && Inverse(s.active6, s.names6)
    && RulesMatch(s) && RoutesInUse(s)
  }

  // ----- allocation, one family

  function Allocated<A>(active: map<A, Entry>, a: A, domain: string, now: int): map<A, Entry> {
    active[a := Entry(domain, now, None)]
  }

  /** Giving a new name an address keeps names and entries inverse exactly if the address was free. */
  lemma {:induction false} AllocateIff<A(!new)>(active: map<A, Entry>, names: map<string, A>, a: A, domain: string,
                                                now: int)
    requires Inverse(active, names) && !Held(active, names, domain)
    ensures Inverse(Allocated(active, a, domain, now), names[domain := a]) <==> a !in active
  {
    if a in active {
      var d := active[a].domain;
      assert d in names && names[d] == a && d != domain;
      assert d in names[domain := a] && names[domain := a][d] == a;
    }
  }

  lemma {:induction false} TouchKeepsInverse<A(!new)>(active: map<A, Entry>, names: map<string, A>, a: A, e: Entry)
    requires Inverse(active, names) && a in active && e.domain == active[a].domain
    ensures Inverse(active[a := e], names)
  {
  }

  lemma {:induction false} DropKeepsInverse<A(!new)>(active: map<A, Entry>, names: map<string, A>, ips: set<A>)
    requires Inverse(active, names)
    ensures Inverse(active - ips, names - Domains(active, ips))
  {
  }

  /** An acquisition keeps the v4 maps inverse exactly if the domain has an address or the next slot is free. */
  lemma {:induction false} AcquireKeepsInverseIff(p: Pool, s: State, domain: string, now: int)
    requires ValidPool(p) && Inverse(s.active, s.names)
    ensures var t := Acquired(p, s, domain, now);
            Inverse(t.active, t.names)
            <==> Held(s.active, s.names, domain) || Slot(p, NextCount(s.counter)) !in s.active
  {
    if Held(s.active, s.names, domain) {
      TouchKeepsInverse(s.active, s.names, s.names[domain], s.active[s.names[domain]].(lastAccess := now));
    } else {
      AllocateIff(s.active, s.names, Slot(p, NextCount(s.counter)), domain, now);
    }
  }

  lemma {:induction false} Acquire6KeepsInverseIff(p: Pool, s: State, domain: string, now: int)
    requires Inverse(s.active6, s.names6)
    ensures var t := Acquired6(p, s, domain, now);
            Inverse(t.active6, t.names6)
            <==> Held(s.active6, s.names6, domain) || Next6(p, s.cursor).0 !in s.active6
  {
    if Held(s.active6, s.names6, domain) {
      TouchKeepsInverse(s.active6, s.names6, s.names6[domain], s.active6[s.names6[domain]].(lastAccess := now));
    } else {
      AllocateIff(s.active6, s.names6, Next6(p, s.cursor).0, domain, now);
    }
  }

  /** A free address has no route and no rule: it does not start with an old route. */
  lemma {:induction false} FreeHasNoRoute(s: State, a: Addr)
    requires RulesMatch(s) && RoutesInUse(s) && !InUse(s, a)
    ensures a !in s.routes && forall r :: (a, r) !in s.rules
  {
  }

  // ----- the next slot is free

  /** For every entry in use, which allocation gave it its address. */
  ghost predicate BirthsRight(p: Pool, s: State, births: map<uint32, nat>)
    requires ValidPool(p)
  {
    forall ip <- s.active :: ip in births && births[ip] <= s.counter && Slot(p, births[ip]) == ip
  }

  /** The counter does not overflow, and no entry has seen as many allocations as there are addresses. */
  ghost predicate Spaced(p: Pool, s: State, births: map<uint32, nat>)
    requires ValidPool(p)
  {
    && s.counter + 1 < 0x1_0000_0000
    && forall ip <- s.active :: ip in births ==> s.counter + 1 - births[ip] < Size(p)
  }

  lemma {:induction false} SlotsDiffer(p: Pool, b: nat, c: nat)
    requires ValidPool(p) && b < c < b + Size(p)
    ensures Slot(p, b) != Slot(p, c)
  {
    var n := Size(p);
    if b % n == c % n {
      var q, r := c / n, b / n;
      assert c - b == n * (q - r);
      if q - r >= 1 {
        ProductAtLeast(n, q - r);
      } else {
        ProductAtMost(n, q - r);
      }
    }
  }

  lemma {:induction false} ProductAtLeast(n: nat, k: int)
    requires k >= 1
    ensures n * k >= n
  {
  }

  lemma {:induction false} ProductAtMost(n: nat, k: int)
    requires k <= 0
    ensures n * k <= 0
  {
  }

  lemma {:induction false} SpacedSlotIsFree(p: Pool, s: State, births: map<uint32, nat>)
    requires ValidPool(p) && BirthsRight(p, s, births) && Spaced(p, s, births)
    ensures NextCount(s.counter) == s.counter + 1 && Slot(p, NextCount(s.counter)) !in s.active
  {
    var ip := Slot(p, NextCount(s.counter));
    if ip in s.active {
      SlotsDiffer(p, births[ip], s.counter + 1);
    }
  }

  // ----- rules and routes

  /** Adding a route keeps rules and routes the same exactly unless a delete succeeds and the add behind it fails. */
  lemma {:induction false} AddKeepsRulesIff(s: State, a: Addr, target: string, delOk: bool, addOk: bool)
    requires RulesMatch(s) && RoutesInUse(s)
    ensures RulesMatch(Routed(s, a, target, delOk, addOk))
       <==> !(a in s.routes && s.routes[a] != target && delOk && !addOk)
  {
  }

  /**
   * With rules that match the routes: after a route has been added, its target is the address's only rule; after
   * a refusal the old route stays. No other address's route or rule changes.
   */
  lemma {:induction false} AddedIsOnlyRule(s: State, a: Addr, target: string, delOk: bool, addOk: bool)
    requires RulesMatch(s) && RoutesInUse(s) && InUse(s, a)
    ensures var t := Routed(s, a, target, delOk, addOk);
            var ok := (a in s.routes && s.routes[a] == target) || (addOk && (a in s.routes ==> delOk));
            && (forall r :: (a, r) in t.rules <==>
                  if ok then r == target else a in s.routes && r == s.routes[a] && !delOk)
            && t.routes == (if ok then s.routes[a := target] else s.routes)
            && forall b, r :: b != a ==> ((b, r) in t.rules <==> (b, r) in s.rules)
  {
    assert a in s.routes ==> s.routes[a] != "";
  }

  /** Removing a route keeps them the same exactly if the firewall obeys or there is nothing to remove. */
  lemma {:induction false} RemoveKeepsRulesIff(s: State, a: Addr, delOk: bool)
    requires RulesMatch(s)
    ensures RulesMatch(Unrouted(s, a, delOk)) <==> a !in s.routes || delOk
  {
    if a in s.routes && !delOk {
      assert (a, s.routes[a]) in Unrouted(s, a, delOk).rules;
    }
  }

  lemma {:induction false} ClearKeepsRulesIff(s: State, gone: set<Addr>, failing: set<Addr>)
    requires RulesMatch(s)
    ensures RulesMatch(Cleared(s, gone, failing)) <==> forall a <- gone :: a in failing ==> a !in s.routes
  {
    var t := Cleared(s, gone, failing);
    if a :| a in gone && a in failing && a in s.routes {
      assert (a, s.routes[a]) in t.rules && a !in t.routes;
    } else {
      forall a, r
        ensures (a, r) in t.rules <==> a in t.routes && t.routes[a] == r
      {
        assert (a, r) in s.rules <==> a in s.routes && s.routes[a] == r;
      }
    }
  }

  // ----- runs

  datatype Op = Acquire(domain: string) | Acquire6(domain6: string) | Lookup(a: Addr) | Schedule(a: Addr, ttl: nat)
              | Add(a: Addr, target: string, delOk: bool, addOk: bool) | Remove(a: Addr, delOk: bool)
              | Cleanup(failing: set<Addr>)

  datatype Event = Event(op: Op, at: int)

  function After(p: Pool, s: State, e: Event): State
    requires ValidPool(p)
  {
    match e.op
    case Acquire(domain) => Acquired(p, s, domain, e.at)
    case Acquire6(domain) => Acquired6(p, s, domain, e.at)
    case Lookup(a) => Touched(s, a, e.at)
    case Schedule(a, ttl) => Scheduled(s, a, ttl, e.at)
    case Add(a, target, delOk, addOk) => Routed(s, a, target, delOk, addOk)
    case Remove(a, delOk) => Unrouted(s, a, delOk)
    case Cleanup(failing) => Cleared(s, ExpiredAddrs(s, e.at), failing)
  }

  function Births(p: Pool, s: State, births: map<uint32, nat>, e: Event): map<uint32, nat>
    requires ValidPool(p)
  {
    if e.op.Acquire? && !Held(s.active, s.names, e.op.domain)
    then births[Slot(p, NextCount(s.counter)) := NextCount(s.counter)] else births
  }

  /** What a step must not do: outrun the pool, wrap the v6 cursor, route nowhere, or meet a failing firewall. */
  ghost predicate Calm(p: Pool, s: State, births: map<uint32, nat>, e: Event)
    requires ValidPool(p)
  {
    match e.op
    case Acquire(domain) => Held(s.active, s.names, domain) || Spaced(p, s, births)
    case Acquire6(domain) => Held(s.active6, s.names6, domain) || p.min6 + s.cursor <= p.max6
    case Lookup(_) => true
    case Schedule(_, _) => true
    case Add(a, target, delOk, addOk) =>
      target != "" && !(a in s.routes && s.routes[a] != target && delOk && !addOk)
    case Remove(a, delOk) => a in s.routes ==> delOk
    case Cleanup(failing) => forall a <- failing :: a !in s.routes
  }

  function Run(p: Pool, s: State, es: seq<Event>): State
    requires ValidPool(p)
    decreases |es|
  {
    if es == [] then s else Run(p, After(p, s, es[0]), es[1..])
  }

  ghost predicate CalmRun(p: Pool, s: State, births: map<uint32, nat>, es: seq<Event>)
    requires ValidPool(p)
    decreases |es|
  {
    es == [] || (Calm(p, s, births, es[0]) && CalmRun(p, After(p, s, es[0]), Births(p, s, births, es[0]), es[1..]))
  }

  /** While the v6 cursor has not wrapped, all v6 addresses in use are below it. */
  ghost predicate Below(p: Pool, s: State) {
    forall ip <- s.active6 :: ip < p.min6 + s.cursor
  }

  ghost predicate Sound(p: Pool, s: State, births: map<uint32, nat>)
    requires ValidPool(p)
  {
    Consistent(s) && BirthsRight(p, s, births) && Below(p, s)
  }

  lemma {:induction false} AcquireKeeps(p: Pool, s: State, births: map<uint32, nat>, e: Event)
    requires ValidPool(p) && Sound(p, s, births) && e.op.Acquire? && Calm(p, s, births, e)
    ensures Sound(p, After(p, s, e), Births(p, s, births, e))
  {
    AcquireKeepsInverseIff(p, s, e.op.domain, e.at);
    if !Held(s.active, s.names, e.op.domain) {
      SpacedSlotIsFree(p, s, births);
    }
    SameRoutes(s, After(p, s, e));
  }

  lemma {:induction false} Acquire6Keeps(p: Pool, s: State, births: map<uint32, nat>, e: Event)
    requires ValidPool(p) && Sound(p, s, births) && e.op.Acquire6? && Calm(p, s, births, e)
    ensures Sound(p, After(p, s, e), births)
  {
  }

  lemma {:induction false} LookupKeeps(p: Pool, s: State, births: map<uint32, nat>, e: Event)
    requires ValidPool(p) && Sound(p, s, births) && (e.op.Lookup? || e.op.Schedule?)
    ensures Sound(p, After(p, s, e), births)
  {
    var t := After(p, s, e);
    match e.op.a {
      case V4(ip) => if ip in s.active { TouchKeepsInverse(s.active, s.names, ip, t.active[ip]); }
      case V6(ip) => if ip in s.active6 { TouchKeepsInverse(s.active6, s.names6, ip, t.active6[ip]); }
    }
    SameRoutes(s, t);
  }

  /** Where routes and rules stay and nothing in use is given up, they still fit. */
  lemma {:induction false} SameRoutes(s: State, t: State)
    requires RulesMatch(s) && RoutesInUse(s)
    requires t.routes == s.routes && t.rules == s.rules
    requires s.active.Keys <= t.active.Keys && s.active6.Keys <= t.active6.Keys
    ensures RulesMatch(t) && RoutesInUse(t)
  {
  }

  lemma {:induction false} RouteKeeps(p: Pool, s: State, births: map<uint32, nat>, e: Event)
    requires ValidPool(p) && Sound(p, s, births) && (e.op.Add? || e.op.Remove?) && Calm(p, s, births, e)
    ensures Sound(p, After(p, s, e), births)
  {
    match e.op {
      case Add(a, target, delOk, addOk) => AddKeepsRulesIff(s, a, target, delOk, addOk);
      case Remove(a, delOk) => RemoveKeepsRulesIff(s, a, delOk);
    }
    var t := After(p, s, e);
    forall a | a in t.routes
      ensures InUse(t, a)
    {
      assert a in s.routes || (e.op.Add? && a == e.op.a);
    }
  }

  lemma {:induction false} CleanupKeeps(p: Pool, s: State, births: map<uint32, nat>, e: Event)
    requires ValidPool(p) && Sound(p, s, births) && e.op.Cleanup? && Calm(p, s, births, e)
    ensures Sound(p, After(p, s, e), births)
  {
    var gone := ExpiredAddrs(s, e.at);
    DropKeepsInverse(s.active, s.names, IPs4(gone));
    DropKeepsInverse(s.active6, s.names6, IPs6(gone));
    ClearKeepsRulesIff(s, gone, e.op.failing);
    var t := After(p, s, e);
    forall a | a in t.routes
      ensures InUse(t, a)
    {
      assert InUse(s, a) && a !in gone;
      assert a.V4? ==> V4(a.ip) == a;
      assert a.V6? ==> V6(a.ip6) == a;
    }
  }

  lemma {:induction false} StepKeeps(p: Pool, s: State, births: map<uint32, nat>, e: Event)
    requires ValidPool(p) && Sound(p, s, births) && Calm(p, s, births, e)
    ensures Sound(p, After(p, s, e), Births(p, s, births, e))
  {
    match e.op
    case Acquire(_) => AcquireKeeps(p, s, births, e);
    case Acquire6(_) => Acquire6Keeps(p, s, births, e);
    case Lookup(_) => LookupKeeps(p, s, births, e);
    case Schedule(_, _) => LookupKeeps(p, s, births, e);
    case Add(_, _, _, _) => RouteKeeps(p, s, births, e);
    case Remove(_, _) => RouteKeeps(p, s, births, e);
    case Cleanup(_) => CleanupKeeps(p, s, births, e);
  }

  lemma {:induction false} RunKeeps(p: Pool, s: State, births: map<uint32, nat>, es: seq<Event>)
    requires ValidPool(p) && Sound(p, s, births) && CalmRun(p, s, births, es)
    ensures Consistent(Run(p, s, es))
    decreases |es|
  {
    if es != [] {
      StepKeeps(p, s, births, es[0]);
      RunKeeps(p, After(p, s, es[0]), Births(p, s, births, es[0]), es[1..]);
    }
  }

  /**
   * From an empty map, over every run in which no entry lives through as many allocations as there are
   * addresses, the counter and the v6 cursor do not wrap and the firewall obeys.
   */
  lemma {:induction false} RunsStayConsistent(p: Pool, es: seq<Event>)
    requires ValidPool(p) && CalmRun(p, EMPTY, map[], es)
    ensures Consistent(Run(p, EMPTY, es))
  {
    RunKeeps(p, EMPTY, map[], es);
  }

  // ----- when an address was last used

  /** The event uses the address: a lookup, or an acquisition for a domain that holds it or is given it. */
  predicate Uses(p: Pool, s: State, e: Event, a: Addr)
    requires ValidPool(p)
  {
    match e.op
    case Acquire(d) => a == V4(if Held(s.active, s.names, d) then s.names[d] else Slot(p, NextCount(s.counter)))
    case Acquire6(d) => a == V6(if Held(s.active6, s.names6, d) then s.names6[d] else Next6(p, s.cursor).0)
    case Lookup(b) => a == b && InUse(s, a)
    case _ => false
  }

  /** An address is last accessed when it was last used, and nothing else comes into use or is stamped. */
  lemma {:induction false} UseIsStamped(p: Pool, s: State, e: Event, a: Addr)
    requires ValidPool(p) && !e.op.Cleanup?
    ensures var t := After(p, s, e);
            && (InUse(t, a) <==> InUse(s, a) || Uses(p, s, e, a))
            && (InUse(t, a) ==> EntryAt(t, a).lastAccess == if Uses(p, s, e, a) then e.at else EntryAt(s, a).lastAccess)
  {
    if e.op.Acquire? || e.op.Acquire6? {
      AcquiringIsStamped(p, s, e, a);
    } else if e.op.Lookup? || e.op.Schedule? {
      LookupIsStamped(p, s, e, a);
    }
  }

  lemma {:induction false} AcquiringIsStamped(p: Pool, s: State, e: Event, a: Addr)
    requires ValidPool(p) && (e.op.Acquire? || e.op.Acquire6?)
    ensures var t := After(p, s, e);
            && (InUse(t, a) <==> InUse(s, a) || Uses(p, s, e, a))
            && (InUse(t, a) ==> EntryAt(t, a).lastAccess == if Uses(p, s, e, a) then e.at else EntryAt(s, a).lastAccess)
  {
  }

  lemma {:induction false} LookupIsStamped(p: Pool, s: State, e: Event, a: Addr)
    requires ValidPool(p) && (e.op.Lookup? || e.op.Schedule?)
    ensures var t := After(p, s, e);
            && (InUse(t, a) <==> InUse(s, a) || Uses(p, s, e, a))
            && (InUse(t, a) ==> EntryAt(t, a).lastAccess == if Uses(p, s, e, a) then e.at else EntryAt(s, a).lastAccess)
  {
  }

  /** A cleanup takes away just the addresses not used for more than two hours. */
  lemma {:induction false} CleanupSparesUsed(p: Pool, s: State, e: Event, a: Addr)
    requires ValidPool(p) && e.op.Cleanup?
    ensures var t := After(p, s, e);
            && (InUse(t, a) <==> InUse(s, a) && e.at - EntryAt(s, a).lastAccess <= 7200)
            && (InUse(t, a) ==> EntryAt(t, a) == EntryAt(s, a))
  {
    ExpiredGo(s, e.op.failing, e.at);
  }

  /** When the address was last used in the run, if that is known. */
  ghost function LastUse(p: Pool, s: State, es: seq<Event>, a: Addr, known: Option<int>): Option<int>
    requires ValidPool(p)
    decreases |es|
  {
    if es == [] then known
    else LastUse(p, After(p, s, es[0]), es[1..], a, if Uses(p, s, es[0], a) then Some(es[0].at) else known)
  }

  /** Over every run, an address in use that was not in use at first was last accessed at its last use. */
  lemma {:induction false} AccessIsLastUse(p: Pool, s: State, es: seq<Event>, a: Addr, known: Option<int>)
    requires ValidPool(p) && (InUse(s, a) ==> known == Some(EntryAt(s, a).lastAccess))
    ensures var t := Run(p, s, es);
            InUse(t, a) ==> LastUse(p, s, es, a, known) == Some(EntryAt(t, a).lastAccess)
    decreases |es|
  {
    if es != [] {
      var e := es[0];
      if e.op.Cleanup? {
        CleanupSparesUsed(p, s, e, a);
      } else {
        UseIsStamped(p, s, e, a);
      }
      AccessIsLastUse(p, After(p, s, e), es[1..], a, if Uses(p, s, e, a) then Some(e.at) else known);
    }
  }

  // ----- renewals

  ghost predicate Chronological(from: int, es: seq<Event>)
    decreases |es|
  {
    es == [] || (from <= es[0].at && Chronological(es[0].at, es[1..]))
  }

  /** A lookup of the address that is told to have it resolved anew. */
  predicate Renews(s: State, e: Event, a: Addr) {
    e.op == Lookup(a) && InUse(s, a) && Due(EntryAt(s, a), HasRoute(s, a), e.at)
  }

  predicate QuietUntil(s: State, a: Addr, time: int) {
    InUse(s, a) && EntryAt(s, a).refreshAt.Some? ==> time <= EntryAt(s, a).refreshAt.value
  }

  /** No lookup up to that time is told to renew. */
  ghost predicate NoRenewalBy(p: Pool, s: State, es: seq<Event>, a: Addr, time: int)
    requires ValidPool(p)
    decreases |es|
  {
    es == [] || (!(Renews(s, es[0], a) && es[0].at <= time) && NoRenewalBy(p, After(p, s, es[0]), es[1..], a, time))
  }

  /** After each renewal there is none for the shortest time. */
  ghost predicate RenewalsApart(p: Pool, s: State, es: seq<Event>, a: Addr)
    requires ValidPool(p)
    decreases |es|
  {
    es == [] ||
    (var t := After(p, s, es[0]);
     && (Renews(s, es[0], a) ==> NoRenewalBy(p, t, es[1..], a, es[0].at + MIN_REFRESH))
     && RenewalsApart(p, t, es[1..], a))
  }

  /** Looked up or resolved, or given out anew even while in use. */
  lemma {:induction false} UseStaysQuiet(p: Pool, s: State, e: Event, a: Addr, time: int)
    requires ValidPool(p) && QuietUntil(s, a, time) && time <= e.at + MIN_REFRESH
    requires e.op.Acquire? || e.op.Acquire6? || e.op.Lookup? || e.op.Schedule?
    ensures QuietUntil(After(p, s, e), a, time)
  {
  }

  /** Given up, or routed. */
  lemma {:induction false} StaysQuiet(p: Pool, s: State, e: Event, a: Addr, time: int)
    requires ValidPool(p) && QuietUntil(s, a, time) && time <= e.at + MIN_REFRESH
    ensures QuietUntil(After(p, s, e), a, time)
  {
    if e.op.Acquire? || e.op.Acquire6? || e.op.Lookup? || e.op.Schedule? {
      UseStaysQuiet(p, s, e, a, time);
    }
  }

  lemma {:induction false} QuietHasNoRenewal(p: Pool, s: State, es: seq<Event>, a: Addr, from: int, time: int)
    requires ValidPool(p) && QuietUntil(s, a, time) && Chronological(from, es) && time <= from + MIN_REFRESH
    ensures NoRenewalBy(p, s, es, a, time)
    decreases |es|
  {
    if es != [] {
      StaysQuiet(p, s, es[0], a, time);
      QuietHasNoRenewal(p, After(p, s, es[0]), es[1..], a, es[0].at, time);
    }
  }

  /**
   * However many packets meet a mapping that is due, and whatever else happens: two lookups that are told to
   * renew the same address are more than the shortest time apart.
   */
  lemma {:induction false} RenewalsAreApart(p: Pool, s: State, es: seq<Event>, a: Addr, from: int)
    requires ValidPool(p) && Chronological(from, es)
    ensures RenewalsApart(p, s, es, a)
    decreases |es|
  {
    if es != [] {
      var t := After(p, s, es[0]);
      if Renews(s, es[0], a) {
        QuietHasNoRenewal(p, t, es[1..], a, es[0].at, es[0].at + MIN_REFRESH);
      }
      RenewalsAreApart(p, t, es[1..], a, es[0].at);
    }
  }

  // ----- the v6 cursor

  /** Where the cursor is after so many allocations. */
  function CursorAfter(p: Pool, n: nat): nat {
    if n == 0 then 0 else Next6(p, CursorAfter(p, n - 1)).1
  }

  /** The address the n-th allocation gives, counting from 0. */
  function Given6(p: Pool, n: nat): nat {
    Next6(p, CursorAfter(p, n)).0
  }

  lemma {:induction false} CursorIs(p: Pool, n: nat, size: nat, round: nat, k: nat)
    requires p.min6 <= p.max6 && size == p.max6 - p.min6 + 1 && n == round * (size + 1) + k && k <= size
    ensures CursorAfter(p, n) == k
    decreases n
  {
    if k > 0 {
      CursorIs(p, n - 1, size, round, k - 1);
    } else if n > 0 {
      assert round > 0;
      assert (round - 1) * (size + 1) + size == n - 1;
      CursorIs(p, n - 1, size, round - 1, size);
    }
  }

  /**
   * The cursor goes through the range in rounds of one more than its size: each address once, and then the
   * first one once more. So addresses are distinct within the first round only up to its last allocation.
   */
  lemma {:induction false} V6Rounds(p: Pool, n: nat, size: nat, round: nat, k: nat)
    requires p.min6 <= p.max6 && size == p.max6 - p.min6 + 1 && n == round * (size + 1) + k && k <= size
    ensures Given6(p, n) == if k < size then p.min6 + k else p.min6
  {
    CursorIs(p, n, size, round, k);
  }

  /** At the wrap the first address comes twice in a row. */
  lemma {:induction false} V6FirstComesTwice(p: Pool)
    requires p.min6 <= p.max6
    ensures var size := p.max6 - p.min6 + 1; Given6(p, size) == p.min6 && Given6(p, size + 1) == p.min6
  {
    var size := p.max6 - p.min6 + 1;
    V6Rounds(p, size, size, 0, size);
    V6Rounds(p, size + 1, size, 1, 0);
  }
}
