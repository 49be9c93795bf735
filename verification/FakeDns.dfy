/**
 * The FakeDNS address map: domains get fake addresses from a counter, fake addresses get routes to real ones,
 * and the firewall holds a translation rule for each route. Entries and addresses are values; texts of
 * addresses are one to one with them.
 */
module FakeDns {
  import opened Wire

  datatype Addr = V4(ip: uint32) | V6(ip6: nat)

  /** An entry; `refreshAt` is when its name is to be resolved anew, once that has been set. */
  datatype Entry = Entry(domain: string, lastAccess: int, refreshAt: Option<int>)

  /** The allocatable range of each family. */
  datatype Pool = Pool(min: uint32, max: uint32, min6: nat, max6: nat)

  predicate ValidPool(p: Pool) {
    p.min <= p.max && p.max - p.min + 1 < 0x1_0000_0000 && p.min6 <= p.max6
  }

  /** Seconds without access after which an address is given up. */
  const IDLE_LIMIT := 7200

  /** The shortest time between two resolutions. */
  const MIN_REFRESH := 60

  datatype State = State(active: map<uint32, Entry>, active6: map<nat, Entry>,
                         names: map<string, uint32>, names6: map<string, nat>,
                         routes: map<Addr, string>, rules: set<(Addr, string)>,
                         counter: uint32, cursor: nat)

  const EMPTY := State(map[], map[], map[], map[], map[], {}, 0, 0)

  function Size(p: Pool): (n: nat)
    requires ValidPool(p)
    ensures n > 0
  {
    p.max - p.min + 1
  }

  /** The address the n-th allocation gives. */
  function Slot(p: Pool, n: nat): (ip: uint32)
    requires ValidPool(p)
    ensures p.min <= ip <= p.max
  {
    p.min + n % Size(p)
  }

  function NextCount(c: uint32): uint32 {
    (c + 1) % 0x1_0000_0000
  }

  /** The domain has an address that is still active. */
  predicate Held<A(==)>(active: map<A, Entry>, names: map<string, A>, domain: string) {
    domain in names && names[domain] in active
  }

  predicate InUse(s: State, a: Addr) {
    match a
    case V4(ip) => ip in s.active
    case V6(ip) => ip in s.active6
  }

  function EntryAt(s: State, a: Addr): Entry
    requires InUse(s, a)
  {
    match a
    case V4(ip) => s.active[ip]
    case V6(ip) => s.active6[ip]
  }

  // ----- what the operations do

  function Acquired(p: Pool, s: State, domain: string, now: int): State
    requires ValidPool(p)
  {
    if Held(s.active, s.names, domain) then
      var ip := s.names[domain];
      s.(active := s.active[ip := s.active[ip].(lastAccess := now)])
    else
      var c := NextCount(s.counter);
      var ip := Slot(p, c);
      s.(active := s.active[ip := Entry(domain, now, None)], names := s.names[domain := ip], counter := c)
  }

  /** The v6 cursor's next address, and where the cursor is then. */
  function Next6(p: Pool, cursor: nat): (nat, nat) {
    if p.min6 + cursor > p.max6 then (p.min6, 0) else (p.min6 + cursor, cursor + 1)
  }

  function Acquired6(p: Pool, s: State, domain: string, now: int): State {
    if Held(s.active6, s.names6, domain) then
      var ip := s.names6[domain];
      s.(active6 := s.active6[ip := s.active6[ip].(lastAccess := now)])
    else
      var (ip, cursor) := Next6(p, s.cursor);
      s.(active6 := s.active6[ip := Entry(domain, now, None)], names6 := s.names6[domain := ip], cursor := cursor)
  }

  predicate HasRoute(s: State, a: Addr) {
    a in s.routes && s.routes[a] != ""
  }

  predicate Due(e: Entry, routed: bool, now: int) {
    routed && e.refreshAt.Some? && now > e.refreshAt.value
  }

  /** A lookup touches the entry; if it is due, the next resolution is put off at once. */
  function Seen(e: Entry, routed: bool, now: int): Entry {
    e.(lastAccess := now, refreshAt := if Due(e, routed, now) then Some(now + MIN_REFRESH) else e.refreshAt)
  }

  function Touched(s: State, a: Addr, now: int): State {
    if !InUse(s, a) then s
    else
      match a
      case V4(ip) => s.(active := s.active[ip := Seen(s.active[ip], HasRoute(s, a), now)])
      case V6(ip) => s.(active6 := s.active6[ip := Seen(s.active6[ip], HasRoute(s, a), now)])
  }

  /** A name was resolved and its answer is good for `ttl` seconds. */
  function Scheduled(s: State, a: Addr, ttl: nat, now: int): State {
    var at := Some(now + if ttl > MIN_REFRESH then ttl else MIN_REFRESH);
    if !InUse(s, a) then s
    else
      match a
      case V4(ip) => s.(active := s.active[ip := s.active[ip].(refreshAt := at)])
      case V6(ip) => s.(active6 := s.active6[ip := s.active6[ip].(refreshAt := at)])
  }

  /** A route is added or replaced; either firewall call may fail. */
  function Routed(s: State, a: Addr, target: string, delOk: bool, addOk: bool): State {
    if !InUse(s, a) || (a in s.routes && s.routes[a] == target) then s
    else if a in s.routes && s.routes[a] != "" then
      var cleared := if delOk then s.rules - {(a, s.routes[a])} else s.rules;
      if !delOk then s
      else if !addOk then s.(rules := cleared)
      else s.(routes := s.routes[a := target], rules := cleared + {(a, target)})
    else if !addOk then s.(routes := s.routes - {a})
    else s.(routes := s.routes[a := target], rules := s.rules + {(a, target)})
  }

  function Unrouted(s: State, a: Addr, delOk: bool): State {
    if a !in s.routes then s
    else s.(routes := s.routes - {a}, rules := if delOk then s.rules - {(a, s.routes[a])} else s.rules)
  }

  predicate Expired(e: Entry, now: int) {
    now - e.lastAccess > IDLE_LIMIT
  }

  /** Gives one address up. */
  function Dropped(s: State, a: Addr, delOk: bool): State
    requires InUse(s, a)
  {
    var forgotten := match a
      case V4(ip) => s.(active := s.active - {ip}, names := s.names - {s.active[ip].domain})
      case V6(ip) => s.(active6 := s.active6 - {ip}, names6 := s.names6 - {s.active6[ip].domain});
    Unrouted(forgotten, a, delOk)
  }

  /** Everything that has expired, in both families. */
  function ExpiredAddrs(s: State, now: int): (gone: set<Addr>)
    ensures forall a <- gone :: InUse(s, a)
  {
    (set ip | ip in s.active && Expired(s.active[ip], now) :: V4(ip))
    + (set ip | ip in s.active6 && Expired(s.active6[ip], now) :: V6(ip))
  }

  function IPs4(gone: set<Addr>): set<uint32> {
    set a | a in gone && a.V4? :: a.ip
  }

  function IPs6(gone: set<Addr>): set<nat> {
    set a | a in gone && a.V6? :: a.ip6
  }

  function Domains<A>(active: map<A, Entry>, ips: set<A>): set<string> {
    set ip | ip in ips && ip in active :: active[ip].domain
  }

  /** All of these addresses given up; the firewall keeps the rules of those in `failing`. */
  function Cleared(s: State, gone: set<Addr>, failing: set<Addr>): State {
    State(s.active - IPs4(gone), s.active6 - IPs6(gone),
          s.names - Domains(s.active, IPs4(gone)), s.names6 - Domains(s.active6, IPs6(gone)),
          s.routes - gone, s.rules - set a | a in s.routes && a in gone && a !in failing :: (a, s.routes[a]),
          s.counter, s.cursor)
  }

  lemma {:induction false} RulesStep(s: State, done: set<Addr>, a: Addr, failing: set<Addr>)
    requires a !in done
    ensures Cleared(s, done + {a}, failing).rules
         == Cleared(s, done, failing).rules - if a in s.routes && a !in failing then {(a, s.routes[a])} else {}
  {
  }

  lemma {:induction false} NotDone(s: State, done: set<Addr>, a: Addr, failing: set<Addr>)
    requires InUse(s, a) && a !in done
    ensures InUse(Cleared(s, done, failing), a) && EntryAt(Cleared(s, done, failing), a) == EntryAt(s, a)
  {
  }

  lemma {:induction false} EntriesStep(s: State, done: set<Addr>, a: Addr, failing: set<Addr>)
    requires InUse(s, a)
    ensures var before, after := Cleared(s, done, failing), Cleared(s, done + {a}, failing);
            var domain := EntryAt(s, a).domain;
            && after.active == (if a.V4? then before.active - {a.ip} else before.active)
            && after.names == (if a.V4? then before.names - {domain} else before.names)
            && after.active6 == (if a.V6? then before.active6 - {a.ip6} else before.active6)
            && after.names6 == (if a.V6? then before.names6 - {domain} else before.names6)
  {
    EntriesStep4(s, done, a, failing);
    EntriesStep6(s, done, a, failing);
  }

  lemma {:induction false} EntriesStep4(s: State, done: set<Addr>, a: Addr, failing: set<Addr>)
    requires InUse(s, a)
    ensures var before, after := Cleared(s, done, failing), Cleared(s, done + {a}, failing);
            && after.active == (if a.V4? then before.active - {a.ip} else before.active)
            && after.names == (if a.V4? then before.names - {EntryAt(s, a).domain} else before.names)
  {
    var ips, all := IPs4(done), IPs4(done + {a});
    assert all == if a.V4? then ips + {a.ip} else ips;
    assert Domains(s.active, all) == Domains(s.active, ips) + if a.V4? then {EntryAt(s, a).domain} else {};
  }

  lemma {:induction false} EntriesStep6(s: State, done: set<Addr>, a: Addr, failing: set<Addr>)
    requires InUse(s, a)
    ensures var before, after := Cleared(s, done, failing), Cleared(s, done + {a}, failing);
            && after.active6 == (if a.V6? then before.active6 - {a.ip6} else before.active6)
            && after.names6 == (if a.V6? then before.names6 - {EntryAt(s, a).domain} else before.names6)
  {
    var ips, all := IPs6(done), IPs6(done + {a});
    assert all == if a.V6? then ips + {a.ip6} else ips;
    assert Domains(s.active6, all) == Domains(s.active6, ips) + if a.V6? then {EntryAt(s, a).domain} else {};
  }

  lemma {:induction false} RoutesStep(s: State, done: set<Addr>, a: Addr, failing: set<Addr>)
    requires a !in done
    ensures Cleared(s, done + {a}, failing).routes == Cleared(s, done, failing).routes - {a}
    ensures a in s.routes <==> a in Cleared(s, done, failing).routes
    ensures a in s.routes ==> Cleared(s, done, failing).routes[a] == s.routes[a]
  {
  }

  /** Clearing goes address by address. */
  lemma {:induction false} ClearStep(s: State, done: set<Addr>, a: Addr, failing: set<Addr>)
    requires InUse(s, a) && a !in done
    ensures InUse(Cleared(s, done, failing), a) && EntryAt(Cleared(s, done, failing), a) == EntryAt(s, a)
    ensures Cleared(s, done + {a}, failing) == Dropped(Cleared(s, done, failing), a, a !in failing)
  {
    NotDone(s, done, a, failing);
    EntriesStep(s, done, a, failing);
    RoutesStep(s, done, a, failing);
    RulesStep(s, done, a, failing);
    var before, after := Cleared(s, done, failing), Cleared(s, done + {a}, failing);
    DropIs(before, after, a, a !in failing);
  }

  /** A state that differs from another as if the address had been given up. */
  lemma {:induction false} DropIs(s: State, t: State, a: Addr, delOk: bool)
    requires InUse(s, a) && t.counter == s.counter && t.cursor == s.cursor
    requires t.active == (if a.V4? then s.active - {a.ip} else s.active)
    requires t.names == (if a.V4? then s.names - {EntryAt(s, a).domain} else s.names)
    requires t.active6 == (if a.V6? then s.active6 - {a.ip6} else s.active6)
    requires t.names6 == (if a.V6? then s.names6 - {EntryAt(s, a).domain} else s.names6)
    requires t.routes == s.routes - {a}
    requires t.rules == s.rules - if a in s.routes && delOk then {(a, s.routes[a])} else {}
    ensures t == Dropped(s, a, delOk)
  {
  }

  // ----- the manager

  class FakeDnsManager {
    const pool: Pool
    var active: map<uint32, Entry>
    var active6: map<nat, Entry>
    var names: map<string, uint32>
    var names6: map<string, nat>
    var routes: map<Addr, string>
    var rules: set<(Addr, string)>
    var counter: uint32
    var cursor: nat

    ghost function View(): State
      reads this
    {
      State(active, active6, names, names6, routes, rules, counter, cursor)
    }

    constructor (pool: Pool)
      ensures this.pool == pool && View() == EMPTY
    {
      this.pool := pool;
      active, active6, names, names6, routes, rules := map[], map[], map[], map[], map[], {};
      counter, cursor := 0, 0;
    }

    method AcquireFakeIP(domain: string, now: int) returns (ip: uint32)
      requires ValidPool(pool)
      modifies this
      ensures View() == Acquired(pool, old(View()), domain, now)
      ensures domain in names && names[domain] == ip && ip in active
    {
      if domain in names {
        ip := names[domain];
        if ip in active {
          active := active[ip := active[ip].(lastAccess := now)];
          return ip;
        }
      }
      counter := NextCount(counter);
      ip := pool.min + counter % (pool.max - pool.min + 1);
      active := active[ip := Entry(domain, now, None)];
      names := names[domain := ip];
    }

    method NextV6() returns (ip: nat)
      modifies this`cursor
      ensures (ip, cursor) == Next6(pool, old(cursor))
    {
      var candidate := pool.min6 + cursor;
      if candidate > pool.max6 {
        cursor := 0;
        candidate := pool.min6;
      } else {
        cursor := cursor + 1;
      }
      return candidate;
    }

    method AcquireFakeIPv6(domain: string, now: int) returns (ip: nat)
      modifies this
      ensures View() == Acquired6(pool, old(View()), domain, now)
      ensures domain in names6 && names6[domain] == ip && ip in active6
    {
      if domain in names6 {
        ip := names6[domain];
        if ip in active6 {
          active6 := active6[ip := active6[ip].(lastAccess := now)];
          return ip;
        }
      }
      ip := NextV6();
      active6 := active6[ip := Entry(domain, now, None)];
      names6 := names6[domain := ip];
    }

    /**
     * The route of a fake address, its domain, and whether it is time to resolve it anew; the texts are empty
     * if the address is not in use.
     */
    method LookupAndTouch(a: Addr, now: int) returns (realIP: string, domain: string, needRefresh: bool)
      modifies this
      ensures View() == Touched(old(View()), a, now)
      ensures domain == if InUse(old(View()), a) then EntryAt(old(View()), a).domain else ""
      ensures realIP == if InUse(old(View()), a) && a in routes then routes[a] else ""
      ensures needRefresh <==>
                && realIP != "" && EntryAt(old(View()), a).refreshAt.Some?
                && now > EntryAt(old(View()), a).refreshAt.value
      ensures needRefresh ==> EntryAt(View(), a).refreshAt == Some(now + 60)
    {
      needRefresh := false;
      match a {
        case V4(ip) =>
          if ip !in active {
            return "", "", false;
          }
          active := active[ip := active[ip].(lastAccess := now)];
          domain := active[ip].domain;
          realIP := if a in routes then routes[a] else "";
          if realIP == "" {
            return "", domain, false;
          }
          var refreshAt := active[ip].refreshAt;
          if refreshAt.Some? && now > refreshAt.value {
            active := active[ip := active[ip].(refreshAt := Some(now + MIN_REFRESH))];
            needRefresh := true;
          }
        case V6(ip) =>
          if ip !in active6 {
            return "", "", false;
          }
          active6 := active6[ip := active6[ip].(lastAccess := now)];
          domain := active6[ip].domain;
          realIP := if a in routes then routes[a] else "";
          if realIP == "" {
            return "", domain, false;
          }
          var refreshAt := active6[ip].refreshAt;
          if refreshAt.Some? && now > refreshAt.value {
            active6 := active6[ip := active6[ip].(refreshAt := Some(now + MIN_REFRESH))];
            needRefresh := true;
          }
      }
    }

    /** Sets the time of the next resolution. */
    method SetRefreshAt(a: Addr, ttl: nat, now: int)
      modifies this`active, this`active6
      ensures View() == Scheduled(old(View()), a, ttl, now)
      ensures InUse(View(), a) ==> EntryAt(View(), a).refreshAt == Some(now + if ttl > 60 then ttl else 60)
    {
      var d := if ttl > MIN_REFRESH then ttl else MIN_REFRESH;
      match a {
        case V4(ip) =>
          if ip in active {
            active := active[ip := active[ip].(refreshAt := Some(now + d))];
          }
        case V6(ip) =>
          if ip in active6 {
            active6 := active6[ip := active6[ip].(refreshAt := Some(now + d))];
          }
      }
    }

    /** Replaces a firewall rule step by step; `delOk` and `addOk` say whether the firewall obeys. */
    method AddMapping(a: Addr, realIP: string, delOk: bool, addOk: bool) returns (ok: bool)
      modifies this
      ensures View() == Routed(old(View()), a, realIP, delOk, addOk)
      ensures var held := if a in old(routes) then old(routes)[a] else "";
              && (ok <==>
                    && InUse(old(View()), a)
                    && ((a in old(routes) && held == realIP) || (addOk && (held == "" || delOk))))
              && (ok ==> a in routes && routes[a] == realIP)
              && (!ok && held != "" ==> a in routes && routes[a] == held)
              && (!ok && InUse(old(View()), a) && held == "" ==> a !in routes)
      ensures routes - {a} == old(routes) - {a}
      ensures forall b, target :: b != a ==> ((b, target) in rules <==> (b, target) in old(rules))
      ensures active == old(active) && active6 == old(active6) && names == old(names) && names6 == old(names6)
    {
      if (a.V4? && a.ip !in active) || (a.V6? && a.ip6 !in active6) {
        return false;
      }
      if a in routes && routes[a] == realIP {
        return true;
      }
      var oldRealIP := if a in routes then routes[a] else "";
      routes := routes[a := realIP];
      if oldRealIP != "" {
        if !delOk {
          routes := routes[a := oldRealIP];
          return false;
        }
        rules := rules - {(a, oldRealIP)};
      }
      if !addOk {
        if oldRealIP != "" {
          routes := routes[a := oldRealIP];
        } else {
          routes := routes - {a};
        }
        return false;
      }
      rules := rules + {(a, realIP)};
      return true;
    }

    method RemoveMapping(a: Addr, delOk: bool) returns (ok: bool)
      modifies this`routes, this`rules
      ensures View() == Unrouted(old(View()), a, delOk)
      ensures ok <==> a !in old(routes) || delOk
      ensures routes == old(routes) - {a}
      ensures rules == old(rules) - if a in old(routes) && delOk then {(a, old(routes)[a])} else {}
    {
      if a !in routes {
        return true;
      }
      var realIP := routes[a];
      routes := routes - {a};
      if !delOk {
        return false;
      }
      rules := rules - {(a, realIP)};
      return true;
    }

    /** Gives up what has not been used for long; the firewall fails to delete the rules of `failing`. */
    method CleanupExpired(failing: set<Addr>, now: int)
      modifies this
      ensures View() == Cleared(old(View()), ExpiredAddrs(old(View()), now), failing)
      ensures forall ip :: ip in active <==> ip in old(active) && now - old(active)[ip].lastAccess <= 7200
      ensures forall ip :: ip in active6 <==> ip in old(active6) && now - old(active6)[ip].lastAccess <= 7200
      ensures forall ip <- active :: active[ip] == old(active)[ip]
      ensures forall ip <- active6 :: active6[ip] == old(active6)[ip]
    {
      ghost var start := View();
      var todo := (set ip | ip in active && Expired(active[ip], now) :: V4(ip))
                + (set ip | ip in active6 && Expired(active6[ip], now) :: V6(ip));
      ghost var all, done := todo, {};
      NothingCleared(start, failing);
      while todo != {}
        invariant done + todo == all && done !! todo
        invariant View() == Cleared(start, done, failing)
      {
        var a :| a in todo;
        ClearStep(start, done, a, failing);
        ForgetAddr(a);
        var _ := RemoveMapping(a, a !in failing);
        done, todo := done + {a}, todo - {a};
      }
      assert done == all;
      ExpiredGo(start, failing, now);
    }

    /** The entry and the name of an address. */
    method ForgetAddr(a: Addr)
      requires InUse(View(), a)
      modifies this`active, this`active6, this`names, this`names6
      ensures Unrouted(View(), a, true) == Dropped(old(View()), a, true)
      ensures Unrouted(View(), a, false) == Dropped(old(View()), a, false)
      ensures routes == old(routes)
    {
      match a {
        case V4(ip) =>
          var domain := active[ip].domain;
          active := active - {ip};
          names := names - {domain};
        case V6(ip) =>
          var domain := active6[ip].domain;
          active6 := active6 - {ip};
          names6 := names6 - {domain};
      }
    }
  }

  /** What an expiry leaves in use. */
  lemma {:induction false} ExpiredGo(s: State, failing: set<Addr>, now: int)
    ensures var t := Cleared(s, ExpiredAddrs(s, now), failing);
            && (forall ip :: ip in t.active <==> ip in s.active && now - s.active[ip].lastAccess <= 7200)
            && (forall ip :: ip in t.active6 <==> ip in s.active6 && now - s.active6[ip].lastAccess <= 7200)
  {
    var gone := ExpiredAddrs(s, now);
    forall ip: uint32
      ensures ip in IPs4(gone) <==> V4(ip) in gone
    {
      assert V4(ip).ip == ip;
    }
    forall ip: nat
      ensures ip in IPs6(gone) <==> V6(ip) in gone
    {
      assert V6(ip).ip6 == ip;
    }
  }

  lemma {:induction false} NothingCleared(s: State, failing: set<Addr>)
    ensures Cleared(s, {}, failing) == s
  {
  }
}
