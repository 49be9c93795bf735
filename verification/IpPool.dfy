/**
 * The dynamic address allocator. `LoopSpec`, `AcquireSpec`, `AcquireV6Spec` and `ReleaseSpec` say what
 * it does to the lease table and the set of addresses in use; the methods of `IpPoolManager`, with
 * their loops and their rotating cursors, are proved to do just that.
 */
module IpPool {
  import opened Wire
  import opened IpTable

  /** The configuration of one pool. The end is not the last 32-bit number: the scan's index would wrap around. */
  datatype Range = Range(min: uint32, max: uint32, gateway: Option<uint32>, group: string)

  ghost predicate ValidRange(r: Range) {
    r.min <= r.max < 0xffff_ffff
  }

  /** Who asks for an address, when, and how long leases last. */
  datatype Request = Request(user: string, mac: string, uniqueMac: bool, now: int, lease: int)

  predicate InPool(r: Range, n: uint32) {
    r.min <= n <= r.max
  }

  // ----- the state of one address

  predicate IsGateway(r: Range, n: uint32) {
    r.gateway == Some(n)
  }

  /** Neither the gateway nor in use. */
  predicate Idle(s: State, r: Range, n: uint32) {
    !IsGateway(r, n) && V4(n) !in s.active
  }

  predicate LeaseOver(row: Row, q: Request) {
    row.lastLogin < q.now - q.lease
  }

  ghost predicate Unbound(s: State, r: Range, n: uint32) {
    Idle(s, r, n) && ByIp(s.table, n).None?
  }

  ghost predicate Lapsed(s: State, r: Range, n: uint32, q: Request) {
    && Idle(s, r, n) && ByIp(s.table, n).Some?
    && var row := s.table[ByIp(s.table, n).value];
       !row.keep && LeaseOver(row, q)
  }

  /** The scan takes the first address like this. */
  ghost predicate Available(s: State, r: Range, n: uint32, q: Request) {
    Unbound(s, r, n) || Lapsed(s, r, n, q)
  }

  /** Bound but idle and not reserved, and last seen in the past: may be recycled when nothing is available. */
  ghost predicate Recyclable(s: State, r: Range, n: uint32, q: Request) {
    && Idle(s, r, n) && ByIp(s.table, n).Some?
    && var row := s.table[ByIp(s.table, n).value];
       !row.keep && !LeaseOver(row, q) && row.lastLogin < q.now
  }

  // ----- handing out an address

  function NewRow(r: Range, n: uint32, q: Request): Row {
    Row(Some(n), None, q.mac, r.group, q.user, q.uniqueMac, false, q.now)
  }

  function TakenRow(row: Row, r: Range, q: Request): Row {
    row.(mac := q.mac, group := r.group, user := q.user, uniqueMac := q.uniqueMac, lastLogin := q.now)
  }

  /** The address goes to the client: its row is written, or a new one is added. */
  ghost function Hand(s: State, r: Range, n: uint32, q: Request): State {
    var id := ByIp(s.table, n);
    var s' := if id.Some? then SetRow(s, id.value, TakenRow(s.table[id.value], r, q)) else AddRow(s, NewRow(r, n, q));
    Activate(s', V4(n))
  }

  // ----- the scan

  /** The first available address between two numbers. */
  ghost function Scan(s: State, r: Range, lo: nat, hi: uint32, q: Request): Option<uint32>
    decreases hi + 1 - lo
  {
    if lo > hi then None
    else if Available(s, r, lo, q) then Some(lo)
    else Scan(s, r, lo + 1, hi, q)
  }

  /** The earlier of a recyclable row and the one found so far. */
  ghost function Earlier(s: State, r: Range, n: uint32, q: Request, far: Option<nat>): Option<nat>
    requires far.Some? ==> far.value in s.table
  {
    if Recyclable(s, r, n, q) then
      var id := ByIp(s.table, n).value;
      if far.None? || s.table[id].lastLogin < s.table[far.value].lastLogin then Some(id) else far
    else far
  }

  lemma {:induction false} ScanInRange(s: State, r: Range, lo: nat, hi: uint32, q: Request)
    ensures Scan(s, r, lo, hi, q).Some? ==> lo <= Scan(s, r, lo, hi, q).value <= hi
    decreases hi + 1 - lo
  {
    if lo <= hi && !Available(s, r, lo, q) {
      ScanInRange(s, r, lo + 1, hi, q);
    }
  }

  /** The recyclable row of earliest login between two numbers, or the one found before. */
  ghost function Far(s: State, r: Range, lo: nat, hi: uint32, q: Request, far: Option<nat>): (f: Option<nat>)
    requires far.Some? ==> far.value in s.table
    ensures f.Some? ==> f.value in s.table
    decreases hi + 1 - lo
  {
    if lo > hi then far else Far(s, r, lo + 1, hi, q, Earlier(s, r, lo, q, far))
  }

  /** The row found is recyclable, of earliest login, and no later than the one given. */
  lemma {:induction false} FarIsEarliest(s: State, r: Range, lo: nat, hi: uint32, q: Request, far: Option<nat>)
    requires far.Some? ==> far.value in s.table
    ensures var f := Far(s, r, lo, hi, q, far);
            && (f == far || exists n: uint32 :: lo <= n <= hi && Recyclable(s, r, n, q) && ByIp(s.table, n) == f)
            && (far.Some? ==> f.Some? && s.table[f.value].lastLogin <= s.table[far.value].lastLogin)
            && (forall n: uint32 :: lo <= n <= hi && Recyclable(s, r, n, q) ==>
                  f.Some? && s.table[f.value].lastLogin <= s.table[ByIp(s.table, n).value].lastLogin)
    decreases hi + 1 - lo
  {
    if lo <= hi {
      FarIsEarliest(s, r, lo + 1, hi, q, Earlier(s, r, lo, q, far));
    }
  }

  /** The recycled row goes to the client; its address is the one it carries. */
  function Recycle(s: State, r: Range, id: nat, q: Request): State
    requires id in s.table && s.table[id].ip.Some?
  {
    Activate(SetRow(s, id, TakenRow(s.table[id], r, q)), V4(s.table[id].ip.value))
  }

  /** Scanning from the cursor up, then from the start to the cursor, then recycling. */
  ghost function LoopSpec(s: State, r: Range, cur: uint32, q: Request): (State, uint32, Option<uint32>) {
    var up := Scan(s, r, cur, r.max, q);
    if up.Some? then (Hand(s, r, up.value, q), up.value, up)
    else
      var down := Scan(s, r, r.min, cur, q);
      if down.Some? then (Hand(s, r, down.value, q), down.value, down)
      else
        var far := Far(s, r, r.min, cur, q, Far(s, r, cur, r.max, q, None));
        if far.Some? && s.table[far.value].ip.Some? then
          (Recycle(s, r, far.value, q), r.min, s.table[far.value].ip)
        else (s, r.min, None)
  }

  // ----- acquiring

  /** The row of a client that reports its MAC: in its own group, else one without a group. */
  ghost function Binding(s: State, r: Range, mac: string): (id: Option<nat>)
    ensures id.Some? ==> id.value in s.table && s.table[id.value].mac == mac
  {
    var own := ByBinding(s.table, mac, r.group);
    if own.None? && r.group != "" then ByBinding(s.table, mac, "") else own
  }

  const QUERY_LIMIT: nat := 30

  function FirstRows(ids: seq<nat>): (p: seq<nat>)
    ensures forall i <- p :: i in ids
  {
    if |ids| > QUERY_LIMIT then ids[..QUERY_LIMIT] else ids
  }

  /** The rows of a client known by its name only. */
  function Candidates(s: State, r: Range, user: string): (ids: seq<nat>)
    ensures forall i <- ids :: i in s.table
  {
    var own := FirstRows(UserRows(s, user, r.group, 0));
    if own == [] && r.group != "" then FirstRows(UserRows(s, user, "", 0)) else own
  }

  /** A user's row that may be taken again: idle, or in use by the very same device. */
  predicate Reusable(s: State, r: Range, row: Row, mac: string) {
    && row.ip.Some? && (V4(row.ip.value) in s.active ==> row.mac == mac)
    && !row.keep && !row.uniqueMac && InPool(r, row.ip.value)
  }

  function FirstReusable(s: State, r: Range, ids: seq<nat>, mac: string): (id: Option<nat>)
    requires forall i <- ids :: i in s.table
    ensures id.Some? ==> id.value in s.table && Reusable(s, r, s.table[id.value], mac)
  {
    if ids == [] then None
    else if Reusable(s, r, s.table[ids[0]], mac) then Some(ids[0])
    else FirstReusable(s, r, ids[1..], mac)
  }

  ghost function AcquireSpec(s: State, r: Range, cur: uint32, q: Request): (State, uint32, Option<uint32>) {
    if q.uniqueMac then
      var id := Binding(s, r, q.mac);
      if id.None? then LoopSpec(s, r, cur, q)
      else
        var row := s.table[id.value];
        if row.ip.Some? && V4(row.ip.value) !in s.active && InPool(r, row.ip.value) then
          (Activate(SetRow(s, id.value, TakenRow(row, r, q)), V4(row.ip.value)), cur, row.ip)
        else if row.keep then (s, cur, None)
        else LoopSpec(DelRow(s, id.value), r, cur, q)
    else
      var id := FirstReusable(s, r, Candidates(s, r, q.user), q.mac);
      if id.Some? then
        var row := s.table[id.value];
        (Activate(SetRow(s, id.value, TakenRow(row, r, q)), V4(row.ip.value)), cur, row.ip)
      else LoopSpec(s, r, cur, q)
  }

  // ----- IPv6

  /** A free IPv6 address, or one this client still leases. */
  ghost predicate Available6(s: State, n: nat, q: Request) {
    && V6(n) !in s.active
    && var id := ByIp6(s.table, n);
       id.Some? ==> s.table[id.value].mac == q.mac && !LeaseOver(s.table[id.value], q)
  }

  ghost function Scan6(s: State, lo: nat, hi: nat, q: Request): Option<nat>
    decreases hi + 1 - lo
  {
    if lo > hi then None
    else if Available6(s, lo, q) then Some(lo)
    else Scan6(s, lo + 1, hi, q)
  }

  /** The address goes into the client's row of the group, unless it is there already. */
  ghost function Hand6(s: State, group: string, n: nat, q: Request): State {
    if ByIp6(s.table, n).Some? then Activate(s, V6(n))
    else
      var id := ByBinding(s.table, q.mac, group);
      var s' := if id.Some? then
                  SetRow(s, id.value, s.table[id.value].(ip6 := Some(n), user := q.user, lastLogin := q.now))
                else AddRow(s, Row(None, Some(n), q.mac, group, q.user, q.uniqueMac, false, q.now));
      Activate(s', V6(n))
  }

  /** Where a scan starts: at the cursor, unless it has left the range. */
  function Start6(start: nat, end: nat, cursor: nat): nat {
    if cursor < start || cursor > end then start else cursor
  }

  ghost function AcquireV6Spec(s: State, group: string, start: nat, end: nat, cursor: nat, q: Request)
    : (State, nat, Option<nat>)
  {
    var c := Start6(start, end, cursor);
    var up := Scan6(s, c, end, q);
    if up.Some? then (Hand6(s, group, up.value, q), up.value + 1, up)
    else
      var down := if c == 0 then None else Scan6(s, start, c - 1, q);
      if down.Some? then (Hand6(s, group, down.value, q), down.value + 1, down) else (s, cursor, None)
  }

  // ----- releasing

  ghost function Release4(s: State, n: uint32, now: int): State {
    var s' := s.(active := s.active - {V4(n)});
    var id := ByIp(s.table, n);
    if id.Some? then SetRow(s', id.value, s.table[id.value].(lastLogin := now)) else s'
  }

  ghost function Release6(s: State, n: nat, now: int): State {
    var s' := s.(active := s.active - {V6(n)});
    var id := ByIp6(s.table, n);
    if id.Some? then SetRow(s', id.value, s.table[id.value].(ip6 := None, lastLogin := now)) else s'
  }

  ghost function ReleaseSpec(s: State, ip: Option<uint32>, ip6: Option<nat>, now: int): State {
    var s' := if ip.Some? then Release4(s, ip.value, now) else s;
    if ip6.Some? then Release6(s', ip6.value, now) else s'
  }

  // ----- nonempty IPv6 columns stay distinct

  lemma {:induction false} HandKeepsValid(s: State, r: Range, n: uint32, q: Request)
    requires WellFormed(s) && Ip6Unique(s.table)
    ensures WellFormed(Hand(s, r, n, q)) && Ip6Unique(Hand(s, r, n, q).table)
  {
    if ByIp(s.table, n).Some? {
      TakingKeepsValid(s, r, ByIp(s.table, n).value, q);
    } else {
      AddKeepsWellFormed(s, NewRow(r, n, q));
      AddKeepsIp6(s, NewRow(r, n, q));
    }
  }

  lemma {:induction false} LoopKeepsValid(s: State, r: Range, cur: uint32, q: Request)
    requires WellFormed(s) && Ip6Unique(s.table)
    ensures var s' := LoopSpec(s, r, cur, q).0;
            WellFormed(s') && Ip6Unique(s'.table)
  {
    forall n: uint32
      ensures WellFormed(Hand(s, r, n, q)) && Ip6Unique(Hand(s, r, n, q).table)
    {
      HandKeepsValid(s, r, n, q);
    }
  }

  lemma {:induction false} TakingKeepsValid(s: State, r: Range, id: nat, q: Request)
    requires WellFormed(s) && Ip6Unique(s.table) && id in s.table
    ensures var s' := SetRow(s, id, TakenRow(s.table[id], r, q));
            WellFormed(s') && Ip6Unique(s'.table)
  {
  }

  lemma {:induction false} DeletingKeepsValid(s: State, id: nat)
    requires WellFormed(s) && Ip6Unique(s.table)
    ensures WellFormed(DelRow(s, id)) && Ip6Unique(DelRow(s, id).table)
  {
  }

  /** A client that reports its MAC. */
  lemma {:induction false} AcquireBoundKeepsValid(s: State, r: Range, cur: uint32, q: Request)
    requires WellFormed(s) && Ip6Unique(s.table) && q.uniqueMac
    ensures var s' := AcquireSpec(s, r, cur, q).0;
            WellFormed(s') && Ip6Unique(s'.table)
  {
    var id := Binding(s, r, q.mac);
    if id.None? {
      LoopKeepsValid(s, r, cur, q);
    } else {
      TakingKeepsValid(s, r, id.value, q);
      DeletingKeepsValid(s, id.value);
      LoopKeepsValid(DelRow(s, id.value), r, cur, q);
    }
  }

  lemma {:induction false} AcquireKeepsValid(s: State, r: Range, cur: uint32, q: Request)
    requires WellFormed(s) && Ip6Unique(s.table)
    ensures var s' := AcquireSpec(s, r, cur, q).0;
            WellFormed(s') && Ip6Unique(s'.table)
  {
    if q.uniqueMac {
      AcquireBoundKeepsValid(s, r, cur, q);
    } else {
      LoopKeepsValid(s, r, cur, q);
      var id := FirstReusable(s, r, Candidates(s, r, q.user), q.mac);
      if id.Some? {
        TakingKeepsValid(s, r, id.value, q);
      }
    }
  }

  lemma {:induction false} SetKeepsIp6(s: State, id: nat, row: Row)
    requires Ip6Unique(s.table) && id in s.table
    requires row.ip6.Some? ==> forall j <- s.table :: s.table[j].ip6 != row.ip6
    ensures Ip6Unique(SetRow(s, id, row).table)
  {
  }

  lemma {:induction false} AddKeepsIp6(s: State, row: Row)
    requires Ip6Unique(s.table) && WellFormed(s)
    requires row.ip6.Some? ==> forall j <- s.table :: s.table[j].ip6 != row.ip6
    ensures Ip6Unique(AddRow(s, row).table)
  {
  }

  lemma {:induction false} Hand6KeepsValid(s: State, group: string, n: nat, q: Request)
    requires WellFormed(s) && Ip6Unique(s.table)
    ensures WellFormed(Hand6(s, group, n, q)) && Ip6Unique(Hand6(s, group, n, q).table)
  {
    if ByIp6(s.table, n).None? {
      var id := ByBinding(s.table, q.mac, group);
      if id.Some? {
        var row := s.table[id.value].(ip6 := Some(n), user := q.user, lastLogin := q.now);
        SetKeepsWellFormed(s, id.value, row);
        SetKeepsIp6(s, id.value, row);
      } else {
        var row := Row(None, Some(n), q.mac, group, q.user, q.uniqueMac, false, q.now);
        AddKeepsWellFormed(s, row);
        AddKeepsIp6(s, row);
      }
    }
  }

  lemma {:induction false} Release4KeepsValid(s: State, n: uint32, now: int)
    requires WellFormed(s) && Ip6Unique(s.table)
    ensures WellFormed(Release4(s, n, now)) && Ip6Unique(Release4(s, n, now).table)
  {
  }

  lemma {:induction false} Release6KeepsValid(s: State, n: nat, now: int)
    requires WellFormed(s) && Ip6Unique(s.table)
    ensures WellFormed(Release6(s, n, now)) && Ip6Unique(Release6(s, n, now).table)
  {
  }

  lemma {:induction false} ReleaseKeepsValid(s: State, ip: Option<uint32>, ip6: Option<nat>, now: int)
    requires WellFormed(s) && Ip6Unique(s.table)
    ensures var s' := ReleaseSpec(s, ip, ip6, now);
            WellFormed(s') && Ip6Unique(s'.table)
  {
    var s' := s;
    if ip.Some? {
      Release4KeepsValid(s, ip.value, now);
      s' := Release4(s, ip.value, now);
    }
    if ip6.Some? {
      Release6KeepsValid(s', ip6.value, now);
    }
  }

  // ----- the allocator

  class Pool {
    const range: Range
    const start6: nat
    const end6: nat
    var loopCurIp: uint32
    var loopFarIp: Option<nat>
    var ipv6Cursor: nat

    constructor (range: Range, start6: nat, end6: nat)
      requires ValidRange(range)
      ensures this.range == range && this.start6 == start6 && this.end6 == end6 && Valid()
    {
      this.range, this.start6, this.end6 := range, start6, end6;
      loopCurIp, loopFarIp, ipv6Cursor := range.min, None, start6;
    }

    /** The cursor stays in the pool. */
    ghost predicate Valid()
      reads this
    {
      ValidRange(range) && InPool(range, loopCurIp)
    }
  }

  class IpPoolManager {
    var ipActive: set<Addr>
    var table: Table
    var nextId: nat

    ghost function View(): State
      reads this
    {
      State(ipActive, table, nextId)
    }

    ghost predicate Valid()
      reads this
    {
      WellFormed(View()) && Ip6Unique(table)
    }

    method Set(id: nat, row: Row)
      requires WellFormed(View()) && id in table
      modifies this`table
      ensures View() == SetRow(old(View()), id, row) && WellFormed(View())
    {
      SetKeepsWellFormed(View(), id, row);
      if Accepts(table, id, row) {
        table := table[id := row];
      }
    }

    method Add(row: Row)
      requires WellFormed(View())
      modifies this`table, this`nextId
      ensures View() == AddRow(old(View()), row) && WellFormed(View())
    {
      AddKeepsWellFormed(View(), row);
      if Accepts(table, nextId, row) {
        table := table[nextId := row];
        nextId := nextId + 1;
      }
    }

    /** Scans for an address that is free or whose lease is over, noting the earliest login on the way. */
    method LoopLong(start: uint32, end: uint32, pool: Pool, q: Request) returns (i: uint32, ip: Option<uint32>)
      requires WellFormed(View()) && end < 0xffff_ffff
      requires pool.loopFarIp.Some? ==> pool.loopFarIp.value in table && table[pool.loopFarIp.value].lastLogin < q.now
      modifies this, pool`loopFarIp
      ensures WellFormed(View())
      ensures ip == Scan(old(View()), pool.range, start, end, q)
      ensures ip.Some? ==> i == ip.value && View() == Hand(old(View()), pool.range, ip.value, q)
      ensures ip.None? ==> View() == old(View())
      ensures ip.None? && pool.loopFarIp.Some? ==>
                pool.loopFarIp.value in table && table[pool.loopFarIp.value].lastLogin < q.now
      ensures ip.None? ==> pool.loopFarIp == Far(old(View()), pool.range, start, end, q, old(pool.loopFarIp))
    {
      i := start;
      while i <= end
        invariant View() == old(View()) && start <= i && (i <= end + 1 || i == start)
        invariant pool.loopFarIp.Some? ==>
                    pool.loopFarIp.value in table && table[pool.loopFarIp.value].lastLogin < q.now
        invariant Scan(View(), pool.range, start, end, q) == Scan(View(), pool.range, i, end, q)
        invariant Far(View(), pool.range, start, end, q, old(pool.loopFarIp))
               == Far(View(), pool.range, i, end, q, pool.loopFarIp)
        decreases end + 1 - i
      {
        if pool.range.gateway == Some(i) {
          i := i + 1;
          continue;
        }
        if V4(i) in ipActive {
          i := i + 1;
          continue;
        }
        var id := FindByIp(table, i);
        if id.None? {
          Add(NewRow(pool.range, i, q));
          ipActive := ipActive + {V4(i)};
          return i, Some(i);
        }
        var mi := table[id.value];
        if mi.keep {
          i := i + 1;
          continue;
        }
        if mi.lastLogin < q.now - q.lease {
          Set(id.value, TakenRow(mi, pool.range, q));
          ipActive := ipActive + {V4(i)};
          return i, Some(i);
        }
        var farLogin := if pool.loopFarIp.Some? then table[pool.loopFarIp.value].lastLogin else q.now;
        if mi.lastLogin < farLogin {
          pool.loopFarIp := id;
        }
        i := i + 1;
      }
      return 0, None;
    }

    method LoopIp(pool: Pool, q: Request) returns (ip: Option<uint32>)
      requires WellFormed(View()) && pool.Valid()
      modifies this, pool`loopCurIp, pool`loopFarIp
      ensures WellFormed(View()) && pool.Valid()
      ensures (View(), pool.loopCurIp, ip) == LoopSpec(old(View()), pool.range, old(pool.loopCurIp), q)
    {
      var r := pool.range;
      pool.loopFarIp := None;
      var i;
      i, ip := LoopLong(pool.loopCurIp, r.max, pool, q);
      ScanInRange(old(View()), r, pool.loopCurIp, r.max, q);
      if ip.Some? {
        pool.loopCurIp := i;
        return ip;
      }
      ghost var far := pool.loopFarIp;
      i, ip := LoopLong(r.min, pool.loopCurIp, pool, q);
      ScanInRange(old(View()), r, r.min, pool.loopCurIp, q);
      if ip.Some? {
        pool.loopCurIp := i;
        return ip;
      }
      FarIsEarliest(View(), r, pool.loopCurIp, r.max, q, None);
      FarIsEarliest(View(), r, r.min, pool.loopCurIp, q, far);
      pool.loopCurIp := r.min;
      if pool.loopFarIp.Some? {
        var id := pool.loopFarIp.value;
        ip := table[id].ip;
        Set(id, TakenRow(table[id], r, q));
        ipActive := ipActive + {V4(ip.value)};
        return ip;
      }
      return None;
    }

    /** Acquires an IPv4 address for a client. */
    method AcquireIpWithRange(pool: Pool, q: Request) returns (ip: Option<uint32>)
      requires Valid() && pool.Valid()
      modifies this, pool`loopCurIp, pool`loopFarIp
      ensures Valid() && pool.Valid()
      ensures (View(), pool.loopCurIp, ip) == AcquireSpec(old(View()), pool.range, old(pool.loopCurIp), q)
    {
      var r := pool.range;
      AcquireKeepsValid(View(), r, pool.loopCurIp, q);
      if q.uniqueMac {
        var mi := FindByBinding(table, q.mac, r.group);
        if mi.None? && r.group != "" {
          mi := FindByBinding(table, q.mac, "");
        }
        if mi.None? {
          ip := LoopIp(pool, q);
          return ip;
        }
        var row := table[mi.value];
        if row.ip.Some? && V4(row.ip.value) !in ipActive && InPool(r, row.ip.value) {
          Set(mi.value, TakenRow(row, r, q));
          ipActive := ipActive + {V4(row.ip.value)};
          return row.ip;
        }
        if row.keep {
          return None;
        }
        table := table - {mi.value};
        ip := LoopIp(pool, q);
        return ip;
      }
      var ids := Candidates(State(ipActive, table, nextId), r, q.user);
      var k := 0;
      while k < |ids|
        invariant k <= |ids| && View() == old(View()) && pool.loopCurIp == old(pool.loopCurIp)
        invariant ids == Candidates(View(), r, q.user)
        invariant FirstReusable(View(), r, ids, q.mac) == FirstReusable(View(), r, ids[k..], q.mac)
      {
        assert ids[k] in ids;
        var row := table[ids[k]];
        if Reusable(State(ipActive, table, nextId), r, row, q.mac) {
          Set(ids[k], TakenRow(row, r, q));
          ipActive := ipActive + {V4(row.ip.value)};
          return row.ip;
        }
        k := k + 1;
      }
      ip := LoopIp(pool, q);
    }

    /** Acquires an IPv6 address from the range of `alloc`, for a client of the group of `pool`. */
    method LoopIpV6(group: string, alloc: Pool, q: Request) returns (ip: Option<nat>)
      requires Valid()
      modifies this, alloc`ipv6Cursor
      ensures Valid()
      ensures (View(), alloc.ipv6Cursor, ip)
           == AcquireV6Spec(old(View()), group, alloc.start6, alloc.end6, old(alloc.ipv6Cursor), q)
    {
      var c := Start6(alloc.start6, alloc.end6, alloc.ipv6Cursor);
      ip := ScanV6(c, alloc.end6, group, q);
      if ip.None? && c > 0 {
        ip := ScanV6(alloc.start6, c - 1, group, q);
      }
      if ip.Some? {
        alloc.ipv6Cursor := ip.value + 1;
      }
    }

    /** One of the two segments of an IPv6 scan. */
    method ScanV6(lo: nat, hi: nat, group: string, q: Request) returns (ip: Option<nat>)
      requires Valid()
      modifies this
      ensures Valid() && ip == Scan6(old(View()), lo, hi, q)
      ensures ip.None? ==> View() == old(View())
      ensures ip.Some? ==> View() == Hand6(old(View()), group, ip.value, q)
    {
      var cur := lo;
      while cur <= hi
        invariant View() == old(View()) && lo <= cur
        invariant Scan6(View(), lo, hi, q) == Scan6(View(), cur, hi, q)
        decreases hi + 1 - cur
      {
        if V6(cur) in ipActive {
          cur := cur + 1;
          continue;
        }
        Hand6KeepsValid(View(), group, cur, q);
        var m6 := FindByIp6(table, cur);
        if m6.Some? {
          if table[m6.value].mac != q.mac || table[m6.value].lastLogin < q.now - q.lease {
            cur := cur + 1;
            continue;
          }
          ipActive := ipActive + {V6(cur)};
          return Some(cur);
        }
        var row := FindByBinding(table, q.mac, group);
        if row.None? {
          Add(Row(None, Some(cur), q.mac, group, q.user, q.uniqueMac, false, q.now));
        } else {
          Set(row.value, table[row.value].(ip6 := Some(cur), user := q.user, lastLogin := q.now));
        }
        ipActive := ipActive + {V6(cur)};
        return Some(cur);
      }
      return None;
    }

    method ReleaseIp(ip: Option<uint32>, ip6: Option<nat>, now: int)
      requires Valid()
      modifies this
      ensures Valid() && View() == ReleaseSpec(old(View()), ip, ip6, now)
    {
      ReleaseKeepsValid(View(), ip, None, now);
      ReleaseKeepsValid(View(), ip, ip6, now);
      if ip.Some? {
        ipActive := ipActive - {V4(ip.value)};
        var mi := FindByIp(table, ip.value);
        if mi.Some? {
          Set(mi.value, table[mi.value].(lastLogin := now));
        }
      }
      if ip6.Some? {
        ipActive := ipActive - {V6(ip6.value)};
        var mi6 := FindByIp6(table, ip6.value);
        if mi6.Some? {
          Set(mi6.value, table[mi6.value].(ip6 := None, lastLogin := now));
        }
      }
    }
  }
}
