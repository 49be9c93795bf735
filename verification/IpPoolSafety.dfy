/** What the address allocator promises: whom it refuses, whom it prefers, and that no address is shared. */
module IpPoolSafety {
  import opened Wire
  import opened IpTable
  import opened IpPool

  // ----- which address the scan hands out

  lemma {:induction false} ScanFindsFirst(s: State, r: Range, lo: nat, hi: uint32, q: Request)
    ensures match Scan(s, r, lo, hi, q)
            case Some(n) => lo <= n <= hi && Available(s, r, n, q) &&
                            forall m: uint32 :: lo <= m < n ==> !Available(s, r, m, q)
            case None => forall m: uint32 :: lo <= m <= hi ==> !Available(s, r, m, q)
    decreases hi + 1 - lo
  {
    if lo <= hi && !Available(s, r, lo, q) {
      ScanFindsFirst(s, r, lo + 1, hi, q);
    }
  }

  /** Whatever the cursor, an available address is preferred: the first one from the cursor on, around the pool. */
  lemma {:induction false} AvailableIsPreferred(s: State, r: Range, cur: uint32, q: Request, n: uint32)
    requires ValidRange(r) && InPool(r, cur) && InPool(r, n) && Available(s, r, n, q)
    ensures var (s', cur', ip) := LoopSpec(s, r, cur, q);
            && ip.Some? && InPool(r, ip.value) && Available(s, r, ip.value, q) && cur' == ip.value
            && s' == Hand(s, r, ip.value, q)
            && (cur <= ip.value ==> forall m: uint32 :: cur <= m < ip.value ==> !Available(s, r, m, q))
            && (ip.value < cur ==> forall m: uint32 :: cur <= m <= r.max || r.min <= m < ip.value ==>
                                     !Available(s, r, m, q))
  {
    ScanFindsFirst(s, r, cur, r.max, q);
    ScanFindsFirst(s, r, r.min, cur, q);
  }

  /** When nothing is available, the address recycled is the one whose client logged in first. */
  lemma {:induction false} RecycledIsOldest(s: State, r: Range, cur: uint32, q: Request)
    requires WellFormed(s) && ValidRange(r) && InPool(r, cur)
    requires forall n: uint32 :: InPool(r, n) ==> !Available(s, r, n, q)
    ensures var ip := LoopSpec(s, r, cur, q).2;
            && (ip.None? <==> forall n: uint32 :: InPool(r, n) ==> !Recyclable(s, r, n, q))
            && (ip.Some? ==>
                  && InPool(r, ip.value) && Recyclable(s, r, ip.value, q)
                  && forall n: uint32 :: InPool(r, n) && Recyclable(s, r, n, q) ==>
                       s.table[ByIp(s.table, ip.value).value].lastLogin <= s.table[ByIp(s.table, n).value].lastLogin)
  {
    ScanFindsFirst(s, r, cur, r.max, q);
    ScanFindsFirst(s, r, r.min, cur, q);
    var f := Far(s, r, cur, r.max, q, None);
    FarIsEarliest(s, r, cur, r.max, q, None);
    FarIsEarliest(s, r, r.min, cur, q, f);
    var g := Far(s, r, r.min, cur, q, f);
    if g.Some? {
      var n: uint32 :| InPool(r, n) && Recyclable(s, r, n, q) && ByIp(s.table, n) == g;
    }
  }

  /**
   * An address that cannot be given away: the gateway's, one in use, a reserved one, or one that is neither
   * past its lease nor last used in the past.
   */
  ghost predicate Spoken(s: State, r: Range, n: uint32, q: Request) {
    || IsGateway(r, n) || V4(n) in s.active
    || (ByIp(s.table, n).Some? &&
        var row := s.table[ByIp(s.table, n).value];
        row.keep || (!LeaseOver(row, q) && row.lastLogin >= q.now))
  }

  lemma {:induction false} SpokenIffNeither(s: State, r: Range, n: uint32, q: Request)
    ensures Spoken(s, r, n, q) <==> !Available(s, r, n, q) && !Recyclable(s, r, n, q)
  {
  }

  /** The allocator refuses exactly when every address of the pool is spoken for, for any cursor position. */
  lemma {:induction false} LoopRefusesIff(s: State, r: Range, cur: uint32, q: Request)
    requires WellFormed(s) && ValidRange(r) && InPool(r, cur)
    ensures LoopSpec(s, r, cur, q).2.None? <==> forall n: uint32 :: InPool(r, n) ==> Spoken(s, r, n, q)
  {
    forall n: uint32
      ensures Spoken(s, r, n, q) <==> !Available(s, r, n, q) && !Recyclable(s, r, n, q)
    {
      SpokenIffNeither(s, r, n, q);
    }
    if n: uint32 :| InPool(r, n) && Available(s, r, n, q) {
      AvailableIsPreferred(s, r, cur, q, n);
    } else {
      RecycledIsOldest(s, r, cur, q);
    }
  }

  /** A pool of one address, in use by its only client. */
  const ONE_ADDRESS := Range(10, 10, None, "")
  const IN_USE := State({V4(10)}, map[1 := Row(Some(10), None, "m1", "", "u1", false, false, 0)], 2)

  /**
   * The condition is met: at the very moment its only client releases the address, which is then idle and not
   * reserved, nobody else is given it.
   */
  lemma {:induction false} ReleasedNowIsRefused(now: int, lease: nat)
    ensures var s, q := ReleaseSpec(IN_USE, Some(10), None, now), Request("u2", "m2", false, now, lease);
            && WellFormed(s) && Idle(s, ONE_ADDRESS, 10) && HasIp(s.table, 1, 10) && !s.table[1].keep
            && AcquireSpec(s, ONE_ADDRESS, 10, q).2 == None
  {
    var s, q := ReleaseSpec(IN_USE, Some(10), None, now), Request("u2", "m2", false, now, lease);
    ByIpIs(IN_USE.table, 1, 10);
    assert s.table == map[1 := IN_USE.table[1].(lastLogin := now)];
    ByIpIs(s.table, 1, 10);
    assert UserRows(s, "u2", "", 2) == [];
    assert UserRows(s, "u2", "", 1) == [];
    assert Candidates(s, ONE_ADDRESS, "u2") == [];
    assert Spoken(s, ONE_ADDRESS, 10, q);
    LoopRefusesIff(s, ONE_ADDRESS, 10, q);
  }

  /** What the scan or the recycling hands out was idle, and lies in the pool. */
  lemma {:induction false} LoopGrantsIdle(s: State, r: Range, cur: uint32, q: Request)
    requires WellFormed(s) && ValidRange(r) && InPool(r, cur)
    ensures var ip := LoopSpec(s, r, cur, q).2;
            ip.Some? ==> InPool(r, ip.value) && Idle(s, r, ip.value) &&
                         (Available(s, r, ip.value, q) || Recyclable(s, r, ip.value, q))
  {
    if n: uint32 :| InPool(r, n) && Available(s, r, n, q) {
      AvailableIsPreferred(s, r, cur, q, n);
    } else {
      RecycledIsOldest(s, r, cur, q);
    }
  }

  /** Both ways of handing out an address do the same to the state. */
  lemma {:induction false} LoopHands(s: State, r: Range, cur: uint32, q: Request)
    requires WellFormed(s) && ValidRange(r) && InPool(r, cur)
    ensures var (s', _, ip) := LoopSpec(s, r, cur, q);
            s' == if ip.Some? then Hand(s, r, ip.value, q) else s
  {
  }

  // ----- no address in use goes to another device

  /** Which MAC each address in use was handed to. */
  type Owners = map<Addr, string>

  /** The row of an address in use, if there is one, carries its owner's MAC. */
  ghost predicate RowsMatch(s: State, owner: Owners) {
    && s.active <= owner.Keys
    && forall id <- s.table :: s.table[id].ip.Some? && V4(s.table[id].ip.value) in s.active ==>
         s.table[id].mac == owner[V4(s.table[id].ip.value)]
  }

  /** Handed out only while idle, or again to the device that has it. */
  ghost predicate Exclusive(s: State, owner: Owners, a: Addr, mac: string) {
    a in s.active ==> a in owner && owner[a] == mac
  }

  lemma {:induction false} GrantIsExclusive(s: State, r: Range, cur: uint32, q: Request, owner: Owners)
    requires WellFormed(s) && ValidRange(r) && InPool(r, cur) && RowsMatch(s, owner)
    ensures var ip := AcquireSpec(s, r, cur, q).2;
            ip.Some? ==> InPool(r, ip.value) && Exclusive(s, owner, V4(ip.value), q.mac)
  {
    LoopGrantsIdle(s, r, cur, q);
    if q.uniqueMac && Binding(s, r, q.mac).Some? {
      LoopGrantsIdle(DelRow(s, Binding(s, r, q.mac).value), r, cur, q);
    }
  }

  /**
   * The write that would record the new owner of `n` is rejected: the address has the row of another
   * device, and the client's MAC is already bound in the group by some other row.
   */
  ghost predicate Rejected(s: State, r: Range, n: uint32, q: Request) {
    && ByIp(s.table, n).Some?
    && s.table[ByIp(s.table, n).value].mac != q.mac
    && exists j :: j != ByIp(s.table, n).value && IsBound(s.table, j, q.mac, r.group)
  }

  lemma {:induction false} HandMatchesIff(s: State, r: Range, n: uint32, q: Request, owner: Owners)
    requires WellFormed(s) && RowsMatch(s, owner)
    ensures RowsMatch(Hand(s, r, n, q), owner[V4(n) := q.mac]) <==> !Rejected(s, r, n, q)
  {
    var s', o' := Hand(s, r, n, q), owner[V4(n) := q.mac];
    if ByIp(s.table, n).Some? {
      var id := ByIp(s.table, n).value;
      var row := TakenRow(s.table[id], r, q);
      assert Accepts(s.table, id, row) <==> !exists j :: j != id && IsBound(s.table, j, q.mac, r.group) by {
        if !Accepts(s.table, id, row) {
          var j :| j in s.table && j != id &&
                   !(s.table[j].ip != row.ip && !(s.table[j].mac == row.mac && s.table[j].group == row.group));
          assert IsBound(s.table, j, q.mac, r.group);
        }
      }
      assert id in s'.table && s'.table[id].ip == Some(n);
    }
  }

  /** Taking the row of address `n` that the client's own lookup found does what `Hand` does. */
  lemma {:induction false} TakingIsHanding(s: State, r: Range, id: nat, q: Request)
    requires WellFormed(s) && id in s.table && s.table[id].ip.Some?
    ensures Activate(SetRow(s, id, TakenRow(s.table[id], r, q)), V4(s.table[id].ip.value))
         == Hand(s, r, s.table[id].ip.value, q)
  {
  }

  /** The table on which the address is handed out: the client's outdated binding is gone by then. */
  ghost function Cleared(s: State, r: Range, q: Request): State {
    if q.uniqueMac && Binding(s, r, q.mac).Some? then
      var id := Binding(s, r, q.mac).value;
      var row := s.table[id];
      if row.ip.Some? && V4(row.ip.value) !in s.active && InPool(r, row.ip.value) then s else DelRow(s, id)
    else s
  }

  /** Every grant hands out the address on the cleared table. */
  lemma {:induction false} AcquireHands(s: State, r: Range, cur: uint32, q: Request)
    requires WellFormed(s) && ValidRange(r) && InPool(r, cur)
    ensures var (s', _, ip) := AcquireSpec(s, r, cur, q);
            ip.Some? ==> s' == Hand(Cleared(s, r, q), r, ip.value, q)
  {
    if q.uniqueMac {
      var id := Binding(s, r, q.mac);
      if id.None? {
        LoopHands(s, r, cur, q);
      } else {
        var row := s.table[id.value];
        if row.ip.Some? && V4(row.ip.value) !in s.active && InPool(r, row.ip.value) {
          TakingIsHanding(s, r, id.value, q);
        } else if !row.keep {
          LoopHands(DelRow(s, id.value), r, cur, q);
        }
      }
    } else {
      var id := FirstReusable(s, r, Candidates(s, r, q.user), q.mac);
      if id.Some? {
        TakingIsHanding(s, r, id.value, q);
      } else {
        LoopHands(s, r, cur, q);
      }
    }
  }

  /**
   * The invariant that exclusivity rests on survives a grant exactly when the write that records
   * the new owner is not rejected.
   */
  lemma {:induction false} GrantKeepsMatchIff(s: State, r: Range, cur: uint32, q: Request, owner: Owners)
    requires WellFormed(s) && ValidRange(r) && InPool(r, cur) && RowsMatch(s, owner)
    ensures var (s', _, ip) := AcquireSpec(s, r, cur, q);
            if ip.None? then RowsMatch(s', owner)
            else RowsMatch(s', owner[V4(ip.value) := q.mac]) <==> !Rejected(Cleared(s, r, q), r, ip.value, q)
  {
    AcquireHands(s, r, cur, q);
    var ip := AcquireSpec(s, r, cur, q).2;
    if ip.Some? {
      HandMatchesIff(Cleared(s, r, q), r, ip.value, q, owner);
    } else {
      LoopHands(s, r, cur, q);
      if q.uniqueMac && Binding(s, r, q.mac).Some? {
        LoopHands(DelRow(s, Binding(s, r, q.mac).value), r, cur, q);
      }
    }
  }

  // ----- over whole runs

  /** An operation of the allocator, with the pool it is on and wherever the cursors happen to be. */
  datatype Event =
    | Acquire(r: Range, cur: uint32, q: Request)
    | Acquire6(group: string, start: nat, end: nat, cursor: nat, q: Request)
    | Release(ip: Option<uint32>, ip6: Option<nat>, now: int)

  ghost predicate ValidEvent(e: Event) {
    e.Acquire? ==> ValidRange(e.r) && InPool(e.r, e.cur)
  }

  ghost function After(s: State, e: Event): State {
    match e
    case Acquire(r, cur, q) => AcquireSpec(s, r, cur, q).0
    case Acquire6(group, start, end, cursor, q) => AcquireV6Spec(s, group, start, end, cursor, q).0
    case Release(ip, ip6, now) => ReleaseSpec(s, ip, ip6, now)
  }

  /** The address an event hands out, and to which MAC. */
  ghost function Granted(s: State, e: Event): Option<(Addr, string)> {
    match e
    case Acquire(r, cur, q) =>
      var ip := AcquireSpec(s, r, cur, q).2;
      if ip.Some? then Some((V4(ip.value), q.mac)) else None
    case Acquire6(group, start, end, cursor, q) =>
      var ip := AcquireV6Spec(s, group, start, end, cursor, q).2;
      if ip.Some? then Some((V6(ip.value), q.mac)) else None
    case Release(_, _, _) => None
  }

  /** Who owns what afterwards: grants add owners. What a released address was is of no interest. */
  ghost function OwnersAfter(s: State, owner: Owners, e: Event): Owners {
    var g := Granted(s, e);
    if g.Some? then owner[g.value.0 := g.value.1] else owner
  }

  ghost predicate NotRejected(s: State, e: Event) {
    e.Acquire? ==>
      var ip := AcquireSpec(s, e.r, e.cur, e.q).2;
      ip.Some? ==> !Rejected(Cleared(s, e.r, e.q), e.r, ip.value, e.q)
  }

  /** No write of a new owner is rejected along the run. */
  ghost predicate NeverRejected(s: State, es: seq<Event>)
    decreases |es|
  {
    es == [] || (NotRejected(s, es[0]) && NeverRejected(After(s, es[0]), es[1..]))
  }

  /** Along the run, no address in use is handed to a device other than the one that has it. */
  ghost predicate NeverShared(s: State, owner: Owners, es: seq<Event>)
    decreases |es|
  {
    es == [] ||
    (var g := Granted(s, es[0]);
     && (g.Some? ==> Exclusive(s, owner, g.value.0, g.value.1))
     && NeverShared(After(s, es[0]), OwnersAfter(s, owner, es[0]), es[1..]))
  }

  ghost predicate Safe(s: State, owner: Owners) {
    WellFormed(s) && Ip6Unique(s.table) && RowsMatch(s, owner)
  }

  lemma {:induction false} Scan6FindsFirst(s: State, lo: nat, hi: nat, q: Request)
    ensures match Scan6(s, lo, hi, q)
            case Some(n) => lo <= n <= hi && Available6(s, n, q) &&
                            forall m :: lo <= m < n ==> !Available6(s, m, q)
            case None => forall m :: lo <= m <= hi ==> !Available6(s, m, q)
    decreases hi + 1 - lo
  {
    if lo <= hi && !Available6(s, lo, q) {
      Scan6FindsFirst(s, lo + 1, hi, q);
    }
  }

  lemma {:induction false} Hand6KeepsSafe(s: State, owner: Owners, group: string, n: nat, q: Request)
    requires Safe(s, owner)
    ensures Safe(Hand6(s, group, n, q), owner[V6(n) := q.mac])
  {
    Hand6KeepsValid(s, group, n, q);
  }

  lemma {:induction false} Acquire6KeepsSafe(s: State, owner: Owners, e: Event)
    requires Safe(s, owner) && e.Acquire6?
    ensures Safe(After(s, e), OwnersAfter(s, owner, e))
    ensures var g := Granted(s, e);
            g.Some? ==> g.value.0 !in s.active
  {
    var c := Start6(e.start, e.end, e.cursor);
    Scan6FindsFirst(s, c, e.end, e.q);
    if c > 0 {
      Scan6FindsFirst(s, e.start, c - 1, e.q);
    }
    var ip := AcquireV6Spec(s, e.group, e.start, e.end, e.cursor, e.q).2;
    if ip.Some? {
      Hand6KeepsSafe(s, owner, e.group, ip.value, e.q);
    }
  }

  lemma {:induction false} Release4KeepsSafe(s: State, owner: Owners, n: uint32, now: int)
    requires Safe(s, owner)
    ensures Safe(Release4(s, n, now), owner)
  {
  }

  lemma {:induction false} Release6KeepsSafe(s: State, owner: Owners, n: nat, now: int)
    requires Safe(s, owner)
    ensures Safe(Release6(s, n, now), owner)
  {
  }

  /** One event keeps the invariant, unless a write is rejected, and shares no address. */
  lemma {:induction false} EventKeepsSafe(s: State, owner: Owners, e: Event)
    requires Safe(s, owner) && ValidEvent(e) && NotRejected(s, e)
    ensures Safe(After(s, e), OwnersAfter(s, owner, e))
    ensures var g := Granted(s, e);
            g.Some? ==> Exclusive(s, owner, g.value.0, g.value.1)
  {
    match e
    case Acquire(r, cur, q) =>
      AcquireKeepsValid(s, r, cur, q);
      GrantIsExclusive(s, r, cur, q, owner);
      GrantKeepsMatchIff(s, r, cur, q, owner);
    case Acquire6(_, _, _, _, _) =>
      Acquire6KeepsSafe(s, owner, e);
    case Release(ip, ip6, now) =>
      var s' := s;
      if ip.Some? {
        Release4KeepsSafe(s, owner, ip.value, now);
        s' := Release4(s, ip.value, now);
      }
      if ip6.Some? {
        Release6KeepsSafe(s', owner, ip6.value, now);
      }
  }

  /**
   * In every run of acquisitions and releases over all pools in which no write of a new owner is
   * rejected, an address in use is never handed to a device with another MAC.
   */
  lemma {:induction false} RunsNeverShare(s: State, owner: Owners, es: seq<Event>)
    requires Safe(s, owner) && (forall e <- es :: ValidEvent(e)) && NeverRejected(s, es)
    ensures NeverShared(s, owner, es)
    decreases |es|
  {
    if es != [] {
      assert es[0] in es && forall e <- es[1..] :: e in es;
      EventKeepsSafe(s, owner, es[0]);
      RunsNeverShare(After(s, es[0]), OwnersAfter(s, owner, es[0]), es[1..]);
    }
  }

  // ----- when a write may be rejected, told before the call

  /** The address has the row of another device. */
  ghost predicate Foreign(s: State, n: uint32, q: Request) {
    ByIp(s.table, n).Some? && s.table[ByIp(s.table, n).value].mac != q.mac
  }

  /** No recyclable row of the pool has an earlier login than that of `n`. */
  ghost predicate Earliest(s: State, r: Range, n: uint32, q: Request) {
    && Recyclable(s, r, n, q)
    && forall m: uint32 :: InPool(r, m) && Recyclable(s, r, m, q) ==>
         s.table[ByIp(s.table, n).value].lastLogin <= s.table[ByIp(s.table, m).value].lastLogin
  }

  /** The scan may come upon another device's row: one whose lease is over, or the first to be recycled. */
  ghost predicate MayTakeOver(s: State, r: Range, q: Request) {
    || (exists n: uint32 :: InPool(r, n) && Lapsed(s, r, n, q) && Foreign(s, n, q))
    || ((forall n: uint32 :: InPool(r, n) ==> !Available(s, r, n, q))
        && exists n: uint32 :: InPool(r, n) && Earliest(s, r, n, q) && Foreign(s, n, q))
  }

  /**
   * The client does not report its MAC, the MAC is bound in the group already, and what the client is given
   * is another device's row: one of its user's, or one that the scan comes upon.
   */
  ghost predicate Endangered(s: State, r: Range, q: Request) {
    && !q.uniqueMac && ByBinding(s.table, q.mac, r.group).Some?
    && var id := FirstReusable(s, r, Candidates(s, r, q.user), q.mac);
       if id.Some? then s.table[id.value].mac != q.mac else MayTakeOver(s, r, q)
  }

  lemma {:induction false} RejectedIffBound(s: State, r: Range, n: uint32, q: Request)
    ensures Rejected(s, r, n, q) <==> Foreign(s, n, q) && ByBinding(s.table, q.mac, r.group).Some?
  {
    var j := ByBinding(s.table, q.mac, r.group);
    assert j.Some? ==> IsBound(s.table, j.value, q.mac, r.group);
  }

  lemma {:induction false} FarStays(s: State, r: Range, lo: nat, hi: uint32, q: Request, far: nat)
    requires far in s.table
    requires forall m: uint32 :: lo <= m <= hi && Recyclable(s, r, m, q) ==>
               s.table[far].lastLogin <= s.table[ByIp(s.table, m).value].lastLogin
    ensures Far(s, r, lo, hi, q, Some(far)) == Some(far)
    decreases hi + 1 - lo
  {
    if lo <= hi {
      FarStays(s, r, lo + 1, hi, q, far);
    }
  }

  /** From a cursor on it, an address that the scan may come upon is the one that is given. */
  lemma {:induction false} CursorFinds(s: State, r: Range, n: uint32, q: Request)
    requires ValidRange(r) && InPool(r, n)
    requires || Available(s, r, n, q)
             || (Earliest(s, r, n, q) && forall m: uint32 :: InPool(r, m) ==> !Available(s, r, m, q))
    ensures LoopSpec(s, r, n, q).2 == Some(n)
  {
    if !Available(s, r, n, q) {
      ScanFindsFirst(s, r, n, r.max, q);
      ScanFindsFirst(s, r, r.min, n, q);
      var id := ByIp(s.table, n).value;
      assert Far(s, r, n, r.max, q, None) == Far(s, r, n + 1, r.max, q, Some(id));
      FarStays(s, r, n + 1, r.max, q, id);
      FarStays(s, r, r.min, n, q, id);
    }
  }

  /** What the scan grants over another device's row, it may come upon. */
  lemma {:induction false} LoopTakesOver(s: State, r: Range, cur: uint32, q: Request)
    requires WellFormed(s) && ValidRange(r) && InPool(r, cur)
    ensures var ip := LoopSpec(s, r, cur, q).2;
            ip.Some? && Foreign(s, ip.value, q) ==> MayTakeOver(s, r, q)
  {
    if n: uint32 :| InPool(r, n) && Available(s, r, n, q) {
      AvailableIsPreferred(s, r, cur, q, n);
    } else {
      RecycledIsOldest(s, r, cur, q);
    }
  }

  lemma {:induction false} UniqueMacNotRejected(s: State, r: Range, cur: uint32, q: Request)
    requires WellFormed(s) && q.uniqueMac && AcquireSpec(s, r, cur, q).2.Some?
    ensures !Rejected(Cleared(s, r, q), r, AcquireSpec(s, r, cur, q).2.value, q)
  {
  }

  /** Whether a write may be rejected, for some position of the cursor, can be told before the call. */
  lemma {:induction false} RejectableIff(s: State, r: Range, q: Request)
    requires WellFormed(s) && ValidRange(r)
    ensures (exists cur :: InPool(r, cur) && !NotRejected(s, Acquire(r, cur, q))) <==> Endangered(s, r, q)
  {
    if cur :| InPool(r, cur) && !NotRejected(s, Acquire(r, cur, q)) {
      RejectedIsEndangered(s, r, cur, q);
    }
    if Endangered(s, r, q) {
      var cur := EndangeredIsRejected(s, r, q);
    }
  }

  lemma {:induction false} RejectedIsEndangered(s: State, r: Range, cur: uint32, q: Request)
    requires WellFormed(s) && ValidRange(r) && InPool(r, cur) && !NotRejected(s, Acquire(r, cur, q))
    ensures Endangered(s, r, q)
  {
    var ip := AcquireSpec(s, r, cur, q).2.value;
    if q.uniqueMac {
      UniqueMacNotRejected(s, r, cur, q);
    }
    RejectedIffBound(s, r, ip, q);
    var id := FirstReusable(s, r, Candidates(s, r, q.user), q.mac);
    if id.Some? {
      ByIpIs(s.table, id.value, ip);
    } else {
      LoopTakesOver(s, r, cur, q);
    }
  }

  lemma {:induction false} EndangeredIsRejected(s: State, r: Range, q: Request) returns (cur: uint32)
    requires WellFormed(s) && ValidRange(r) && Endangered(s, r, q)
    ensures InPool(r, cur) && !NotRejected(s, Acquire(r, cur, q))
  {
    var id := FirstReusable(s, r, Candidates(s, r, q.user), q.mac);
    if id.Some? {
      cur := s.table[id.value].ip.value;
      ByIpIs(s.table, id.value, cur);
    } else if n: uint32 :| InPool(r, n) && Lapsed(s, r, n, q) && Foreign(s, n, q) {
      cur := n;
      CursorFinds(s, r, n, q);
    } else {
      cur :| InPool(r, cur) && Earliest(s, r, cur, q) && Foreign(s, cur, q);
      CursorFinds(s, r, cur, q);
    }
    RejectedIffBound(s, r, cur, q);
  }

  /** No acquisition of the run is endangered when it is made. */
  ghost predicate NeverEndangered(s: State, es: seq<Event>)
    decreases |es|
  {
    es == [] || ((es[0].Acquire? ==> !Endangered(s, es[0].r, es[0].q)) && NeverEndangered(After(s, es[0]), es[1..]))
  }

  /** Wherever the cursors are, a run without endangered acquisitions shares no address. */
  lemma {:induction false} UnendangeredNeverShare(s: State, owner: Owners, es: seq<Event>)
    requires Safe(s, owner) && (forall e <- es :: ValidEvent(e)) && NeverEndangered(s, es)
    ensures NeverShared(s, owner, es)
    decreases |es|
  {
    if es != [] {
      var e := es[0];
      assert e in es && forall x <- es[1..] :: x in es;
      if !NotRejected(s, e) {
        RejectedIsEndangered(s, e.r, e.cur, e.q);
      }
      EventKeepsSafe(s, owner, e);
      UnendangeredNeverShare(After(s, e), OwnersAfter(s, owner, e), es[1..]);
    }
  }

  /** Where all clients report their MAC, no acquisition is endangered. */
  lemma {:induction false} ReportedMacsNeverShare(s: State, owner: Owners, es: seq<Event>)
    requires Safe(s, owner) && forall e <- es :: ValidEvent(e) && (e.Acquire? ==> e.q.uniqueMac)
    ensures NeverShared(s, owner, es)
  {
    ReportedIsUnendangered(s, es);
    UnendangeredNeverShare(s, owner, es);
  }

  lemma {:induction false} ReportedIsUnendangered(s: State, es: seq<Event>)
    requires forall e <- es :: e.Acquire? ==> e.q.uniqueMac
    ensures NeverEndangered(s, es)
    decreases |es|
  {
    if es != [] {
      assert es[0] in es && forall x <- es[1..] :: x in es;
      ReportedIsUnendangered(After(s, es[0]), es[1..]);
    }
  }

  // ----- a rejected write does share an address

  const POOL := Range(10, 10, None, "")
  const ROW1 := Row(Some(10), None, "m1", "", "u1", false, false, 0)
  const ROW2 := Row(Some(99), None, "m2", "", "u2", false, true, 0)
  const BEFORE := State({}, map[1 := ROW1, 2 := ROW2], 3)
  const DURING := State({V4(10)}, map[1 := ROW1, 2 := ROW2], 3)
  const FIRST := Request("u2", "m2", false, 100, 50)
  const SECOND := Request("u1", "m1", false, 100, 50)

  /** The reserved row of the first client lies outside the pool. */
  lemma {:induction false} NothingReusable()
    ensures FirstReusable(BEFORE, POOL, Candidates(BEFORE, POOL, "u2"), "m2") == None
  {
    assert UserRows(BEFORE, "u2", "", 3) == [];
    assert UserRows(BEFORE, "u2", "", 2) == [2];
    assert UserRows(BEFORE, "u2", "", 1) == [2];
    assert Candidates(BEFORE, POOL, "u2") == [2];
    assert [2][1..] == [];
  }

  lemma {:induction false} FirstClientServed()
    ensures WellFormed(BEFORE) && Ip6Unique(BEFORE.table)
    ensures AcquireSpec(BEFORE, POOL, 10, FIRST) == (DURING, 10, Some(10))
    ensures Rejected(BEFORE, POOL, 10, FIRST)
  {
    NothingReusable();
    ByIpIs(BEFORE.table, 1, 10);
    assert Available(BEFORE, POOL, 10, FIRST);
    assert IsBound(BEFORE.table, 2, "m2", "");
    assert !Accepts(BEFORE.table, 1, TakenRow(ROW1, POOL, FIRST));
    assert Scan(BEFORE, POOL, 10, 10, FIRST) == Some(10);
    assert Hand(BEFORE, POOL, 10, FIRST).active == {V4(10)};
  }

  lemma {:induction false} SecondClientServed()
    ensures AcquireSpec(DURING, POOL, 10, SECOND).2 == Some(10)
  {
    assert UserRows(DURING, "u1", "", 3) == [];
    assert UserRows(DURING, "u1", "", 2) == [];
    assert UserRows(DURING, "u1", "", 1) == [1];
    assert Candidates(DURING, POOL, "u1") == [1];
  }

  /**
   * The guard is needed. The lease of m1 on the only address has lapsed, and m2 has a binding of its own
   * elsewhere. m2 gets the address, but the row cannot be made over to it and still names m1; when m1
   * comes back, it is given the address m2 is using.
   */
  lemma {:induction false} RejectedWriteShares()
    ensures var first, second := Acquire(POOL, 10, FIRST), Acquire(POOL, 10, SECOND);
            && Safe(BEFORE, map[]) && FIRST.mac != SECOND.mac
            && Granted(BEFORE, first) == Some((V4(10), FIRST.mac))
            && Granted(After(BEFORE, first), second) == Some((V4(10), SECOND.mac))
            && !NotRejected(BEFORE, first) && !NeverShared(BEFORE, map[], [first, second])
  {
    FirstClientServed();
    SecondClientServed();
    var first, second := Acquire(POOL, 10, FIRST), Acquire(POOL, 10, SECOND);
    var owner := OwnersAfter(BEFORE, map[], first);
    assert owner[V4(10)] == "m2";
    assert [first, second][1..] == [second];
    assert !NeverShared(DURING, owner, [second]);
  }

  // ----- reserved rows

  /** Every reserved row is still there, for the same MAC and the same address. */
  ghost predicate KeepsReserved(s: State, s': State) {
    forall id <- s.table :: s.table[id].keep ==>
      id in s'.table && s'.table[id].keep &&
      s'.table[id].mac == s.table[id].mac && s'.table[id].ip == s.table[id].ip
  }

  lemma {:induction false} ReservedTransitive(s: State, t: State, u: State)
    requires KeepsReserved(s, t) && KeepsReserved(t, u)
    ensures KeepsReserved(s, u)
  {
  }

  lemma {:induction false} HandKeepsReserved(s: State, r: Range, n: uint32, q: Request)
    requires WellFormed(s)
    requires var id := ByIp(s.table, n);
             id.Some? && s.table[id.value].keep ==> s.table[id.value].mac == q.mac
    ensures KeepsReserved(s, Hand(s, r, n, q))
  {
  }

  lemma {:induction false} LoopKeepsReserved(s: State, r: Range, cur: uint32, q: Request)
    requires WellFormed(s) && ValidRange(r) && InPool(r, cur)
    ensures KeepsReserved(s, LoopSpec(s, r, cur, q).0)
  {
    LoopHands(s, r, cur, q);
    LoopGrantsIdle(s, r, cur, q);
    var ip := LoopSpec(s, r, cur, q).2;
    if ip.Some? {
      HandKeepsReserved(s, r, ip.value, q);
    }
  }

  lemma {:induction false} TakingKeepsReserved(s: State, r: Range, id: nat, q: Request)
    requires WellFormed(s) && id in s.table && s.table[id].ip.Some?
    requires s.table[id].keep ==> s.table[id].mac == q.mac
    ensures KeepsReserved(s, Activate(SetRow(s, id, TakenRow(s.table[id], r, q)), V4(s.table[id].ip.value)))
  {
  }

  lemma {:induction false} AcquireKeepsReserved(s: State, r: Range, cur: uint32, q: Request)
    requires WellFormed(s) && ValidRange(r) && InPool(r, cur)
    ensures KeepsReserved(s, AcquireSpec(s, r, cur, q).0)
  {
    if q.uniqueMac && Binding(s, r, q.mac).Some? {
      var id := Binding(s, r, q.mac).value;
      var row, c := s.table[id], DelRow(s, id);
      if row.ip.Some? && V4(row.ip.value) !in s.active && InPool(r, row.ip.value) {
        TakingKeepsReserved(s, r, id, q);
      } else if !row.keep {
        LoopKeepsReserved(c, r, cur, q);
        ReservedTransitive(s, c, LoopSpec(c, r, cur, q).0);
      }
    } else if !q.uniqueMac && FirstReusable(s, r, Candidates(s, r, q.user), q.mac).Some? {
      TakingKeepsReserved(s, r, FirstReusable(s, r, Candidates(s, r, q.user), q.mac).value, q);
    } else {
      LoopKeepsReserved(s, r, cur, q);
    }
  }

  lemma {:induction false} Hand6KeepsReserved(s: State, group: string, n: nat, q: Request)
    requires WellFormed(s)
    ensures KeepsReserved(s, Hand6(s, group, n, q))
  {
  }

  /** Nothing the allocator does changes the MAC or the IPv4 address of a reserved row. */
  lemma {:induction false} ReservedRowsStay(s: State, e: Event)
    requires WellFormed(s) && Ip6Unique(s.table) && ValidEvent(e)
    ensures KeepsReserved(s, After(s, e))
  {
    match e
    case Acquire(r, cur, q) => AcquireKeepsReserved(s, r, cur, q);
    case Acquire6(group, start, end, cursor, q) =>
      var ip := AcquireV6Spec(s, group, start, end, cursor, q).2;
      if ip.Some? {
        Hand6KeepsReserved(s, group, ip.value, q);
      }
    case Release(ip, ip6, now) => ReleaseKeepsReserved(s, ip, ip6, now);
  }

  lemma {:induction false} Release6KeepsReserved(s: State, n: nat, now: int)
    ensures KeepsReserved(s, Release6(s, n, now))
  {
  }

  lemma {:induction false} ReleaseKeepsReserved(s: State, ip: Option<uint32>, ip6: Option<nat>, now: int)
    requires WellFormed(s) && Ip6Unique(s.table)
    ensures KeepsReserved(s, ReleaseSpec(s, ip, ip6, now))
  {
    var s' := if ip.Some? then Release4(s, ip.value, now) else s;
    assert KeepsReserved(s, s');
    if ip6.Some? {
      Release6KeepsReserved(s', ip6.value, now);
      ReservedTransitive(s, s', Release6(s', ip6.value, now));
    }
  }

  /** A reserved address goes to the MAC it is reserved for, and to no other. */
  lemma {:induction false} ReservedAddressGoesToItsMac(s: State, r: Range, cur: uint32, q: Request, id: nat)
    requires WellFormed(s) && ValidRange(r) && InPool(r, cur)
    requires id in s.table && s.table[id].keep && s.table[id].ip.Some?
    requires AcquireSpec(s, r, cur, q).2 == s.table[id].ip
    ensures s.table[id].mac == q.mac
  {
    ByIpIs(s.table, id, s.table[id].ip.value);
    LoopGrantsIdle(s, r, cur, q);
    if q.uniqueMac && Binding(s, r, q.mac).Some? {
      var c := DelRow(s, Binding(s, r, q.mac).value);
      LoopGrantsIdle(c, r, cur, q);
      if id in c.table {
        ByIpIs(c.table, id, s.table[id].ip.value);
      }
    }
  }

  // ----- IPv6 addresses

  /**
   * An IPv6 address handed out lies in the range and was not in use; and one is handed out whenever the
   * range has an available address, wherever the cursor stands: the two segments cover the range.
   */
  lemma {:induction false} V6GrantsFromRange(s: State, group: string, start: nat, end: nat, cursor: nat, q: Request)
    ensures var (s', cursor', ip) := AcquireV6Spec(s, group, start, end, cursor, q);
            && (ip.Some? ==> start <= ip.value <= end && V6(ip.value) !in s.active && Available6(s, ip.value, q)
                             && s'.active == s.active + {V6(ip.value)} && cursor' == ip.value + 1)
            && (ip.None? <==> forall n :: start <= n <= end ==> !Available6(s, n, q))
  {
    var c := Start6(start, end, cursor);
    Scan6FindsFirst(s, c, end, q);
    if c > 0 {
      Scan6FindsFirst(s, start, c - 1, q);
    }
  }

  /** The IPv6 columns stay pairwise distinct, whatever the allocator does. */
  lemma {:induction false} V6ColumnsStayDistinct(s: State, e: Event)
    requires WellFormed(s) && Ip6Unique(s.table)
    ensures WellFormed(After(s, e)) && Ip6Unique(After(s, e).table)
  {
    match e
    case Acquire(r, cur, q) => AcquireKeepsValid(s, r, cur, q);
    case Acquire6(group, start, end, cursor, q) =>
      var ip := AcquireV6Spec(s, group, start, end, cursor, q).2;
      if ip.Some? {
        Hand6KeepsValid(s, group, ip.value, q);
      }
    case Release(ip, ip6, now) => ReleaseKeepsValid(s, ip, ip6, now);
  }
}
